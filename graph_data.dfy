/**
 * `getGraphDataFromLogData` of the current dashboard
 * (web-app/src/app/routes/dashboard/subcomponents/UserLogDataGraph/lib/getGraphDataFromLogData.ts):
 * one data point per reward event, in timestamp order; a point with no stake event at its
 * timestamp repeats the previous staked amount (0 before the first).
 */
module GraphData {
  import opened LogData

  datatype GraphData = GraphData(stakedAmtVals: seq<int>, rewardAmtVals: seq<int>, readableTimestamps: seq<string>)

  /** The amount of the last stake event taken off the queue in the first `i + 1` iterations, or 0 if none was. */
  function LastConsumedAmt(stakes: seq<StakeEvent>, rewards: seq<RewardEvent>, i: nat): int
    requires i < |rewards|
  {
    var c := Consumed(stakes, rewards, i + 1);
    if c == 0 then 0 else stakes[c - 1].totalAmtStakedByUserVal
  }

  /**
   * The last consumed amount is the head's amount when the head matches, and otherwise the
   * previous data point's value (0 at the first), which is how the loop computes it.
   */
  lemma LastConsumedAmtStep(stakes: seq<StakeEvent>, rewards: seq<RewardEvent>, i: nat)
    requires i < |rewards|
    ensures HeadMatches(stakes, rewards, i) ==>
      LastConsumedAmt(stakes, rewards, i) == stakes[Consumed(stakes, rewards, i)].totalAmtStakedByUserVal
    ensures !HeadMatches(stakes, rewards, i) ==>
      LastConsumedAmt(stakes, rewards, i) == if i == 0 then 0 else LastConsumedAmt(stakes, rewards, i - 1)
  {
    ConsumedStep(stakes, rewards, i);
  }

  /** The graph data of the first `n` reward events: what the loop has built after `n` iterations. */
  function Drained(stakes: seq<StakeEvent>, rewards: seq<RewardEvent>, readable: int -> string, n: nat): (g: GraphData)
    requires n <= |rewards|
    ensures |g.stakedAmtVals| == |g.rewardAmtVals| == |g.readableTimestamps| == n
  {
    if n == 0 then GraphData([], [], [])
    else
      var g := Drained(stakes, rewards, readable, n - 1);
      GraphData(g.stakedAmtVals + [LastConsumedAmt(stakes, rewards, n - 1)],
                g.rewardAmtVals + [rewards[n - 1].rewardBalVal],
                g.readableTimestamps + [readable(rewards[n - 1].timestampInMs)])
  }

  /** Data point `j` holds the `j`-th reward event's balance and formatted timestamp. */
  lemma {:induction false} DrainedRewardsAt(stakes: seq<StakeEvent>, rewards: seq<RewardEvent>, readable: int -> string, n: nat)
    requires n <= |rewards|
    ensures var g := Drained(stakes, rewards, readable, n);
      forall j :: 0 <= j < n ==>
        g.rewardAmtVals[j] == rewards[j].rewardBalVal && g.readableTimestamps[j] == readable(rewards[j].timestampInMs)
  {
    if n > 0 {
      DrainedRewardsAt(stakes, rewards, readable, n - 1);
    }
  }

  /** Data point `j` holds the amount of the last stake event consumed by iteration `j`. */
  lemma {:induction false} DrainedStakedAt(stakes: seq<StakeEvent>, rewards: seq<RewardEvent>, readable: int -> string, n: nat)
    requires n <= |rewards|
    ensures forall j :: 0 <= j < n ==> Drained(stakes, rewards, readable, n).stakedAmtVals[j] == LastConsumedAmt(stakes, rewards, j)
  {
    if n > 0 {
      DrainedStakedAt(stakes, rewards, readable, n - 1);
    }
  }

  /**
   * One iteration on the stake queue `stakes[Consumed(i)..]`: the data point it appends, the head's
   * amount or else the previous point's (`stakedAmtVals.at(-1) || 0`), is the next one of `Drained`,
   * and what it leaves is the next iteration's queue.
   */
  lemma DrainStep(stakes: seq<StakeEvent>, rewards: seq<RewardEvent>, readable: int -> string, i: nat, queue: seq<StakeEvent>)
    requires i < |rewards| && queue == stakes[Consumed(stakes, rewards, i)..]
    ensures var take := queue != [] && queue[0].timestampInMs == rewards[i].timestampInMs;
      var g := Drained(stakes, rewards, readable, i);
      var previous := if i > 0 then g.stakedAmtVals[i - 1] else 0;
      && Drained(stakes, rewards, readable, i + 1)
         == GraphData(g.stakedAmtVals + [if take then queue[0].totalAmtStakedByUserVal else previous],
                      g.rewardAmtVals + [rewards[i].rewardBalVal],
                      g.readableTimestamps + [readable(rewards[i].timestampInMs)])
      && (if take then queue[1..] else queue) == stakes[Consumed(stakes, rewards, i + 1)..]
  {
    QueueStep(stakes, rewards, i, queue);
    LastConsumedAmtStep(stakes, rewards, i);
  }

  /** The loop of `getGraphDataFromLogData` over the sorted queues. */
  method DrainQueues(stakes: seq<StakeEvent>, rewards: seq<RewardEvent>, readable: int -> string) returns (g: GraphData)
    ensures g == Drained(stakes, rewards, readable, |rewards|)
  {
    var sortedStakeEventsQueue := stakes;
    var sortedRewardEventsQueue := rewards;

    var stakedAmtVals: seq<int> := [];
    var rewardAmtVals: seq<int> := [];
    var readableTimestamps: seq<string> := [];

    var noOfDatapoints := |rewards|;
    for i := 0 to noOfDatapoints
      invariant sortedRewardEventsQueue == rewards[i..]
      invariant sortedStakeEventsQueue == stakes[Consumed(stakes, rewards, i)..]
      invariant GraphData(stakedAmtVals, rewardAmtVals, readableTimestamps) == Drained(stakes, rewards, readable, i)
    {
      if sortedRewardEventsQueue == [] {
        // 'All reward events must exist in queue': the queue holds one event per remaining iteration.
        assert false;
      }
      var rewardEvent := sortedRewardEventsQueue[0];
      rewardAmtVals := rewardAmtVals + [rewardEvent.rewardBalVal];
      sortedRewardEventsQueue := sortedRewardEventsQueue[1..];

      var timestamp := rewardEvent.timestampInMs;
      readableTimestamps := readableTimestamps + [readable(timestamp)];

      DrainStep(stakes, rewards, readable, i, sortedStakeEventsQueue);
      // `stakedAmtVals.at(-1) || 0`
      var stakedAmt := if |stakedAmtVals| > 0 then stakedAmtVals[|stakedAmtVals| - 1] else 0;
      if sortedStakeEventsQueue != [] && sortedStakeEventsQueue[0].timestampInMs == timestamp {
        stakedAmt := sortedStakeEventsQueue[0].totalAmtStakedByUserVal;
        sortedStakeEventsQueue := sortedStakeEventsQueue[1..];
      }
      stakedAmtVals := stakedAmtVals + [stakedAmt];
    }

    g := GraphData(stakedAmtVals, rewardAmtVals, readableTimestamps);
  }

  /**
   * The input arrays are only read (no `modifies`), as the source sorts clones of them. `readable`
   * stands for the locale formatting of a timestamp, `new Date(t).toLocaleString('en-US', ...)`.
   */
  method GetGraphDataFromLogData(stakingLogData: array<StakeEvent>, rewardsLogData: array<RewardEvent>,
                                 readable: int -> string)
    returns (g: GraphData)
    ensures var stakes := SortStakeEvents(stakingLogData[..]);
      var rewards := SortRewardEvents(rewardsLogData[..]);
      && |g.stakedAmtVals| == |g.rewardAmtVals| == |g.readableTimestamps| == rewardsLogData.Length
      && (forall i :: 0 <= i < |rewards| ==>
            g.rewardAmtVals[i] == rewards[i].rewardBalVal
            && g.readableTimestamps[i] == readable(rewards[i].timestampInMs))
      && (forall i :: 0 <= i < |rewards| ==> g.stakedAmtVals[i] == LastConsumedAmt(stakes, rewards, i))
      && (forall i :: 0 <= i < |rewards| && HeadMatches(stakes, rewards, i) ==>
            g.stakedAmtVals[i] == stakes[Consumed(stakes, rewards, i)].totalAmtStakedByUserVal)
      && (forall i :: 0 <= i < |rewards| && !HeadMatches(stakes, rewards, i) ==>
            g.stakedAmtVals[i] == if i == 0 then 0 else g.stakedAmtVals[i - 1])
  {
    var sortedStakeEvents := SortStakeEvents(stakingLogData[..]);
    var sortedRewardEvents := SortRewardEvents(rewardsLogData[..]);
    g := DrainQueues(sortedStakeEvents, sortedRewardEvents, readable);
    DrainedRewardsAt(sortedStakeEvents, sortedRewardEvents, readable, |sortedRewardEvents|);
    DrainedStakedAt(sortedStakeEvents, sortedRewardEvents, readable, |sortedRewardEvents|);
    forall i | 0 <= i < |sortedRewardEvents|
      ensures HeadMatches(sortedStakeEvents, sortedRewardEvents, i) ==>
        g.stakedAmtVals[i] == sortedStakeEvents[Consumed(sortedStakeEvents, sortedRewardEvents, i)].totalAmtStakedByUserVal
      ensures !HeadMatches(sortedStakeEvents, sortedRewardEvents, i) ==>
        g.stakedAmtVals[i] == if i == 0 then 0 else g.stakedAmtVals[i - 1]
    {
      LastConsumedAmtStep(sortedStakeEvents, sortedRewardEvents, i);
    }
  }
}
