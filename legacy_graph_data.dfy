/**
 * The earlier `getGraphDataFromLogData`
 * (web-app/app/routes/dashboard/subcomponents/UserLogDataGraph/lib/getGraphDataFromLogData.ts):
 * one data point per reward event, in timestamp order; a point with no stake event at its
 * timestamp has no staked amount (`null`).
 */
module LegacyGraphData {
  import opened Wrappers
  import opened LogData

  datatype LegacyGraphData = LegacyGraphData(stakedAmtVals: seq<Option<int>>, rewardAmtVals: seq<int>, timestampsInMs: seq<int>)

  /** The number of data points that carry a staked amount. */
  function CountPresent(vals: seq<Option<int>>): (n: nat)
    ensures n <= |vals|
  {
    if vals == [] then 0
    else CountPresent(vals[..|vals| - 1]) + (if vals[|vals| - 1].Some? then 1 else 0)
  }

  /**
   * The staked value of the `i`-th data point: the amount of the stake event the loop takes off
   * the queue at that iteration, or no value when the queue's head has another timestamp.
   */
  function StakedAt(stakes: seq<StakeEvent>, rewards: seq<RewardEvent>, i: nat): Option<int>
    requires i < |rewards|
  {
    if HeadMatches(stakes, rewards, i) then Some(stakes[Consumed(stakes, rewards, i)].totalAmtStakedByUserVal) else None
  }

  lemma CountPresentAppend(vals: seq<Option<int>>, v: Option<int>)
    ensures CountPresent(vals + [v]) == CountPresent(vals) + (if v.Some? then 1 else 0)
  {
    assert (vals + [v])[..|vals|] == vals;
  }

  /** The graph data of the first `n` reward events: what the loop has built after `n` iterations. */
  function Drained(stakes: seq<StakeEvent>, rewards: seq<RewardEvent>, n: nat): LegacyGraphData
    requires n <= |rewards|
  {
    if n == 0 then LegacyGraphData([], [], [])
    else
      var g := Drained(stakes, rewards, n - 1);
      LegacyGraphData(g.stakedAmtVals + [StakedAt(stakes, rewards, n - 1)],
                      g.rewardAmtVals + [rewards[n - 1].rewardBalVal],
                      g.timestampsInMs + [rewards[n - 1].timestampInMs])
  }

  /** Data point `j` holds the `j`-th reward event's balance and timestamp. */
  lemma {:induction false} DrainedRewardsAt(stakes: seq<StakeEvent>, rewards: seq<RewardEvent>, n: nat)
    requires n <= |rewards|
    ensures var g := Drained(stakes, rewards, n);
      && |g.stakedAmtVals| == |g.rewardAmtVals| == |g.timestampsInMs| == n
      && (forall j :: 0 <= j < n ==> g.rewardAmtVals[j] == rewards[j].rewardBalVal && g.timestampsInMs[j] == rewards[j].timestampInMs)
  {
    if n > 0 {
      DrainedRewardsAt(stakes, rewards, n - 1);
    }
  }

  /** Data point `j` holds the staked value of iteration `j`. */
  lemma {:induction false} DrainedStakedAt(stakes: seq<StakeEvent>, rewards: seq<RewardEvent>, n: nat)
    requires n <= |rewards|
    ensures |Drained(stakes, rewards, n).stakedAmtVals| == n
    ensures forall j :: 0 <= j < n ==> Drained(stakes, rewards, n).stakedAmtVals[j] == StakedAt(stakes, rewards, j)
  {
    if n > 0 {
      DrainedStakedAt(stakes, rewards, n - 1);
    }
  }

  /** A data point carries a staked amount exactly when a stake event is taken off the queue. */
  lemma {:induction false} DrainedCount(stakes: seq<StakeEvent>, rewards: seq<RewardEvent>, n: nat)
    requires n <= |rewards|
    ensures CountPresent(Drained(stakes, rewards, n).stakedAmtVals) == Consumed(stakes, rewards, n)
  {
    if n > 0 {
      var prev, v := Drained(stakes, rewards, n - 1).stakedAmtVals, StakedAt(stakes, rewards, n - 1);
      assert Drained(stakes, rewards, n).stakedAmtVals == prev + [v];
      DrainedCount(stakes, rewards, n - 1);
      ConsumedStep(stakes, rewards, n - 1);
      CountPresentAppend(prev, v);
    }
  }

  /**
   * One iteration on the stake queue `stakes[Consumed(i)..]`: the data point it appends is the
   * next one of `Drained`, and what it leaves is the next iteration's queue.
   */
  lemma DrainStep(stakes: seq<StakeEvent>, rewards: seq<RewardEvent>, i: nat, queue: seq<StakeEvent>)
    requires i < |rewards| && queue == stakes[Consumed(stakes, rewards, i)..]
    ensures var take := queue != [] && queue[0].timestampInMs == rewards[i].timestampInMs;
      var g := Drained(stakes, rewards, i);
      && Drained(stakes, rewards, i + 1)
         == LegacyGraphData(g.stakedAmtVals + [if take then Some(queue[0].totalAmtStakedByUserVal) else None],
                            g.rewardAmtVals + [rewards[i].rewardBalVal],
                            g.timestampsInMs + [rewards[i].timestampInMs])
      && (if take then queue[1..] else queue) == stakes[Consumed(stakes, rewards, i + 1)..]
  {
    QueueStep(stakes, rewards, i, queue);
  }

  /**
   * The loop of `getGraphDataFromLogData` over the sorted queues: one data point per reward event,
   * with the head of the stake queue taken when its timestamp matches.
   */
  method DrainQueues(stakes: seq<StakeEvent>, rewards: seq<RewardEvent>) returns (g: LegacyGraphData)
    ensures g == Drained(stakes, rewards, |rewards|)
  {
    var sortedStakeEventsQueue := stakes;
    var sortedRewardEventsQueue := rewards;

    var stakedAmtVals: seq<Option<int>> := [];
    var rewardAmtVals: seq<int> := [];
    var timestampsInMs: seq<int> := [];

    var noOfDatapoints := |rewards|;
    for i := 0 to noOfDatapoints
      invariant sortedRewardEventsQueue == rewards[i..]
      invariant sortedStakeEventsQueue == stakes[Consumed(stakes, rewards, i)..]
      invariant LegacyGraphData(stakedAmtVals, rewardAmtVals, timestampsInMs) == Drained(stakes, rewards, i)
    {
      if sortedRewardEventsQueue == [] {
        // 'All reward events must exist in queue': the queue holds one event per remaining iteration.
        assert false;
      }
      var rewardEvent := sortedRewardEventsQueue[0];
      rewardAmtVals := rewardAmtVals + [rewardEvent.rewardBalVal];
      sortedRewardEventsQueue := sortedRewardEventsQueue[1..];

      var timestamp := rewardEvent.timestampInMs;
      timestampsInMs := timestampsInMs + [timestamp];

      DrainStep(stakes, rewards, i, sortedStakeEventsQueue);
      var stakedAmt: Option<int> := None;
      if sortedStakeEventsQueue != [] && sortedStakeEventsQueue[0].timestampInMs == timestamp {
        stakedAmt := Some(sortedStakeEventsQueue[0].totalAmtStakedByUserVal);
        sortedStakeEventsQueue := sortedStakeEventsQueue[1..];
      }
      stakedAmtVals := stakedAmtVals + [stakedAmt];
    }

    g := LegacyGraphData(stakedAmtVals, rewardAmtVals, timestampsInMs);
  }

  /** The source sorts clones of its inputs, so the arrays are only read (no `modifies`). */
  method GetGraphDataFromLogData(stakeEventHistoricalData: array<StakeEvent>, rewardEventHistoricalData: array<RewardEvent>)
    returns (g: LegacyGraphData)
    ensures var stakes := SortStakeEvents(stakeEventHistoricalData[..]);
      var rewards := SortRewardEvents(rewardEventHistoricalData[..]);
      && |g.stakedAmtVals| == |g.rewardAmtVals| == |g.timestampsInMs| == rewardEventHistoricalData.Length
      && (forall i :: 0 <= i < |rewards| ==>
            g.rewardAmtVals[i] == rewards[i].rewardBalVal && g.timestampsInMs[i] == rewards[i].timestampInMs)
      && (forall i, j :: 0 <= i < j < |rewards| ==> g.timestampsInMs[i] <= g.timestampsInMs[j])
      && (forall i :: 0 <= i < |rewards| ==> g.stakedAmtVals[i] == StakedAt(stakes, rewards, i))
      && CountPresent(g.stakedAmtVals) == Consumed(stakes, rewards, |rewards|) <= |stakes|
  {
    var sortedStakeEvents := SortStakeEvents(stakeEventHistoricalData[..]);
    var sortedRewardEvents := SortRewardEvents(rewardEventHistoricalData[..]);
    g := DrainQueues(sortedStakeEvents, sortedRewardEvents);
    DrainedRewardsAt(sortedStakeEvents, sortedRewardEvents, |sortedRewardEvents|);
    DrainedStakedAt(sortedStakeEvents, sortedRewardEvents, |sortedRewardEvents|);
    DrainedCount(sortedStakeEvents, sortedRewardEvents, |sortedRewardEvents|);
    SortByKeyCorrect(rewardEventHistoricalData[..], RewardTimestamp);
    forall i, j | 0 <= i < j < |sortedRewardEvents| ensures g.timestampsInMs[i] <= g.timestampsInMs[j] {
      assert RewardTimestamp(sortedRewardEvents[i]) <= RewardTimestamp(sortedRewardEvents[j]);
    }
  }
}
