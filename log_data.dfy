/**
 * The event records both versions of `getGraphDataFromLogData` read, the stable sort by timestamp
 * they apply to clones of their inputs (`Array.prototype.sort` with `(a, b) => a.timestampInMs - b.timestampInMs`),
 * and the rule by which the loop consumes the head of the stake-event queue.
 */
module LogData {

  /** One decoded `StakeBalChanged` log: when it happened and the user's total stake afterwards. */
  datatype StakeEvent = StakeEvent(timestampInMs: int, totalAmtStakedByUserVal: int)

  /** One decoded `UserRewardUpdated` log: when it happened and the user's reward balance afterwards. */
  datatype RewardEvent = RewardEvent(timestampInMs: int, rewardBalVal: int)

  function StakeTimestamp(e: StakeEvent): int { e.timestampInMs }

  function RewardTimestamp(e: RewardEvent): int { e.timestampInMs }

  // ---------------------------------------------------------------------------
  // Stable sort by an integer key

  ghost predicate SortedBy<T>(s: seq<T>, key: T -> int) {
    forall i, j :: 0 <= i < j < |s| ==> key(s[i]) <= key(s[j])
  }

  /** The elements of `s` whose key is `k`, in their order in `s`. */
  function WithKey<T>(s: seq<T>, key: T -> int, k: int): (r: seq<T>)
    ensures |r| <= |s|
  {
    if s == [] then [] else (if key(s[0]) == k then [s[0]] else []) + WithKey(s[1..], key, k)
  }

  /** Puts `x` in front of the first element whose key is not smaller, so `x` precedes its equals. */
  function Insert<T>(x: T, s: seq<T>, key: T -> int): (r: seq<T>)
    ensures |r| == |s| + 1
  {
    if s == [] || key(x) <= key(s[0]) then [x] + s else [s[0]] + Insert(x, s[1..], key)
  }

  /** `s.sort((a, b) => key(a) - key(b))`: a stable sort by ascending key. */
  function SortByKey<T>(s: seq<T>, key: T -> int): (r: seq<T>)
    ensures |r| == |s|
  {
    if s == [] then [] else Insert(s[0], SortByKey(s[1..], key), key)
  }

  /** Every key in `s` is at least `b`. */
  ghost predicate AllAtLeast<T>(s: seq<T>, key: T -> int, b: int) {
    forall i :: 0 <= i < |s| ==> b <= key(s[i])
  }

  lemma {:induction false} InsertAtLeast<T>(x: T, s: seq<T>, key: T -> int, b: int)
    requires AllAtLeast(s, key, b) && b <= key(x)
    ensures AllAtLeast(Insert(x, s, key), key, b)
    decreases |s|
  {
    if s != [] && key(x) > key(s[0]) {
      InsertAtLeast(x, s[1..], key, b);
    }
  }

  lemma {:induction false} InsertPermutes<T>(x: T, s: seq<T>, key: T -> int)
    ensures multiset(Insert(x, s, key)) == multiset(s) + multiset{x}
    decreases |s|
  {
    if s != [] && key(x) > key(s[0]) {
      InsertPermutes(x, s[1..], key);
      assert s == [s[0]] + s[1..];
    }
  }

  /** Every element of a sorted sequence has at least the key of its head. */
  lemma SortedHeadIsLeast<T>(s: seq<T>, key: T -> int)
    requires SortedBy(s, key) && s != []
    ensures AllAtLeast(s, key, key(s[0]))
  {
    assert forall i :: 0 < i < |s| ==> key(s[0]) <= key(s[i]);
  }

  /** A head whose key bounds every key of a sorted tail gives a sorted sequence. */
  lemma ConsSorted<T>(h: T, t: seq<T>, key: T -> int)
    requires SortedBy(t, key) && AllAtLeast(t, key, key(h))
    ensures SortedBy([h] + t, key)
  {
    var r := [h] + t;
    forall i, j | 0 <= i < j < |r| ensures key(r[i]) <= key(r[j]) {
      assert r[j] == t[j - 1];
      if i > 0 {
        assert r[i] == t[i - 1];
      }
    }
  }

  lemma {:induction false} InsertSorted<T>(x: T, s: seq<T>, key: T -> int)
    requires SortedBy(s, key)
    ensures SortedBy(Insert(x, s, key), key)
    ensures multiset(Insert(x, s, key)) == multiset(s) + multiset{x}
    decreases |s|
  {
    InsertPermutes(x, s, key);
    if s == [] {
      assert Insert(x, s, key) == [x];
    } else if key(x) > key(s[0]) {
      var t := s[1..];
      assert SortedBy(t, key);
      InsertSorted(x, t, key);
      SortedHeadIsLeast(s, key);
      assert AllAtLeast(t, key, key(s[0]));
      InsertAtLeast(x, t, key, key(s[0]));
      ConsSorted(s[0], Insert(x, t, key), key);
      assert Insert(x, s, key) == [s[0]] + Insert(x, t, key);
    } else {
      SortedHeadIsLeast(s, key);
      ConsSorted(x, s, key);
      assert Insert(x, s, key) == [x] + s;
    }
  }

  lemma WithKeyCons<T>(h: T, t: seq<T>, key: T -> int, k: int)
    ensures WithKey([h] + t, key, k) == (if key(h) == k then [h] else []) + WithKey(t, key, k)
  {
    assert ([h] + t)[1..] == t;
  }

  /** The step of `InsertWithKey` where `x` goes past the head `h`, given the claim for the tail `t`. */
  lemma InsertWithKeyPastHead<T>(x: T, h: T, t: seq<T>, key: T -> int, k: int)
    requires key(x) > key(h)
    requires WithKey(Insert(x, t, key), key, k) == (if key(x) == k then [x] else []) + WithKey(t, key, k)
    ensures WithKey(Insert(x, [h] + t, key), key, k) == (if key(x) == k then [x] else []) + WithKey([h] + t, key, k)
  {
    var tail := Insert(x, t, key);
    assert ([h] + t)[1..] == t;
    assert Insert(x, [h] + t, key) == [h] + tail;
    WithKeyCons(h, tail, key, k);
    WithKeyCons(h, t, key, k);
    var rest := WithKey(t, key, k);
    // `x` goes after `h` only when its key is larger, so at most one of them has key `k`.
    if key(x) == k {
      assert WithKey([h] + tail, key, k) == [x] + rest;
    } else {
      assert WithKey(tail, key, k) == rest;
    }
  }

  lemma {:induction false} InsertWithKey<T>(x: T, s: seq<T>, key: T -> int, k: int)
    ensures WithKey(Insert(x, s, key), key, k) == (if key(x) == k then [x] else []) + WithKey(s, key, k)
    decreases |s|
  {
    if s == [] || key(x) <= key(s[0]) {
      assert Insert(x, s, key) == [x] + s;
      WithKeyCons(x, s, key, k);
    } else {
      InsertWithKey(x, s[1..], key, k);
      InsertWithKeyPastHead(x, s[0], s[1..], key, k);
      assert [s[0]] + s[1..] == s;
    }
  }

  /**
   * The sort puts the keys in ascending order, keeps each element as often as it occurs, and is
   * stable: the elements that share a key keep their relative order.
   */
  lemma {:induction false} SortByKeyCorrect<T>(s: seq<T>, key: T -> int)
    ensures SortedBy(SortByKey(s, key), key)
    ensures multiset(SortByKey(s, key)) == multiset(s)
    ensures forall k :: WithKey(SortByKey(s, key), key, k) == WithKey(s, key, k)
    decreases |s|
  {
    if s != [] {
      SortByKeyCorrect(s[1..], key);
      InsertSorted(s[0], SortByKey(s[1..], key), key);
      forall k ensures WithKey(SortByKey(s, key), key, k) == WithKey(s, key, k) {
        InsertWithKey(s[0], SortByKey(s[1..], key), key, k);
      }
      assert s == [s[0]] + s[1..];
    }
  }

  function SortStakeEvents(s: seq<StakeEvent>): (r: seq<StakeEvent>)
    ensures |r| == |s|
  {
    SortByKey(s, StakeTimestamp)
  }

  function SortRewardEvents(s: seq<RewardEvent>): (r: seq<RewardEvent>)
    ensures |r| == |s|
  {
    SortByKey(s, RewardTimestamp)
  }

  // ---------------------------------------------------------------------------
  // Draining the stake queue

  /**
   * How many sorted stake events the loop has taken off the stake queue before its `i`-th
   * iteration: one for each earlier reward event whose timestamp equalled the queue's head.
   */
  function Consumed(stakes: seq<StakeEvent>, rewards: seq<RewardEvent>, i: nat): (c: nat)
    requires i <= |rewards|
    ensures c <= i && c <= |stakes|
  {
    if i == 0 then 0
    else
      var c := Consumed(stakes, rewards, i - 1);
      if c < |stakes| && stakes[c].timestampInMs == rewards[i - 1].timestampInMs then c + 1 else c
  }

  /** At the `i`-th iteration the head of the stake queue exists and has the reward event's timestamp. */
  predicate HeadMatches(stakes: seq<StakeEvent>, rewards: seq<RewardEvent>, i: nat)
    requires i < |rewards|
  {
    var c := Consumed(stakes, rewards, i);
    c < |stakes| && stakes[c].timestampInMs == rewards[i].timestampInMs
  }

  /** A stake event is taken off the queue exactly when the head matches, and at most one per iteration. */
  lemma ConsumedStep(stakes: seq<StakeEvent>, rewards: seq<RewardEvent>, i: nat)
    requires i < |rewards|
    ensures Consumed(stakes, rewards, i + 1) == Consumed(stakes, rewards, i) + (if HeadMatches(stakes, rewards, i) then 1 else 0)
  {
  }

  /**
   * What one iteration does to the stake queue `stakes[Consumed(i)..]`: its head is taken exactly when
   * it matches, and what is left is the queue of the next iteration.
   */
  lemma QueueStep(stakes: seq<StakeEvent>, rewards: seq<RewardEvent>, i: nat, queue: seq<StakeEvent>)
    requires i < |rewards| && queue == stakes[Consumed(stakes, rewards, i)..]
    ensures (queue != [] && queue[0].timestampInMs == rewards[i].timestampInMs) <==> HeadMatches(stakes, rewards, i)
    ensures HeadMatches(stakes, rewards, i) ==>
      queue[0] == stakes[Consumed(stakes, rewards, i)] && queue[1..] == stakes[Consumed(stakes, rewards, i + 1)..]
    ensures !HeadMatches(stakes, rewards, i) ==> queue == stakes[Consumed(stakes, rewards, i + 1)..]
  {
    ConsumedStep(stakes, rewards, i);
  }

  /** Stake events are taken off the queue in sorted order and never more often than there are iterations. */
  lemma {:induction false} ConsumedMonotone(stakes: seq<StakeEvent>, rewards: seq<RewardEvent>, i: nat, j: nat)
    requires i <= j <= |rewards|
    ensures Consumed(stakes, rewards, i) <= Consumed(stakes, rewards, j) <= Consumed(stakes, rewards, i) + (j - i)
    decreases j - i
  {
    if i < j {
      ConsumedMonotone(stakes, rewards, i, j - 1);
    }
  }

  /** A key below every key of `s` picks out nothing. */
  lemma {:induction false} WithKeyBelowLeast<T>(s: seq<T>, key: T -> int, b: int, k: int)
    requires AllAtLeast(s, key, b) && k < b
    ensures WithKey(s, key, k) == []
    decreases |s|
  {
    if s != [] {
      assert AllAtLeast(s[1..], key, b) by {
        forall i | 0 <= i < |s[1..]| ensures b <= key(s[1..][i]) {
          assert s[1..][i] == s[i + 1];
        }
      }
      WithKeyBelowLeast(s[1..], key, b, k);
    }
  }

  lemma SortedSuffix<T>(s: seq<T>, key: T -> int, k: nat)
    requires SortedBy(s, key) && k <= |s|
    ensures SortedBy(s[k..], key)
  {
    forall i, j | 0 <= i < j < |s[k..]| ensures key(s[k..][i]) <= key(s[k..][j]) {
      assert s[k..][i] == s[k + i] && s[k..][j] == s[k + j];
    }
  }

  /** No timestamp occurs more often among the stake events than among the reward events. */
  ghost predicate RewardsCoverStakes(stakes: seq<StakeEvent>, rewards: seq<RewardEvent>) {
    forall t :: |WithKey(stakes, StakeTimestamp, t)| <= |WithKey(rewards, RewardTimestamp, t)|
  }

  /**
   * One iteration keeps the cover between what is left of the two sorted queues: a matching head is
   * taken together with the reward event, and an unmatched reward event has a timestamp that no
   * remaining stake event has, since a smaller stake timestamp would have no reward event left.
   */
  lemma CoverStep(stakes: seq<StakeEvent>, rewards: seq<RewardEvent>, i: nat)
    requires SortedBy(stakes, StakeTimestamp) && SortedBy(rewards, RewardTimestamp) && i < |rewards|
    requires RewardsCoverStakes(stakes[Consumed(stakes, rewards, i)..], rewards[i..])
    ensures RewardsCoverStakes(stakes[Consumed(stakes, rewards, i + 1)..], rewards[i + 1..])
  {
    var c := Consumed(stakes, rewards, i);
    var queue, pending := stakes[c..], rewards[i..];
    var r := rewards[i];
    assert pending == [r] + rewards[i + 1..];
    ConsumedStep(stakes, rewards, i);
    if HeadMatches(stakes, rewards, i) {
      var rest, later := stakes[c + 1..], rewards[i + 1..];
      assert queue == [stakes[c]] + rest;
      forall t ensures |WithKey(rest, StakeTimestamp, t)| <= |WithKey(later, RewardTimestamp, t)| {
        WithKeyCons(stakes[c], rest, StakeTimestamp, t);
        WithKeyCons(r, later, RewardTimestamp, t);
      }
    } else {
      SortedSuffix(rewards, RewardTimestamp, i);
      SortedHeadIsLeast(pending, RewardTimestamp);
      if queue != [] {
        var h := queue[0];
        SortedSuffix(stakes, StakeTimestamp, c);
        SortedHeadIsLeast(queue, StakeTimestamp);
        assert queue == [h] + queue[1..];
        WithKeyCons(h, queue[1..], StakeTimestamp, h.timestampInMs);
        if h.timestampInMs < r.timestampInMs {
          WithKeyBelowLeast(pending, RewardTimestamp, r.timestampInMs, h.timestampInMs);
          assert false;
        }
        WithKeyBelowLeast(queue, StakeTimestamp, h.timestampInMs, r.timestampInMs);
      }
      var later := rewards[i + 1..];
      forall t ensures |WithKey(queue, StakeTimestamp, t)| <= |WithKey(later, RewardTimestamp, t)| {
        WithKeyCons(r, later, RewardTimestamp, t);
      }
    }
  }

  lemma {:induction false} CoverKept(stakes: seq<StakeEvent>, rewards: seq<RewardEvent>, i: nat)
    requires SortedBy(stakes, StakeTimestamp) && SortedBy(rewards, RewardTimestamp) && i <= |rewards|
    requires RewardsCoverStakes(stakes, rewards)
    ensures RewardsCoverStakes(stakes[Consumed(stakes, rewards, i)..], rewards[i..])
  {
    if i == 0 {
      assert stakes[0..] == stakes && rewards[0..] == rewards;
    } else {
      CoverKept(stakes, rewards, i - 1);
      CoverStep(stakes, rewards, i - 1);
    }
  }

  /** Nothing covers a non-empty list of stake events once no reward event is left. */
  lemma NothingLeftToCover(queue: seq<StakeEvent>, none: seq<RewardEvent>)
    requires none == [] && RewardsCoverStakes(queue, none)
    ensures queue == []
  {
    if queue != [] {
      var t := queue[0].timestampInMs;
      assert queue == [queue[0]] + queue[1..];
      WithKeyCons(queue[0], queue[1..], StakeTimestamp, t);
    }
  }

  /** Sorting keeps, for every timestamp, the events that have it, so it keeps the cover. */
  lemma SortingKeepsCover(stakes: seq<StakeEvent>, rewards: seq<RewardEvent>)
    requires RewardsCoverStakes(stakes, rewards)
    ensures RewardsCoverStakes(SortStakeEvents(stakes), SortRewardEvents(rewards))
  {
    SortByKeyCorrect(stakes, StakeTimestamp);
    SortByKeyCorrect(rewards, RewardTimestamp);
    var ss, rs := SortStakeEvents(stakes), SortRewardEvents(rewards);
    forall t ensures |WithKey(ss, StakeTimestamp, t)| <= |WithKey(rs, RewardTimestamp, t)| {
      assert WithKey(ss, StakeTimestamp, t) == WithKey(stakes, StakeTimestamp, t);
      assert WithKey(rs, RewardTimestamp, t) == WithKey(rewards, RewardTimestamp, t);
    }
  }

  lemma SortsAreSorted(stakes: seq<StakeEvent>, rewards: seq<RewardEvent>)
    ensures SortedBy(SortStakeEvents(stakes), StakeTimestamp) && SortedBy(SortRewardEvents(rewards), RewardTimestamp)
  {
    SortByKeyCorrect(stakes, StakeTimestamp);
    SortByKeyCorrect(rewards, RewardTimestamp);
  }

  /**
   * The reward events are the longer list and cover the stake events: when no timestamp occurs more
   * often among the stake events than among the reward events, the loop over the sorted lists takes
   * every stake event off the queue.
   */
  lemma AllConsumedWhenRewardsCoverStakes(stakes: seq<StakeEvent>, rewards: seq<RewardEvent>)
    requires RewardsCoverStakes(stakes, rewards)
    ensures Consumed(SortStakeEvents(stakes), SortRewardEvents(rewards), |rewards|) == |stakes|
  {
    var ss, rs := SortStakeEvents(stakes), SortRewardEvents(rewards);
    SortsAreSorted(stakes, rewards);
    SortingKeepsCover(stakes, rewards);
    CoverKept(ss, rs, |rs|);
    var c := Consumed(ss, rs, |rs|);
    assert rs[|rs|..] == [];
    NothingLeftToCover(ss[c..], rs[|rs|..]);
    assert |ss[c..]| == |ss| - c;
  }
}
