/**
 * The deployment every operator is parameterised by, and the constants of
 * the use cases that wire the operators together.
 */
module Topology {
  import opened Serialization

  /**
   * An operator instance runs on MPI process `rank` of `worldSize`; it sends
   * to the downstream instances through channels numbered
   * `operatorIndex * worldSize + targetRank`.
   */
  datatype Deployment = Deployment(rank: int, worldSize: int, nextCount: nat, perSecMsgCount: int) {
    predicate Valid() {
      0 < worldSize && 0 <= rank < worldSize && 0 < perSecMsgCount
    }
  }

  /** A message handed to the sender thread of `channel`. */
  datatype Outgoing = Outgoing(channel: int, msg: Message)

  /** Use case NQ5 (hot items): sliding windows of 10 s every 2 s. */
  const NQ5_WINDOW_DURATION: int := 10
  const NQ5_WINDOW_SHIFT: int := 2

  /**
   * How many messages one hot-items window receives in total:
   * `PER_SEC_MSG_COUNT * window_duration * worldSize`.
   */
  function HotItemsWindowMessages(d: Deployment): int {
    d.perSecMsgCount * NQ5_WINDOW_DURATION * d.worldSize
  }

  /** Use case NQ8 (new sellers) and its variants: tumbling windows of 2 s. */
  const NQ8_WINDOW_DURATION: int := 2

  /** Use case SCB and its variants. */
  const SCB_WINDOW_DURATION: int := 2
  const SCB_AGGREGATOR_RANK: int := 0
  const SCB_DELAY_PROBABILITY: int := 10
  const SCB_DELAY_MIN_DURATION: int := 1
  const SCB_DELAY_MAX_DURATION: int := 4
}

/**
 * Iteration order of a `std::map<int, _>`: ascending keys.
 */
module OrderedMaps {
  import opened Bytes

  lemma Pick(s: set<int>) returns (y: int)
    requires s != {}
    ensures y in s
  {
    if forall x :: x !in s {
      assert false;
    }
    y :| y in s;
  }

  lemma {:induction false} MinExists(s: set<int>)
    requires s != {}
    ensures exists k :: k in s && forall x :: x in s ==> k <= x
  {
    var y := Pick(s);
    var r := s - {y};
    if r == {} {
      forall x | x in s ensures y <= x {
        assert x in r || x == y;
      }
    } else {
      MinExists(r);
      var k :| k in r && forall x :: x in r ==> k <= x;
      var m := if y < k then y else k;
      assert forall x :: x in s ==> x == y || x in r;
      assert m in s && forall x :: x in s ==> m <= x;
    }
  }

  function Least(s: set<int32>): (k: int32)
    requires s != {}
    ensures k in s && forall x :: x in s ==> k <= x
  {
    MinExists(s);
    var k :| k in s && forall x :: x in s ==> k <= x;
    k
  }

  function SortedSet(s: set<int32>): (ks: seq<int32>)
    ensures |ks| == |s|
    ensures forall k :: k in ks <==> k in s
    ensures forall i :: 0 <= i < |ks| ==> ks[i] in s
    ensures forall i, j :: 0 <= i < j < |ks| ==> ks[i] < ks[j]
    decreases |s|
  {
    if s == {} then []
    else
      var k := Least(s);
      var rest := SortedSet(s - {k});
      SortedSetCons(s, k, rest);
      [k] + rest
  }

  /** The least key, then the ascending list of the others, lists the whole set in ascending order. */
  lemma SortedSetCons(s: set<int32>, k: int32, rest: seq<int32>)
    requires k in s && forall x :: x in s ==> k <= x
    requires |rest| == |s - {k}|
    requires forall x :: x in rest <==> x in s - {k}
    requires forall i, j :: 0 <= i < j < |rest| ==> rest[i] < rest[j]
    ensures |[k] + rest| == |s|
    ensures forall x :: x in [k] + rest <==> x in s
    ensures forall i :: 0 <= i < |[k] + rest| ==> ([k] + rest)[i] in s
    ensures forall i, j :: 0 <= i < j < |[k] + rest| ==> ([k] + rest)[i] < ([k] + rest)[j]
  {
    assert forall i :: 0 <= i < |rest| ==> rest[i] in rest;
    forall i, j | 0 <= i < j < |[k] + rest| ensures ([k] + rest)[i] < ([k] + rest)[j] {
      assert ([k] + rest)[j] == rest[j - 1];
      if i > 0 {
        assert ([k] + rest)[i] == rest[i - 1];
      } else {
        assert rest[j - 1] in s - {k};
      }
    }
  }

  /** Updating or erasing key `k` leaves the rest of a map alone. */
  lemma RemoveUpdated<K, V>(m: map<K, V>, k: K, v: V)
    ensures m[k := v] - {k} == m - {k}
    ensures (m - {k}) - {k} == m - {k}
  {
  }

  /** The keys of `m` in the order a `std::map` iterator visits them. */
  function SortedKeys<V>(m: map<int32, V>): (ks: seq<int32>)
    ensures |ks| == |m|
    ensures forall k :: k in ks <==> k in m
    ensures forall i :: 0 <= i < |ks| ==> ks[i] in m
    ensures forall i, j :: 0 <= i < j < |ks| ==> ks[i] < ks[j]
  {
    SortedSet(m.Keys)
  }
}
