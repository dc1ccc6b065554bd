/**
 * The sort-based (`_ws`) hot-items aggregator: the count aggregator of
 * module `Groupby`, fed in the order the event sharders produced its
 * shards.  Each input thread buffers its messages, sorts them by
 * (message id, window id), and processes the longest prefix whose front
 * matches the message id and window id it expects next.
 */
module GroupbyWs {
  import opened Bytes
  import opened Faults
  import opened Serialization
  import opened Topology
  import opened Sharding
  import opened Groupby
  import opened Sorting

  /**
   * The loop's bookkeeping.  `msgid` and `wid` are uninitialised locals in
   * the thread until the first sorted batch sets them.
   */
  datatype Expectation = Expectation(firstTime: bool, msgid: int, wid: int, processing: bool)

  function InitialExpectation(msgid0: int, wid0: int): Expectation {
    Expectation(true, msgid0, wid0, false)
  }

  /** An `int` of the header tail; a message too short for it has none to compare. */
  function BackInt(m: Message, offset: nat): int32 {
    var r := ReadBackInt(m, offset);
    if r.Ok? then r.value else 0
  }

  /** Sort key of a shard: (message id, window id), the last two tail fields. */
  function ShardKey(m: Message): Key {
    Key(BackInt(m, 0), BackInt(m, INT_SIZE))
  }

  /** The comparator reads two `int`s from the tail of each message. */
  const KEY_SIZE: nat := 2 * INT_SIZE

  // ---------------------------------------------------------------------
  // Expected window ids

  /**
   * The first window id at or after `minWid` that this rank owns:
   * `min_wid` shifted forward to the next id congruent to `rank`.
   */
  function FirstOwnedWid(d: Deployment, minWid: int): int
    requires d.Valid()
  {
    var startingRank := TruncMod(minWid, d.worldSize);
    if d.rank >= startingRank then minWid + (d.rank - startingRank)
    else minWid + d.worldSize - (startingRank - d.rank)
  }

  /** Two non-negative numbers with the same residue are at least `n` apart. */
  lemma ResidueGap(n: nat, a: int, b: int)
    requires n > 0 && 0 <= a < b && a % n == b % n
    ensures a + n <= b
  {
    var k := b / n - a / n;
    assert b - a == n * k;
    MulMono(n, 1, if k < 1 then 1 else k);
    if k < 1 {
      MulMono(n, k, 0);
    }
  }

  /** The expected window id of a fresh message id is owned by this rank and within one round of `min_wid`. */
  lemma FirstOwnedWidOwned(d: Deployment, minWid: int)
    requires d.Valid() && 0 <= minWid
    ensures var w := FirstOwnedWid(d, minWid);
      minWid <= w < minWid + d.worldSize && TargetRank(d, w) == d.rank
  {
    var n := d.worldSize;
    var w := FirstOwnedWid(d, minWid);
    TruncDivMod(minWid, n);
    var q := minWid / n;
    if d.rank >= minWid % n {
      assert w == n * q + d.rank;
      DivUnique(w, n, q, d.rank);
    } else {
      assert w == n * (q + 1) + d.rank;
      DivUnique(w, n, q + 1, d.rank);
    }
    TruncDivMod(w, n);
  }

  /**
   * The expected window id of a fresh message id is the smallest id not
   * below the message's `min_wid` that the sharder routes to this rank.
   */
  lemma FirstOwnedWidLeast(d: Deployment, minWid: int)
    requires d.Valid() && 0 <= minWid
    ensures forall w' :: minWid <= w' < FirstOwnedWid(d, minWid) ==> TargetRank(d, w') != d.rank
  {
    var w := FirstOwnedWid(d, minWid);
    FirstOwnedWidOwned(d, minWid);
    forall w' | minWid <= w' < w
      ensures TargetRank(d, w') != d.rank
    {
      OwnedApart(d, w', w);
    }
  }

  /** Two window ids of the same owner less than `worldSize` apart are equal. */
  lemma OwnedApart(d: Deployment, a: int, b: int)
    requires d.Valid() && 0 <= a < b < a + d.worldSize && TargetRank(d, b) == d.rank
    ensures TargetRank(d, a) != d.rank
  {
    TruncDivMod(a, d.worldSize);
    TruncDivMod(b, d.worldSize);
    if TargetRank(d, a) == d.rank {
      ResidueGap(d.worldSize, a, b);
    }
  }

  /** Stepping by `worldSize` keeps a window id with its owner. */
  lemma NextWidOwned(d: Deployment, w: int)
    requires d.Valid() && 0 <= w
    ensures TargetRank(d, w + d.worldSize) == TargetRank(d, w)
  {
    var n := d.worldSize;
    TruncDivMod(w, n);
    TruncDivMod(w + n, n);
    DivUnique(w + n, n, w / n + 1, w % n);
  }

  // ---------------------------------------------------------------------
  // The helpers of `streamProcess`

  /** `initExpectedMID`: the first message seen fixes the sharder this thread follows. */
  function InitExpectedMid(front: Message, e: Expectation): Result<Expectation> {
    if e.firstTime then
      var msgid :- ReadBackInt(front, 0);
      Ok(e.(firstTime := false, msgid := msgid))
    else Ok(e)
  }

  /** `initExpectedWID`: a fresh expected message id gets its first owned window id. */
  function InitExpectedWid(d: Deployment, front: Message, e: Expectation): Result<Expectation>
    requires d.Valid()
  {
    var msgid :- ReadBackInt(front, 0);
    if msgid == e.msgid && !e.processing then
      var minWid :- ReadBackInt(front, 3 * INT_SIZE);
      var _ :- ReadBackInt(front, 2 * INT_SIZE);
      Ok(e.(processing := true, wid := FirstOwnedWid(d, minWid)))
    else Ok(e)
  }

  /** `isMessageExpected`. */
  function IsExpected(m: Message, e: Expectation): Result<bool> {
    var msgid :- ReadBackInt(m, 0);
    var wid :- ReadBackInt(m, INT_SIZE);
    Ok(msgid == e.msgid && wid == e.wid)
  }

  /**
   * `updateExpectedValues`: the next owned window of the same message id
   * while it is within the message's `max_wid`, else the next message id
   * of the same sharder, whose first window is read from the next
   * buffered message when there is one.
   */
  function UpdateExpected(d: Deployment, current: Message, rest: seq<Message>, e: Expectation): Result<Expectation>
    requires d.Valid()
  {
    var maxWid :- ReadBackInt(current, 2 * INT_SIZE);
    var next := e.wid + d.worldSize;
    if next <= maxWid then Ok(e.(wid := next, processing := true))
    else
      var e' := e.(msgid := e.msgid + d.worldSize, processing := false);
      if rest != [] then InitExpectedWid(d, rest[0], e') else Ok(e')
  }

  /** What the inner loop leaves: aggregator, expectation, messages aggregated and left, reports. */
  datatype Consumed = Consumed(agg: CountState, e: Expectation, consumed: seq<Message>, rest: seq<Message>,
                               outs: seq<Outgoing>)

  /**
   * The inner loop: while the front message is the expected one, pop it,
   * aggregate it and update the expectation.
   */
  function Consume(d: Deployment, s: CountState, e: Expectation, ms: seq<Message>): Result<Consumed>
    requires d.Valid()
    decreases |ms|
  {
    if ms == [] then Ok(Consumed(s, e, [], [], []))
    else
      var expected :- IsExpected(ms[0], e);
      if !expected then Ok(Consumed(s, e, [], ms, []))
      else
        var _ :- ReadBackInt(ms[0], 3 * INT_SIZE);
        var p :- CountStep(d, s, ms[0]);
        var e' :- UpdateExpected(d, ms[0], ms[1..], e);
        var q :- Consume(d, p.0, e', ms[1..]);
        Ok(q.(consumed := [ms[0]] + q.consumed, outs := p.1 + q.outs))
  }

  /** The message id keeps to one sharder: it only ever grows by `worldSize`. */
  ghost predicate SameSharder(d: Deployment, a: int, b: int)
    requires d.Valid()
  {
    a <= b && (b - a) % d.worldSize == 0
  }

  lemma SameSharderTrans(d: Deployment, a: int, b: int, c: int)
    requires d.Valid() && SameSharder(d, a, b) && SameSharder(d, b, c)
    ensures SameSharder(d, a, c)
  {
    var n := d.worldSize;
    var k1 := (b - a) / n;
    var k2 := (c - b) / n;
    assert c - a == n * (k1 + k2);
    DivUnique(c - a, n, k1 + k2, 0);
  }

  lemma SameSharderRefl(d: Deployment, a: int)
    requires d.Valid()
    ensures SameSharder(d, a, a)
  {
    DivUnique(0, d.worldSize, 0, 0);
  }

  lemma UpdateSameSharder(d: Deployment, current: Message, rest: seq<Message>, e: Expectation)
    requires d.Valid() && UpdateExpected(d, current, rest, e).Ok?
    ensures SameSharder(d, e.msgid, UpdateExpected(d, current, rest, e).value.msgid)
  {
    SameSharderRefl(d, e.msgid);
    DivUnique(d.worldSize, d.worldSize, 1, 0);
  }

  /**
   * What one run of the inner loop did: it processed a prefix of `ms`
   * through the count aggregator, stopped at the first message it does
   * not expect, and did not leave the sharder it followed.
   */
  ghost predicate ConsumedPrefix(d: Deployment, s: CountState, e: Expectation, ms: seq<Message>, c: Consumed)
    requires d.Valid()
  {
    && c.consumed + c.rest == ms
    && CountRun(d, s, c.consumed) == Ok((c.agg, c.outs))
    && (c.rest != [] ==> IsExpected(c.rest[0], c.e) == Ok(false))
    && SameSharder(d, e.msgid, c.e.msgid)
  }

  /**
   * The inner loop processes a prefix of the sorted buffer through the
   * count aggregator, stops at the first message it does not expect,
   * and never leaves the sharder it follows.
   */
  lemma {:induction false} ConsumeSpec(d: Deployment, s: CountState, e: Expectation, ms: seq<Message>)
    requires d.Valid()
    ensures var r := Consume(d, s, e, ms);
      r.Ok? ==> ConsumedPrefix(d, s, e, ms, r.value)
    decreases |ms|
  {
    SameSharderRefl(d, e.msgid);
    var r := Consume(d, s, e, ms);
    if ms != [] && r.Ok? && IsExpected(ms[0], e).value {
      var p := CountStep(d, s, ms[0]).value;
      var e1 := UpdateExpected(d, ms[0], ms[1..], e).value;
      UpdateSameSharder(d, ms[0], ms[1..], e);
      ConsumeSpec(d, p.0, e1, ms[1..]);
      var q := Consume(d, p.0, e1, ms[1..]).value;
      assert r == Ok(q.(consumed := [ms[0]] + q.consumed, outs := p.1 + q.outs));
      ConsumedPrefixCons(d, s, e, ms, p, e1, q);
    } else if r.Ok? {
      assert r.value.consumed == [] && r.value.e == e && r.value.agg == s && r.value.outs == [];
    }
  }

  /** Putting the expected front message before a consumed prefix of the rest. */
  lemma ConsumedPrefixCons(d: Deployment, s: CountState, e: Expectation, ms: seq<Message>,
                           p: (CountState, seq<Outgoing>), e1: Expectation, q: Consumed)
    requires d.Valid() && ms != []
    requires CountStep(d, s, ms[0]) == Ok(p) && SameSharder(d, e.msgid, e1.msgid)
    requires ConsumedPrefix(d, p.0, e1, ms[1..], q)
    ensures ConsumedPrefix(d, s, e, ms, q.(consumed := [ms[0]] + q.consumed, outs := p.1 + q.outs))
  {
    SameSharderTrans(d, e.msgid, e1.msgid, q.e.msgid);
    CountRunFront(d, s, ms[0], q.consumed, p, (q.agg, q.outs));
    PrefixCons(ms, q.consumed, q.rest);
  }

  /**
   * A window id this rank owns once the first batch has set one; before
   * that, no message id is being processed.
   */
  ghost predicate OwnsExpected(d: Deployment, e: Expectation)
    requires d.Valid()
  {
    && (e.firstTime ==> !e.processing)
    && (!e.firstTime ==> 0 <= e.wid && TargetRank(d, e.wid) == d.rank)
  }

  /** The `min_wid` field of every shard is a window id, hence not negative. */
  predicate ShardHeaders(ms: seq<Message>) {
    forall i :: 0 <= i < |ms| ==> 0 <= BackInt(ms[i], 3 * INT_SIZE)
  }

  lemma InitWidOwns(d: Deployment, front: Message, e: Expectation)
    requires d.Valid() && !e.firstTime && OwnsExpected(d, e)
    requires 0 <= BackInt(front, 3 * INT_SIZE)
    requires InitExpectedWid(d, front, e).Ok?
    ensures OwnsExpected(d, InitExpectedWid(d, front, e).value)
    ensures InitExpectedWid(d, front, e).value.msgid == e.msgid
  {
    FirstOwnedWidOwned(d, BackInt(front, 3 * INT_SIZE));
  }

  lemma UpdateOwns(d: Deployment, current: Message, rest: seq<Message>, e: Expectation)
    requires d.Valid() && !e.firstTime && OwnsExpected(d, e) && ShardHeaders(rest)
    requires UpdateExpected(d, current, rest, e).Ok?
    ensures OwnsExpected(d, UpdateExpected(d, current, rest, e).value)
    ensures !UpdateExpected(d, current, rest, e).value.firstTime
  {
    NextWidOwned(d, e.wid);
    var e' := e.(msgid := e.msgid + d.worldSize, processing := false);
    if e.wid + d.worldSize > BackInt(current, 2 * INT_SIZE) && rest != [] {
      InitWidOwns(d, rest[0], e');
    }
  }

  lemma ShardHeadersTail(ms: seq<Message>)
    requires ms != [] && ShardHeaders(ms)
    ensures ShardHeaders(ms[1..])
  {
    forall i | 0 <= i < |ms| - 1 ensures 0 <= BackInt(ms[1..][i], 3 * INT_SIZE) {
      assert ms[1..][i] == ms[i + 1];
    }
  }

  /**
   * Every message the inner loop aggregates carries a window id this rank
   * owns: the expectation starts at an owned id and steps by `worldSize`.
   */
  lemma {:induction false} ConsumeOwned(d: Deployment, s: CountState, e: Expectation, ms: seq<Message>)
    requires d.Valid() && !e.firstTime && OwnsExpected(d, e) && ShardHeaders(ms)
    ensures var r := Consume(d, s, e, ms);
      r.Ok? ==>
        && !r.value.e.firstTime && OwnsExpected(d, r.value.e)
        && forall i :: 0 <= i < |r.value.consumed| ==> TargetRank(d, BackInt(r.value.consumed[i], INT_SIZE)) == d.rank
    decreases |ms|
  {
    var r := Consume(d, s, e, ms);
    if ms != [] && r.Ok? && IsExpected(ms[0], e).value {
      var p := CountStep(d, s, ms[0]).value;
      ShardHeadersTail(ms);
      UpdateOwns(d, ms[0], ms[1..], e);
      var e1 := UpdateExpected(d, ms[0], ms[1..], e).value;
      ConsumeOwned(d, p.0, e1, ms[1..]);
      var q := Consume(d, p.0, e1, ms[1..]).value;
      forall i | 0 <= i < |r.value.consumed|
        ensures TargetRank(d, BackInt(r.value.consumed[i], INT_SIZE)) == d.rank
      {
        if i > 0 {
          assert r.value.consumed[i] == q.consumed[i - 1];
        }
      }
    }
  }

  // ---------------------------------------------------------------------
  // One pass of the thread's loop

  /** A thread's state: the aggregator it shares, its expectation and its buffer. */
  datatype WsState = WsState(agg: CountState, e: Expectation, pending: seq<Message>)

  /** What one pass did: the new state, the messages it aggregated, the reports. */
  datatype Pass = Pass(state: WsState, consumed: seq<Message>, outs: seq<Outgoing>)

  /** `initExpectedMID` then `initExpectedWID` on the front of the sorted buffer. */
  function Prepare(d: Deployment, front: Message, e: Expectation): Result<Expectation>
    requires d.Valid()
  {
    var e1 :- InitExpectedMid(front, e);
    InitExpectedWid(d, front, e1)
  }

  /**
   * After the first batch the thread follows the sharder whose message it
   * saw first, and it expects a window this rank owns.
   */
  lemma PrepareOwns(d: Deployment, front: Message, e: Expectation)
    requires d.Valid() && OwnsExpected(d, e) && 0 <= BackInt(front, 3 * INT_SIZE)
    requires Prepare(d, front, e).Ok?
    ensures var e' := Prepare(d, front, e).value;
      && !e'.firstTime && OwnsExpected(d, e')
      && (e.firstTime ==> e'.msgid == BackInt(front, 0))
      && (!e.firstTime ==> e'.msgid == e.msgid)
  {
    var e1 := InitExpectedMid(front, e).value;
    if e.firstTime {
      FirstOwnedWidOwned(d, BackInt(front, 3 * INT_SIZE));
    } else {
      InitWidOwns(d, front, e1);
    }
  }

  /**
   * One pass of `streamProcess`: buffer the fetched messages, sort the
   * buffer, initialise the expectation from its front, and consume.
   */
  function StreamPass(d: Deployment, st: WsState, fetched: seq<Message>): Result<Pass>
    requires d.Valid()
  {
    var buffer := st.pending + fetched;
    if buffer == [] then Ok(Pass(st, [], []))
    else
      var sorted :- SortMessages(ShardKey, KEY_SIZE, buffer);
      assert |sorted| == |multiset(sorted)| == |buffer|;
      var e :- Prepare(d, sorted[0], st.e);
      var c :- Consume(d, st.agg, e, sorted);
      Ok(Pass(WsState(c.agg, c.e, c.rest), c.consumed, c.outs))
  }

  /**
   * A pass aggregates, in (message id, window id) order, a part of the
   * buffered messages and keeps the rest waiting, losing and duplicating
   * none; its reports are those of the count aggregator run on that part.
   */
  lemma StreamPassSpec(d: Deployment, st: WsState, fetched: seq<Message>)
    requires d.Valid()
    ensures var r := StreamPass(d, st, fetched);
      r.Ok? ==>
        && multiset(r.value.consumed) + multiset(r.value.state.pending) == multiset(st.pending + fetched)
        && SortedBy(ShardKey, r.value.consumed + r.value.state.pending)
        && CountRun(d, st.agg, r.value.consumed) == Ok((r.value.state.agg, r.value.outs))
  {
    var buffer := st.pending + fetched;
    var r := StreamPass(d, st, fetched);
    if buffer != [] && r.Ok? {
      var sorted := SortMessages(ShardKey, KEY_SIZE, buffer).value;
      var e := Prepare(d, sorted[0], st.e).value;
      ConsumeSpec(d, st.agg, e, sorted);
    }
  }

  /**
   * Every shard a pass aggregates belongs to a window this rank owns, and
   * the thread stays with the sharder whose message id it saw first.
   */
  lemma StreamPassOwned(d: Deployment, st: WsState, fetched: seq<Message>)
    requires d.Valid() && OwnsExpected(d, st.e) && ShardHeaders(st.pending + fetched)
    ensures var r := StreamPass(d, st, fetched);
      r.Ok? ==>
        && OwnsExpected(d, r.value.state.e)
        && (!st.e.firstTime ==> SameSharder(d, st.e.msgid, r.value.state.e.msgid))
        && forall i :: 0 <= i < |r.value.consumed| ==> TargetRank(d, BackInt(r.value.consumed[i], INT_SIZE)) == d.rank
  {
    var buffer := st.pending + fetched;
    var r := StreamPass(d, st, fetched);
    if buffer != [] && r.Ok? {
      var sorted := SortMessages(ShardKey, KEY_SIZE, buffer).value;
      assert ShardHeaders(sorted) by {
        forall i | 0 <= i < |sorted| ensures 0 <= BackInt(sorted[i], 3 * INT_SIZE) {
          assert sorted[i] in multiset(buffer);
        }
      }
      PrepareOwns(d, sorted[0], st.e);
      var e := Prepare(d, sorted[0], st.e).value;
      ConsumeSpec(d, st.agg, e, sorted);
      ConsumeOwned(d, st.agg, e, sorted);
    }
  }
}
