/**
 * The per-rank aggregator of the hot-items query (`GroupbyAuction`): it
 * counts the bids of every auction per sliding window and, once a window
 * is complete, reports the counts to the collector on rank 0.
 *
 * Two completeness protocols close a window:
 *  - global count: every sharded message counts one towards the window's
 *    static total `PER_SEC_MSG_COUNT * window_duration * worldSize`;
 *  - flow wrapping: every message carries a wrapper unit whose numerator
 *    is added to the window's tag, and the window closes when the tag
 *    equals the unit's denominator.
 */
module Groupby {
  import opened Bytes
  import opened Faults
  import opened Serialization
  import opened Codec
  import opened Records
  import opened Topology
  import opened OrderedMaps
  import opened Sharding

  /** `windows[wid]`: the number of bids received per auction id. */
  type AuctionBids = map<int32, nat>

  /** `windows[wid][id]` of a `std::map`: an absent auction has no bid. */
  function BidsOf(t: AuctionBids, id: int32): nat {
    if id in t then t[id] else 0
  }

  /** An absent window has no bid yet. */
  function WindowOf(windows: map<int32, AuctionBids>, w: int32): AuctionBids {
    if w in windows then windows[w] else map[]
  }

  /** An absent completeness entry reads as 0. */
  function Received(c: map<int32, int>, w: int32): int {
    if w in c then c[w] else 0
  }

  /** How many bids of `bids` are for auction `id`. */
  function Occurrences(bids: seq<Bid>, id: int32): nat {
    if bids == [] then 0
    else Occurrences(bids[..|bids| - 1], id) + (if bids[|bids| - 1].auction_id == id then 1 else 0)
  }

  /** `windows[wid][bid.auction_id]++` for every bid in turn. */
  function Tally(t: AuctionBids, bids: seq<Bid>): AuctionBids {
    if bids == [] then t
    else
      var u := Tally(t, bids[..|bids| - 1]);
      var id := bids[|bids| - 1].auction_id;
      u[id := BidsOf(u, id) + 1]
  }

  /**
   * Counting adds, per auction, exactly the number of its bids, and an
   * auction has an entry iff it had one or received a bid.
   */
  lemma {:induction false} TallySpec(t: AuctionBids, bids: seq<Bid>)
    ensures forall id :: BidsOf(Tally(t, bids), id) == BidsOf(t, id) + Occurrences(bids, id)
    ensures forall id :: id in Tally(t, bids) <==> id in t || 0 < Occurrences(bids, id)
  {
    if bids != [] {
      TallySpec(t, bids[..|bids| - 1]);
    }
  }

  // ---------------------------------------------------------------------
  // The report of a window: (auction id, count) pairs in ascending id

  /** The pairs `send(wid)` writes, in `std::map` order; `size_t` counts wrap modulo 2^64. */
  function Report(t: AuctionBids): (pairs: seq<AuctionCount>)
    ensures |pairs| == |t|
  {
    var ids := SortedKeys(t);
    seq(|ids|, k requires 0 <= k < |ids| => AuctionCount(ids[k], t[ids[k]] % TWO64))
  }

  /**
   * `pairs` reports `t`: one pair per auction of the window, in strictly
   * ascending auction id, each with the auction's count modulo 2^64.
   */
  ghost predicate Reports(pairs: seq<AuctionCount>, t: AuctionBids) {
    && (forall k, l :: 0 <= k < l < |pairs| ==> pairs[k].auction_id < pairs[l].auction_id)
    && (forall k :: 0 <= k < |pairs| ==> pairs[k].auction_id in t && pairs[k].count == t[pairs[k].auction_id] % TWO64)
    && (forall id :: id in t ==> exists k :: 0 <= k < |pairs| && pairs[k].auction_id == id)
  }

  lemma ReportReports(t: AuctionBids)
    ensures Reports(Report(t), t)
  {
    var ids := SortedKeys(t);
    var pairs := Report(t);
    assert forall k :: 0 <= k < |pairs| ==> pairs[k] == AuctionCount(ids[k], t[ids[k]] % TWO64);
    PairsReport(t, ids, pairs);
  }

  /** One pair per key of an ascending key list covering `t` reports `t`. */
  lemma PairsReport(t: AuctionBids, ids: seq<int32>, pairs: seq<AuctionCount>)
    requires |pairs| == |ids|
    requires forall k :: 0 <= k < |ids| ==> ids[k] in t
    requires forall id :: id in t ==> id in ids
    requires forall i, j :: 0 <= i < j < |ids| ==> ids[i] < ids[j]
    requires forall k :: 0 <= k < |pairs| ==> pairs[k] == AuctionCount(ids[k], t[ids[k]] % TWO64)
    ensures Reports(pairs, t)
  {
    forall k, l | 0 <= k < l < |pairs| ensures pairs[k].auction_id < pairs[l].auction_id {
      assert pairs[k].auction_id == ids[k] && pairs[l].auction_id == ids[l];
    }
    forall id | id in t
      ensures exists k :: 0 <= k < |pairs| && pairs[k].auction_id == id
    {
      var k :| 0 <= k < |ids| && ids[k] == id;
      assert pairs[k].auction_id == id;
    }
  }

  /**
   * `send(wid)`: a message sized for the pairs plus `tail`, the pairs
   * wrapped in order, then `tail` (the window id, or a wrapper unit).
   */
  function WrapReport(t: AuctionBids, tail: seq<uint8>): Result<Message> {
    var m0 := NewMessage(AUCTION_COUNT_SIZE * |t| + |tail|);
    var m1 :- WrapArray(EncodeAuctionCount, Report(t), m0);
    Wrap(tail, m1)
  }

  /** The report always fits: the message is full and holds the pairs then `tail`. */
  lemma WrapReportExact(t: AuctionBids, tail: seq<uint8>)
    ensures WrapReport(t, tail).Ok?
    ensures WrapReport(t, tail).value.bytes == Concat(EncodeAuctionCount, Report(t)) + tail
    ensures WrapReport(t, tail).value.capacity == WrapReport(t, tail).value.Size()
  {
    var pairs := Report(t);
    assert |pairs| == |t|;
    WrapPairsExact(pairs, tail);
    var m0 := NewMessage(AUCTION_COUNT_SIZE * |pairs| + |tail|);
    var m1 := WrapArray(EncodeAuctionCount, pairs, m0).value;
    assert WrapReport(t, tail) == Wrap(tail, m1);
  }

  /** Pairs wrapped into a message sized for them and `tail`, then `tail`, fill it exactly. */
  lemma WrapPairsExact(pairs: seq<AuctionCount>, tail: seq<uint8>)
    ensures var m0 := NewMessage(AUCTION_COUNT_SIZE * |pairs| + |tail|);
      && WrapArray(EncodeAuctionCount, pairs, m0).Ok?
      && Wrap(tail, WrapArray(EncodeAuctionCount, pairs, m0).value)
         == Ok(Message(m0.capacity, Concat(EncodeAuctionCount, pairs) + tail))
      && |Concat(EncodeAuctionCount, pairs) + tail| == m0.capacity
  {
    AuctionCountCodec();
    var body := Concat(EncodeAuctionCount, pairs);
    var m0 := NewMessage(AUCTION_COUNT_SIZE * |pairs| + |tail|);
    ConcatLength(EncodeAuctionCount, DecodeAuctionCount, AUCTION_COUNT_SIZE, pairs);
    WrapArraySpec(EncodeAuctionCount, pairs, m0);
    assert m0.bytes + body == body;
    var m1 := Message(m0.capacity, body);
    assert WrapArray(EncodeAuctionCount, pairs, m0) == Ok(m1);
  }

  /** The count aggregator's report of window `wid`: pairs, then `wid`. */
  function CountsMessage(wid: int32, t: AuctionBids): (m: Message)
    ensures m.Wf()
  {
    WrapReportExact(t, IntField(wid));
    WrapReport(t, IntField(wid)).value
  }

  /** How the collector reads a report: the tail `int`, then the pairs before it. */
  function ParseReport(m: Message): (r: Result<(int32, seq<AuctionCount>)>)
    ensures r.Err? <==> m.Size() < INT_SIZE
  {
    var p :- UnwrapInt(m);
    Ok((p.0, DecodeArray(DecodeAuctionCount, AUCTION_COUNT_SIZE, p.1.bytes)))
  }

  /** The collector reads back the window id and exactly the window's pairs. */
  lemma ParseCountsMessage(wid: int32, t: AuctionBids)
    ensures ParseReport(CountsMessage(wid, t)) == Ok((wid, Report(t)))
    ensures Reports(Report(t), t)
  {
    WrapReportExact(t, IntField(wid));
    AuctionCountCodec();
    DecodeConcat(EncodeAuctionCount, DecodeAuctionCount, AUCTION_COUNT_SIZE, Report(t));
    var m := CountsMessage(wid, t);
    var p := Unwrap(INT_SIZE, m).value;
    assert p.1.bytes == Concat(EncodeAuctionCount, Report(t));
    Int32RoundTrip(wid);
    ReportReports(t);
  }

  // ---------------------------------------------------------------------
  // Global-count protocol

  datatype CountState = CountState(windows: map<int32, AuctionBids>, completeness: map<int32, int>)

  const INITIAL_COUNT: CountState := CountState(map[], map[])

  /**
   * `processInputMessage` of the count aggregator.  The window id is the
   * second `int` from the tail and the bids are the
   * `(size - 4 * sizeof(int)) / sizeof(Bid)` records at the front; below
   * 16 bytes the unsigned bid count wraps around and the first
   * `read_front` throws.
   */
  function CountStep(d: Deployment, s: CountState, m: Message): (r: Result<(CountState, seq<Outgoing>)>)
    requires d.Valid()
    ensures r.Err? <==> m.Size() < SHARD_HEADER_SIZE
    ensures r.Err? ==> r.fault == Underflow(m.Size(), if m.Size() < 2 * INT_SIZE then 2 * INT_SIZE else BID_SIZE)
    ensures r.Ok? ==> ParseShard(m).Ok?
    ensures r.Ok? ==>
              var v := ParseShard(m).value;
              var (s', outs) := r.value;
              && (outs != [] <==> Received(s.completeness, v.wid) + 1 == HotItemsWindowMessages(d))
              && s'.windows - {v.wid} == s.windows - {v.wid}
              && s'.completeness - {v.wid} == s.completeness - {v.wid}
              && (outs != [] ==>
                    && v.wid !in s'.windows && v.wid !in s'.completeness
                    && outs == [Outgoing(0, CountsMessage(v.wid, Tally(WindowOf(s.windows, v.wid), v.bids)))])
              && (outs == [] ==>
                    && v.wid in s'.completeness
                    && s'.completeness[v.wid] == Received(s.completeness, v.wid) + 1
                    && forall id :: BidsOf(WindowOf(s'.windows, v.wid), id)
                                    == BidsOf(WindowOf(s.windows, v.wid), id) + Occurrences(v.bids, id))
  {
    if m.Size() < 2 * INT_SIZE then Err(Underflow(m.Size(), 2 * INT_SIZE))
    else if m.Size() < SHARD_HEADER_SIZE then Err(Underflow(m.Size(), BID_SIZE))
    else
      var v := ParseShard(m).value;
      var t := Tally(WindowOf(s.windows, v.wid), v.bids);
      TallySpec(WindowOf(s.windows, v.wid), v.bids);
      var windows := if v.wid in s.windows || v.bids != [] then s.windows[v.wid := t] else s.windows;
      var count := Received(s.completeness, v.wid) + 1;
      RemoveUpdated(s.windows, v.wid, t);
      RemoveUpdated(s.completeness, v.wid, count);
      if count == HotItemsWindowMessages(d) then
        Ok((CountState(windows - {v.wid}, s.completeness - {v.wid}), [Outgoing(0, CountsMessage(v.wid, t))]))
      else
        Ok((CountState(windows, s.completeness[v.wid := count]), []))
  }

  /** Between messages every open window has received at least one and fewer than all of its messages. */
  ghost predicate CountInv(d: Deployment, s: CountState) {
    forall w :: w in s.completeness ==> 1 <= s.completeness[w] < HotItemsWindowMessages(d)
  }

  lemma CountStepKeepsInv(d: Deployment, s: CountState, m: Message)
    requires d.Valid() && CountInv(d, s)
    requires CountStep(d, s, m).Ok?
    ensures CountInv(d, CountStep(d, s, m).value.0)
  {
    var v := ParseShard(m).value;
    var s' := CountStep(d, s, m).value.0;
    forall w | w in s'.completeness
      ensures 1 <= s'.completeness[w] < HotItemsWindowMessages(d)
    {
      if w != v.wid {
        assert w in s'.completeness - {v.wid};
      }
    }
  }

  /** The messages of a list processed one after the other, with every report sent. */
  function CountRun(d: Deployment, s: CountState, ms: seq<Message>): Result<(CountState, seq<Outgoing>)>
    requires d.Valid()
  {
    if ms == [] then Ok((s, []))
    else
      var p :- CountRun(d, s, ms[..|ms| - 1]);
      var q :- CountStep(d, p.0, ms[|ms| - 1]);
      Ok((q.0, p.1 + q.1))
  }

  /** Processing a list is processing its head, then the rest. */
  lemma {:induction false} CountRunCons(d: Deployment, s: CountState, m: Message, ms: seq<Message>)
    requires d.Valid()
    ensures CountRun(d, s, [m] + ms) ==
              (var p :- CountStep(d, s, m);
               var q :- CountRun(d, p.0, ms);
               Ok((q.0, p.1 + q.1)))
  {
    if ms == [] {
      assert ([m] + ms)[..0] == [];
      if CountStep(d, s, m).Ok? {
        var p := CountStep(d, s, m).value;
        AppendEmpty(p.1);
      }
    } else {
      var init := ms[..|ms| - 1];
      var last := ms[|ms| - 1];
      assert ([m] + ms)[..|[m] + ms| - 1] == [m] + init && ([m] + ms)[|[m] + ms| - 1] == last;
      CountRunCons(d, s, m, init);
      if CountStep(d, s, m).Ok? {
        var p := CountStep(d, s, m).value;
        if CountRun(d, p.0, init).Ok? {
          var q := CountRun(d, p.0, init).value;
          assert CountRun(d, s, [m] + init) == Ok((q.0, p.1 + q.1));
          if CountStep(d, q.0, last).Ok? {
            var z := CountStep(d, q.0, last).value;
            assert CountRun(d, p.0, ms) == Ok((z.0, q.1 + z.1));
            assert CountRun(d, s, [m] + ms) == Ok((z.0, (p.1 + q.1) + z.1));
            AppendAssoc(p.1, q.1, z.1);
          }
        }
      }
    }
  }

  /** A run whose head step and tail run both succeed. */
  lemma CountRunFront(d: Deployment, s: CountState, m: Message, ms: seq<Message>,
                      p: (CountState, seq<Outgoing>), q: (CountState, seq<Outgoing>))
    requires d.Valid() && CountStep(d, s, m) == Ok(p) && CountRun(d, p.0, ms) == Ok(q)
    ensures CountRun(d, s, [m] + ms) == Ok((q.0, p.1 + q.1))
  {
    CountRunCons(d, s, m, ms);
  }

  /** Splitting the tail of a list splits the list after its head. */
  lemma PrefixCons<T>(ms: seq<T>, front: seq<T>, back: seq<T>)
    requires ms != [] && front + back == ms[1..]
    ensures ([ms[0]] + front) + back == ms
  {
    assert ms == [ms[0]] + ms[1..];
  }

  lemma AppendAssoc<T>(a: seq<T>, b: seq<T>, c: seq<T>)
    ensures (a + b) + c == a + (b + c)
  {
  }

  lemma AppendEmpty<T>(a: seq<T>)
    ensures [] + a == a + [] == a
  {
  }

  /** Every message of `ms` is a well-formed shard of window `w`. */
  ghost predicate ShardsOfWindow(ms: seq<Message>, w: int32) {
    forall i :: 0 <= i < |ms| ==> SHARD_HEADER_SIZE <= ms[i].Size() && ParseShard(ms[i]).value.wid == w
  }

  /**
   * A window is reported exactly once per fill: starting with no message
   * counted for `w`, the first `n` shards of `w` up to the total produce
   * no report before the last one, and the `n`-th produces one exactly
   * when `n` is the total, after which `w` is forgotten.
   */
  lemma {:induction false} CountFill(d: Deployment, s: CountState, ms: seq<Message>, w: int32)
    requires d.Valid() && w !in s.completeness
    requires ShardsOfWindow(ms, w) && |ms| <= HotItemsWindowMessages(d)
    ensures CountRun(d, s, ms).Ok?
    ensures var (s', outs) := CountRun(d, s, ms).value;
      && (|outs| == 1 <==> |ms| == HotItemsWindowMessages(d))
      && (|ms| < HotItemsWindowMessages(d) ==> outs == [] && Received(s'.completeness, w) == |ms|)
      && (|ms| == HotItemsWindowMessages(d) ==> w !in s'.completeness && w !in s'.windows)
  {
    if ms != [] {
      var init := ms[..|ms| - 1];
      assert ShardsOfWindow(init, w) by {
        forall i | 0 <= i < |init| ensures SHARD_HEADER_SIZE <= init[i].Size() && ParseShard(init[i]).value.wid == w {
          assert init[i] == ms[i];
        }
      }
      CountFill(d, s, init, w);
      var p := CountRun(d, s, init).value;
      var last := ms[|ms| - 1];
      assert SHARD_HEADER_SIZE <= last.Size() && ParseShard(last).value.wid == w;
      var q := CountStep(d, p.0, last);
      assert q.Ok?;
      assert Received(p.0.completeness, w) == |init|;
    }
  }

  // ---------------------------------------------------------------------
  // Flow-wrapping protocol

  datatype FwGroupState = FwGroupState(windows: map<int32, AuctionBids>, window_ends: map<int32, int32>,
                                       completeness: map<int32, int>)

  const INITIAL_FW_GROUP: FwGroupState := FwGroupState(map[], map[], map[])

  /** `window_ends[wid]` of a `std::map`: created at 0. */
  function EndOf(ends: map<int32, int32>, w: int32): int32 {
    if w in ends then ends[w] else 0
  }

  /** `if (bid.event_time > window_ends[wid]) window_ends[wid] = bid.event_time` for every bid in turn. */
  function LatestTime(end: int32, bids: seq<Bid>): int32 {
    if bids == [] then end
    else
      var e := LatestTime(end, bids[..|bids| - 1]);
      var t := bids[|bids| - 1].event_time;
      if t > e then t else e
  }

  /** `v` is the greatest of `start` and the bids' event times. */
  ghost predicate IsLatest(v: int, start: int, bids: seq<Bid>) {
    && start <= v
    && (forall i :: 0 <= i < |bids| ==> bids[i].event_time <= v)
    && (v == start || exists i :: 0 <= i < |bids| && v == bids[i].event_time)
  }

  lemma {:induction false} LatestTimeSpec(end: int32, bids: seq<Bid>)
    ensures IsLatest(LatestTime(end, bids), end, bids)
  {
    if bids != [] {
      var i := |bids| - 1;
      LatestTimeSpec(end, bids[..i]);
      var e := LatestTime(end, bids[..i]);
      assert forall k :: 0 <= k < i ==> bids[..i][k] == bids[k];
      if e != end {
        var k :| 0 <= k < i && e == bids[..i][k].event_time;
        assert bids[k] == bids[..i][k];
      }
    }
  }

  /**
   * `update(wid, message)`: count every bid for its auction and raise the
   * window's end time to the latest event time; a message without bids
   * changes nothing.
   */
  function FwUpdate(s: FwGroupState, wid: int32, bids: seq<Bid>): (s': FwGroupState)
    ensures s'.completeness == s.completeness
    ensures s'.windows - {wid} == s.windows - {wid}
    ensures s'.window_ends - {wid} == s.window_ends - {wid}
    ensures forall id :: BidsOf(WindowOf(s'.windows, wid), id) == BidsOf(WindowOf(s.windows, wid), id) + Occurrences(bids, id)
    ensures bids != [] ==> wid in s'.window_ends && IsLatest(s'.window_ends[wid], EndOf(s.window_ends, wid), bids)
    ensures bids == [] ==> s' == s
  {
    if bids == [] then s
    else
      var t := Tally(WindowOf(s.windows, wid), bids);
      var e := LatestTime(EndOf(s.window_ends, wid), bids);
      TallySpec(WindowOf(s.windows, wid), bids);
      LatestTimeSpec(EndOf(s.window_ends, wid), bids);
      RemoveUpdated(s.windows, wid, t);
      RemoveUpdated(s.window_ends, wid, e);
      s.(windows := s.windows[wid := t], window_ends := s.window_ends[wid := e])
  }

  /**
   * The flow-wrapping report of window `wid`: pairs, then a wrapper unit
   * whose window is `wid`.  The unit's numerator and denominator are left
   * uninitialised by the aggregator; `unset` stands for whatever they hold.
   */
  function FwCountsMessage(wid: int32, t: AuctionBids, unset: (int32, int32)): (m: Message)
    ensures m.Wf()
  {
    WrapReportExact(t, EncodeWrapperUnit(WrapperUnit(wid, unset.0, unset.1)));
    WrapReport(t, EncodeWrapperUnit(WrapperUnit(wid, unset.0, unset.1))).value
  }

  /** How a flow-wrapping consumer reads a report: the unit at the tail, the pairs before it. */
  function ParseFwReport(m: Message): (r: Result<(WrapperUnit, seq<AuctionCount>)>)
    ensures r.Err? <==> m.Size() < WRAPPER_UNIT_SIZE
  {
    var p :- Unwrap(WRAPPER_UNIT_SIZE, m);
    Ok((DecodeWrapperUnit(p.0), DecodeArray(DecodeAuctionCount, AUCTION_COUNT_SIZE, p.1.bytes)))
  }

  lemma ParseFwCountsMessage(wid: int32, t: AuctionBids, unset: (int32, int32))
    ensures ParseFwReport(FwCountsMessage(wid, t, unset)) == Ok((WrapperUnit(wid, unset.0, unset.1), Report(t)))
  {
    var u := WrapperUnit(wid, unset.0, unset.1);
    WrapReportExact(t, EncodeWrapperUnit(u));
    AuctionCountCodec();
    WrapperUnitCodec();
    DecodeConcat(EncodeAuctionCount, DecodeAuctionCount, AUCTION_COUNT_SIZE, Report(t));
    var m := FwCountsMessage(wid, t, unset);
    var p := Unwrap(WRAPPER_UNIT_SIZE, m).value;
    assert p.1.bytes == Concat(EncodeAuctionCount, Report(t));
  }

  /**
   * The per-message step of the flow-wrapping aggregator: unwrap the unit,
   * update the window it names, add its numerator to the window's tag, and
   * report and forget the window when the tag equals the denominator.
   */
  function FwGroupStep(s: FwGroupState, m: Message, unset: (int32, int32)): (r: Result<(FwGroupState, seq<Outgoing>)>)
    ensures r.Err? <==> m.Size() < WRAPPER_UNIT_SIZE
    ensures r.Err? ==> r.fault == Underflow(m.Size(), WRAPPER_UNIT_SIZE)
    ensures r.Ok? ==> ParseFwShard(m).Ok?
    ensures r.Ok? ==>
              var (bids, unit) := ParseFwShard(m).value;
              var wid := unit.window_start_time;
              var tag := Received(s.completeness, wid) + unit.completeness_tag_numerator;
              var (s', outs) := r.value;
              && (outs != [] <==> tag == unit.completeness_tag_denominator)
              && s'.windows - {wid} == s.windows - {wid}
              && s'.window_ends - {wid} == s.window_ends - {wid}
              && s'.completeness - {wid} == s.completeness - {wid}
              && (outs != [] ==>
                    && wid !in s'.windows && wid !in s'.window_ends && wid !in s'.completeness
                    && outs == [Outgoing(0, FwCountsMessage(wid, Tally(WindowOf(s.windows, wid), bids), unset))])
              && (outs == [] ==>
                    && wid in s'.completeness && s'.completeness[wid] == tag
                    && (forall id :: BidsOf(WindowOf(s'.windows, wid), id)
                                     == BidsOf(WindowOf(s.windows, wid), id) + Occurrences(bids, id))
                    && (bids != [] ==> wid in s'.window_ends && IsLatest(s'.window_ends[wid], EndOf(s.window_ends, wid), bids)))
  {
    var p :- ParseFwShard(m);
    var (bids, unit) := p;
    var wid := unit.window_start_time;
    var u := FwUpdate(s, wid, bids);
    assert WindowOf(u.windows, wid) == Tally(WindowOf(s.windows, wid), bids);
    var tag := Received(s.completeness, wid) + unit.completeness_tag_numerator;
    RemoveUpdated(s.completeness, wid, tag);
    RemoveUpdated(u.windows, wid, map[]);
    RemoveUpdated(u.window_ends, wid, 0);
    if tag == unit.completeness_tag_denominator then
      var out := Outgoing(0, FwCountsMessage(wid, WindowOf(u.windows, wid), unset));
      Ok((FwGroupState(u.windows - {wid}, u.window_ends - {wid}, s.completeness - {wid}), [out]))
    else
      Ok((u.(completeness := s.completeness[wid := tag]), []))
  }
}
