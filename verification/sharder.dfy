/**
 * The event sharder of the hot-items query (NEXMark Q5) in its three
 * flavours: global count, sort (`_ws`) and flow wrapping (`_fw`).
 *
 * A bid with event time `t` belongs to every sliding window whose id lies
 * in `[MinWid(t), MaxWid(t)]`; window `w` covers the instants
 * `[w * shift, w * shift + (duration / shift) * shift)`.  The sharder
 * replicates each bid into the shard of each of its windows and sends the
 * shard of window `w` to rank `w % worldSize`.
 */
module Sharding {
  import opened Bytes
  import opened Faults
  import opened Serialization
  import opened Codec
  import opened Records
  import opened Topology
  import opened OrderedMaps

  /** Sliding-window parameters, in seconds. */
  datatype WindowSpec = WindowSpec(duration: int, shift: int) {
    predicate Valid() {
      0 < shift <= duration
    }

    /** How many windows contain a given instant. */
    function Span(): int
      requires Valid()
    {
      Quot(duration, shift)
    }
  }

  const NQ5: WindowSpec := WindowSpec(NQ5_WINDOW_DURATION, NQ5_WINDOW_SHIFT)

  function Min(a: int, b: int): int {
    if a <= b then a else b
  }

  /** The last window containing `t`: `event_time / window_shift`. */
  function MaxWid(spec: WindowSpec, t: int32): int
    requires spec.Valid()
  {
    TruncDiv(t, spec.shift)
  }

  /** The first window containing `t`, never below window 0. */
  function MinWid(spec: WindowSpec, t: int32): int
    requires spec.Valid()
  {
    MaxWid(spec, t) - Min(MaxWid(spec, t), spec.Span() - 1)
  }

  predicate Covers(spec: WindowSpec, t: int32, w: int)
    requires spec.Valid()
  {
    MinWid(spec, t) <= w <= MaxWid(spec, t)
  }

  /** `a * s <= t` exactly when `a <= t / s`. */
  lemma MulLeIff(a: int, s: int, t: int)
    requires 0 < s && 0 <= t
    ensures a * s <= t <==> a <= t / s
  {
    var q := t / s;
    assert t == s * q + t % s;
    if a <= q {
      MulMono(s, a, q);
    } else {
      MulMono(s, q + 1, a);
    }
  }

  /**
   * The window range of a non-negative event time is non-empty, starts at
   * window 0 or later and holds at most `duration / shift` ids.
   */
  lemma WindowRange(spec: WindowSpec, t: int32)
    requires spec.Valid() && 0 <= t
    ensures 0 <= MinWid(spec, t) <= MaxWid(spec, t)
    ensures MaxWid(spec, t) - MinWid(spec, t) + 1 <= spec.Span()
  {
    QuotRem(t, spec.shift);
    var q := t / spec.shift;
    var k := spec.Span();
    assert 0 <= q && 0 <= k;
    assert MaxWid(spec, t) == q;
    assert MinWid(spec, t) == q - Min(q, k - 1);
  }

  /**
   * Window `w` holds the instant `t` exactly when `t` lies in
   * `[w * shift, (w + duration / shift) * shift)`.
   */
  lemma WindowMembership(spec: WindowSpec, t: int32, w: int)
    requires spec.Valid() && 0 <= t
    ensures Covers(spec, t, w) <==> 0 <= w && w * spec.shift <= t < (w + spec.Span()) * spec.shift
  {
    QuotRem(t, spec.shift);
    var q := t / spec.shift;
    var k := spec.Span();
    assert MaxWid(spec, t) == q;
    assert MinWid(spec, t) == q - Min(q, k - 1);
    IntervalArith(spec.shift, k, t, w);
  }

  lemma IntervalArith(s: int, k: int, t: int, w: int)
    requires 0 < s && 0 <= t && 0 <= k
    ensures (t / s - Min(t / s, k - 1) <= w <= t / s) <==> 0 <= w && w * s <= t < (w + k) * s
  {
    MulLeIff(w, s, t);
    MulLeIff(w + k, s, t);
  }

  /**
   * The window ids of a time above `-shift` are `int`s from 0 up to the
   * time itself, or up to 0 for a negative time.
   */
  lemma WindowIdsAreInts(spec: WindowSpec, t: int32)
    requires spec.Valid() && -spec.shift < t
    ensures 0 <= MinWid(spec, t) <= MaxWid(spec, t) <= (if t < 0 then 0 else t)
  {
    if t >= 0 {
      WindowRange(spec, t);
      var q := Quot(t, spec.shift);
      QuotRem(t, spec.shift);
      MulMono(q, 1, spec.shift);
    } else {
      NegativeTimes(spec, t);
    }
  }

  /**
   * `event_time / window_shift` truncates toward zero: a negative time
   * above `-shift` lands in window 0 alone, and a time of `-shift` or less
   * gets a negative last window id, below the first one, 0, so that the
   * `size_t` loop from the first to the last never ends.
   */
  lemma NegativeTimes(spec: WindowSpec, t: int32)
    requires spec.Valid() && t < 0
    ensures -spec.shift < t ==> MinWid(spec, t) == 0 == MaxWid(spec, t)
    ensures t <= -spec.shift ==> MaxWid(spec, t) < 0 == MinWid(spec, t)
  {
    TruncDivMod(t, spec.shift);
    QuotRem(spec.duration, spec.shift);
  }

  /** Whatever the event time, the windows that hold it are `int`s from 0 on. */
  lemma CoveredWindowIsInt(spec: WindowSpec, t: int32, w: int)
    requires spec.Valid() && Covers(spec, t, w)
    ensures 0 <= w <= INT32_MAX
  {
    if t >= 0 {
      WindowIdsAreInts(spec, t);
    } else {
      assert MaxWid(spec, t) <= 0 <= spec.Span() - 1;
    }
  }

  // ---------------------------------------------------------------------
  // Sharding one message

  /**
   * Every event time is above `-shift`, the times for which the source's
   * loop over a bid's window ids ends (see `NegativeTimes`).
   */
  predicate EndingRanges(spec: WindowSpec, bids: seq<Bid>) {
    forall i :: 0 <= i < |bids| ==> -spec.shift < bids[i].event_time
  }

  /** The bids of `bids` that belong to window `w`, in input order. */
  function ShardOf(spec: WindowSpec, bids: seq<Bid>, w: int): seq<Bid>
    requires spec.Valid()
  {
    if bids == [] then []
    else
      var last := bids[|bids| - 1];
      ShardOf(spec, bids[..|bids| - 1], w) + (if Covers(spec, last.event_time, w) then [last] else [])
  }

  /** A window's shard is non-empty iff some bid of the message falls in the window. */
  lemma {:induction false} ShardOfNonEmpty(spec: WindowSpec, bids: seq<Bid>, w: int)
    requires spec.Valid()
    ensures ShardOf(spec, bids, w) != [] <==> exists i :: 0 <= i < |bids| && Covers(spec, bids[i].event_time, w)
  {
    if bids != [] {
      var init := bids[..|bids| - 1];
      ShardOfNonEmpty(spec, init, w);
      if exists i :: 0 <= i < |init| && Covers(spec, init[i].event_time, w) {
        var i :| 0 <= i < |init| && Covers(spec, init[i].event_time, w);
        assert bids[i] == init[i];
      }
    }
  }

  /** Every bid of a shard is a bid of the message that belongs to the window. */
  lemma {:induction false} ShardOfMembers(spec: WindowSpec, bids: seq<Bid>, w: int)
    requires spec.Valid()
    ensures forall b :: b in ShardOf(spec, bids, w) <==> b in bids && Covers(spec, b.event_time, w)
  {
    if bids != [] {
      var init := bids[..|bids| - 1];
      ShardOfMembers(spec, init, w);
      assert bids == init + [bids[|bids| - 1]];
    }
  }

  /** `shards[w]` of a `std::map`: an absent key reads as an empty shard. */
  function Lookup(shards: map<int32, seq<Bid>>, w: int): seq<Bid> {
    if w in shards then shards[w] else []
  }

  /** `shards[j].push_back(bid)` for every window `j` in `[lo, hi]`. */
  function AddBid(shards: map<int32, seq<Bid>>, bid: Bid, lo: int, hi: int): map<int32, seq<Bid>> {
    map w: int32 | w in shards || lo <= w <= hi :: Lookup(shards, w) + (if lo <= w <= hi then [bid] else [])
  }

  /** The shards `shardEvents` builds from `bids`, bid after bid. */
  function ShardsOf(spec: WindowSpec, bids: seq<Bid>): map<int32, seq<Bid>>
    requires spec.Valid()
  {
    if bids == [] then map[]
    else
      var b := bids[|bids| - 1];
      AddBid(ShardsOf(spec, bids[..|bids| - 1]), b, MinWid(spec, b.event_time), MaxWid(spec, b.event_time))
  }

  /** The running minimum of the bids' first window ids, started at `start`. */
  function RunMin(spec: WindowSpec, bids: seq<Bid>, start: int): int
    requires spec.Valid()
  {
    if bids == [] then start
    else
      var lo := MinWid(spec, bids[|bids| - 1].event_time);
      var r := RunMin(spec, bids[..|bids| - 1], start);
      if lo < r then lo else r
  }

  /** The running maximum of the bids' last window ids, started at `start`. */
  function RunMax(spec: WindowSpec, bids: seq<Bid>, start: int): int
    requires spec.Valid()
  {
    if bids == [] then start
    else
      var hi := MaxWid(spec, bids[|bids| - 1].event_time);
      var r := RunMax(spec, bids[..|bids| - 1], start);
      if hi > r then hi else r
  }

  /** `shards` holds exactly the non-empty shards of `bids`. */
  ghost predicate IsSharding(spec: WindowSpec, bids: seq<Bid>, shards: map<int32, seq<Bid>>)
    requires spec.Valid()
  {
    forall w :: (w in shards ==> shards[w] == ShardOf(spec, bids, w) && shards[w] != [])
             && (w !in shards ==> ShardOf(spec, bids, w) == [])
  }

  /**
   * `v` is the minimum of `start` and the first window ids of `bids`: below
   * all of them, and either `start` or one of them.
   */
  ghost predicate RunningMin(spec: WindowSpec, bids: seq<Bid>, start: int, v: int)
    requires spec.Valid()
  {
    && v <= start
    && (forall i :: 0 <= i < |bids| ==> v <= MinWid(spec, bids[i].event_time))
    && (v == start || exists i :: 0 <= i < |bids| && v == MinWid(spec, bids[i].event_time))
  }

  /** The maximum of `start` and the last window ids of `bids`, dually. */
  ghost predicate RunningMax(spec: WindowSpec, bids: seq<Bid>, start: int, v: int)
    requires spec.Valid()
  {
    && start <= v
    && (forall i :: 0 <= i < |bids| ==> MaxWid(spec, bids[i].event_time) <= v)
    && (v == start || exists i :: 0 <= i < |bids| && v == MaxWid(spec, bids[i].event_time))
  }

  /** The shards built from a message are exactly its non-empty per-window shards. */
  lemma {:induction false} ShardsOfSpec(spec: WindowSpec, bids: seq<Bid>)
    requires spec.Valid()
    ensures IsSharding(spec, bids, ShardsOf(spec, bids))
  {
    if bids != [] {
      var i := |bids| - 1;
      var init := bids[..i];
      ShardsOfSpec(spec, init);
      var prev := ShardsOf(spec, init);
      var next := ShardsOf(spec, bids);
      forall w
        ensures (w in next ==> next[w] == ShardOf(spec, bids, w) && next[w] != [])
             && (w !in next ==> ShardOf(spec, bids, w) == [])
      {
        assert ShardOf(spec, bids, w) == ShardOf(spec, init, w)
          + (if Covers(spec, bids[i].event_time, w) then [bids[i]] else []);
        if Covers(spec, bids[i].event_time, w) {
          CoveredWindowIsInt(spec, bids[i].event_time, w);
        }
        var lo, hi := MinWid(spec, bids[i].event_time), MaxWid(spec, bids[i].event_time);
        assert next == AddBid(prev, bids[i], lo, hi);
        assert w in next <==> w in prev || lo <= w <= hi;
        if w in next {
          assert Lookup(prev, w) == ShardOf(spec, init, w);
          assert next[w] == ShardOf(spec, bids, w);
          assert next[w] != [];
        } else {
          assert ShardOf(spec, bids, w) == [];
        }
      }
    }
  }

  /** The running minimum is the least of `start` and the bids' first window ids. */
  lemma {:induction false} RunMinSpec(spec: WindowSpec, bids: seq<Bid>, start: int)
    requires spec.Valid()
    ensures RunningMin(spec, bids, start, RunMin(spec, bids, start))
  {
    if bids != [] {
      var i := |bids| - 1;
      RunMinSpec(spec, bids[..i], start);
      var r := RunMin(spec, bids[..i], start);
      assert forall k :: 0 <= k < i ==> bids[..i][k] == bids[k];
      if r != start {
        var k :| 0 <= k < i && r == MinWid(spec, bids[..i][k].event_time);
        assert bids[..i][k] == bids[k];
      }
    }
  }

  /** The running maximum is the greatest of `start` and the bids' last window ids. */
  lemma {:induction false} RunMaxSpec(spec: WindowSpec, bids: seq<Bid>, start: int)
    requires spec.Valid()
    ensures RunningMax(spec, bids, start, RunMax(spec, bids, start))
  {
    if bids != [] {
      var i := |bids| - 1;
      RunMaxSpec(spec, bids[..i], start);
      var r := RunMax(spec, bids[..i], start);
      assert forall k :: 0 <= k < i ==> bids[..i][k] == bids[k];
      if r != start {
        var k :| 0 <= k < i && r == MaxWid(spec, bids[..i][k].event_time);
        assert bids[..i][k] == bids[k];
      }
    }
  }

  /** The inner loop of `shardEvents`: `shards[j].push_back(bid)` for `j` in `[lo, hi]`. */
  method AddToWindows(shards: map<int32, seq<Bid>>, bid: Bid, lo: int32, hi: int32) returns (next: map<int32, seq<Bid>>)
    ensures forall w :: w in next <==> w in shards || lo <= w <= hi
    ensures forall w :: w in next ==> next[w] == Lookup(shards, w) + (if lo <= w <= hi then [bid] else [])
    ensures next == AddBid(shards, bid, lo, hi)
  {
    next := shards;
    var j := lo;
    while j <= hi
      invariant lo <= j && (j <= hi + 1 || j == lo)
      invariant forall w :: w in next <==> w in shards || lo <= w < j
      invariant forall w :: w in next ==> next[w] == Lookup(shards, w) + (if lo <= w < j then [bid] else [])
      decreases hi + 1 - j
    {
      next := next[j := Lookup(next, j) + [bid]];
      j := j + 1;
    }
  }

  /**
   * `shardEvents`: replicate every bid into the shard of each window id of
   * its range, and lower/raise the running min/max window ids.
   */
  method ShardEvents(spec: WindowSpec, m: Message, minWid0: int, maxWid0: int)
    returns (shards: map<int32, seq<Bid>>, minWid: int, maxWid: int)
    requires spec.Valid()
    requires EndingRanges(spec, DecodeArray(DecodeBid, BID_SIZE, m.bytes))
    ensures var bids := DecodeArray(DecodeBid, BID_SIZE, m.bytes);
      && IsSharding(spec, bids, shards)
      && RunningMin(spec, bids, minWid0, minWid)
      && RunningMax(spec, bids, maxWid0, maxWid)
  {
    var bids := ReadAll(DecodeBid, BID_SIZE, m);
    shards := map[];
    minWid, maxWid := minWid0, maxWid0;
    var i := 0;
    while i < |bids|
      invariant 0 <= i <= |bids|
      invariant shards == ShardsOf(spec, bids[..i])
      invariant minWid == RunMin(spec, bids[..i], minWid0)
      invariant maxWid == RunMax(spec, bids[..i], maxWid0)
    {
      var bid := bids[i];
      var hi := MaxWid(spec, bid.event_time);
      var lo := MinWid(spec, bid.event_time);
      WindowIdsAreInts(spec, bid.event_time);
      if hi > maxWid { maxWid := hi; }
      if lo < minWid { minWid := lo; }
      shards := AddToWindows(shards, bid, lo, hi);
      assert bids[..i + 1][..i] == bids[..i];
      i := i + 1;
    }
    assert bids[..|bids|] == bids;
    ShardsOfSpec(spec, bids);
    RunMinSpec(spec, bids, minWid0);
    RunMaxSpec(spec, bids, maxWid0);
  }

  // ---------------------------------------------------------------------
  // The sharded message layout: bids, then min wid, max wid, wid, message id

  /** What the consumer of a sharded message reads back from it. */
  datatype ShardView = ShardView(bids: seq<Bid>, minWid: int32, maxWid: int32, wid: int32, messageId: int32)

  const SHARD_HEADER_SIZE: nat := 4 * INT_SIZE

  function ShardHeader(v: ShardView): (bs: seq<uint8>)
    ensures |bs| == SHARD_HEADER_SIZE
  {
    IntField(v.minWid) + IntField(v.maxWid) + IntField(v.wid) + IntField(v.messageId)
  }

  /**
   * The message `send(events, channel, wid, message_id)` builds for one
   * shard: its capacity is exactly the bids plus four `int`s, and it is full.
   */
  function ShardMessage(v: ShardView): (m: Message)
    ensures m.Wf() && m.capacity == m.Size()
  {
    var body := Concat(EncodeBid, v.bids) + ShardHeader(v);
    Message(|body|, body)
  }

  /** The `wrap` calls of `send` in source order. */
  function WrapShard(v: ShardView): Result<Message> {
    var m0 := NewMessage(BID_SIZE * |v.bids| + SHARD_HEADER_SIZE);
    var m1 :- WrapArray(EncodeBid, v.bids, m0);
    var m2 :- WrapInt(v.minWid, m1);
    var m3 :- WrapInt(v.maxWid, m2);
    var m4 :- WrapInt(v.wid, m3);
    WrapInt(v.messageId, m4)
  }

  /** The wraps never overflow the capacity and produce exactly `ShardMessage`. */
  lemma WrapShardExact(v: ShardView)
    ensures WrapShard(v) == Ok(ShardMessage(v))
  {
    BidCodec();
    var body := Concat(EncodeBid, v.bids);
    var m0 := NewMessage(BID_SIZE * |v.bids| + SHARD_HEADER_SIZE);
    ConcatLength(EncodeBid, DecodeBid, BID_SIZE, v.bids);
    WrapArraySpec(EncodeBid, v.bids, m0);
    assert m0.bytes + body == body;
    var m1 := m0.(bytes := body);
    assert WrapArray(EncodeBid, v.bids, m0) == Ok(m1);
    var m2 := m1.(bytes := m1.bytes + IntField(v.minWid));
    var m3 := m2.(bytes := m2.bytes + IntField(v.maxWid));
    var m4 := m3.(bytes := m3.bytes + IntField(v.wid));
    assert WrapInt(v.minWid, m1) == Ok(m2);
    assert WrapInt(v.maxWid, m2) == Ok(m3);
    assert WrapInt(v.wid, m3) == Ok(m4);
    Assoc4(body, IntField(v.minWid), IntField(v.maxWid), IntField(v.wid), IntField(v.messageId));
  }

  /**
   * How the count aggregator parses a sharded message: the window id is the
   * second field from the tail and the bids are the
   * `(size - 4 * sizeof(int)) / sizeof(Bid)` records at the front.
   */
  function ParseShard(m: Message): (r: Result<ShardView>)
    ensures r.Err? <==> m.Size() < SHARD_HEADER_SIZE
  {
    var messageId :- ReadBackInt(m, 0);
    var wid :- ReadBackInt(m, INT_SIZE);
    var maxWid :- ReadBackInt(m, 2 * INT_SIZE);
    var minWid :- ReadBackInt(m, 3 * INT_SIZE);
    var n := (m.Size() - SHARD_HEADER_SIZE) / BID_SIZE;
    var all := DecodeArray(DecodeBid, BID_SIZE, m.bytes);
    Ok(ShardView(if n <= |all| then all[..n] else all, minWid, maxWid, wid, messageId))
  }

  /** The sharded message layout round-trips. */
  lemma ParseShardMessage(v: ShardView)
    ensures ParseShard(ShardMessage(v)) == Ok(v)
  {
    BidCodec();
    var m := ShardMessage(v);
    var body := Concat(EncodeBid, v.bids);
    ConcatLength(EncodeBid, DecodeBid, BID_SIZE, v.bids);
    TailSlices(body, IntField(v.minWid), IntField(v.maxWid), IntField(v.wid), IntField(v.messageId));
    ReadBackIntField(m, 0, v.messageId);
    ReadBackIntField(m, 4, v.wid);
    ReadBackIntField(m, 8, v.maxWid);
    ReadBackIntField(m, 12, v.minWid);
    DivExact(BID_SIZE, |v.bids|);
    assert (m.Size() - SHARD_HEADER_SIZE) / BID_SIZE == |v.bids|;
    DecodePrefix(EncodeBid, DecodeBid, BID_SIZE, v.bids, ShardHeader(v));
  }

  /** Running bounds started from `int`s stay `int`s. */
  lemma RunningBoundsRange(spec: WindowSpec, bids: seq<Bid>, minWid: int, minWid0: int32, maxWid: int, maxWid0: int32)
    requires spec.Valid() && EndingRanges(spec, bids)
    requires RunningMin(spec, bids, minWid0, minWid)
    requires RunningMax(spec, bids, maxWid0, maxWid)
    ensures IsInt32(minWid) && IsInt32(maxWid)
  {
    if minWid != minWid0 {
      var i :| 0 <= i < |bids| && minWid == MinWid(spec, bids[i].event_time);
      WindowIdsAreInts(spec, bids[i].event_time);
    }
    if maxWid != maxWid0 {
      var i :| 0 <= i < |bids| && maxWid == MaxWid(spec, bids[i].event_time);
      WindowIdsAreInts(spec, bids[i].event_time);
    }
  }

  // ---------------------------------------------------------------------
  // Global-count and sort flavours

  /** The running min/max window ids of the message being sharded. */
  datatype SharderState = SharderState(msgid_min_wid: int32, msgid_max_wid: int32)

  /** Constructor of both flavours; also the state after every message. */
  const INITIAL_SHARDER: SharderState := SharderState(INT32_MAX, 0)

  /** The rank that owns window `w`: `wid % worldSize`. */
  function TargetRank(d: Deployment, w: int): int
    requires d.Valid()
  {
    TruncMod(w, d.worldSize)
  }

  /** Windows are dealt round-robin: the owner of a window id is a rank. */
  lemma TargetRankIsRank(d: Deployment, w: int)
    requires d.Valid() && 0 <= w
    ensures 0 <= TargetRank(d, w) < d.worldSize
    ensures (w - TargetRank(d, w)) % d.worldSize == 0
  {
    TruncDivMod(w, d.worldSize);
    var q := TruncDiv(w, d.worldSize);
    assert w - TargetRank(d, w) == d.worldSize * q;
    DivUnique(d.worldSize * q, d.worldSize, q, 0);
  }

  /** The shards sent for one message, in `std::map` order of window id. */
  function SendShards(d: Deployment, shards: map<int32, seq<Bid>>, minWid: int32, maxWid: int32, messageId: int32)
    : (outs: seq<Outgoing>)
    requires d.Valid()
    ensures |outs| == |shards|
    ensures forall k :: 0 <= k < |outs| ==>
              var w := SortedKeys(shards)[k];
              && outs[k].channel == TargetRank(d, w)
              && outs[k].msg == ShardMessage(ShardView(shards[w], minWid, maxWid, w, messageId))
  {
    var wids := SortedKeys(shards);
    seq(|wids|, k requires 0 <= k < |wids| =>
      var w := wids[k];
      Outgoing(TargetRank(d, w), ShardMessage(ShardView(shards[w], minWid, maxWid, w, messageId))))
  }

  /** The bids of an input message once its tail message id is removed. */
  function InputBids(m: Message): seq<Bid>
    requires INT_SIZE <= m.Size()
  {
    DecodeArray(DecodeBid, BID_SIZE, m.bytes[..m.Size() - INT_SIZE])
  }

  function InputMessageId(m: Message): int32
    requires INT_SIZE <= m.Size()
  {
    DecodeInt32(m.bytes[m.Size() - INT_SIZE..])
  }

  /** The window id a consumer reads from an outgoing shard. */
  function WidOf(o: Outgoing): int {
    var v := ParseShard(o.msg);
    if v.Ok? then v.value.wid else -1
  }

  /**
   * One shard as the aggregator reads it: the bids of its window (at least
   * one), the message id, the message's min/max window ids, and the
   * window's rank as channel.
   */
  ghost predicate ShardOk(spec: WindowSpec, d: Deployment, s: SharderState, bids: seq<Bid>, messageId: int32, o: Outgoing)
    requires spec.Valid() && d.Valid()
  {
    && ParseShard(o.msg).Ok?
    && var v := ParseShard(o.msg).value;
    && v.bids == ShardOf(spec, bids, v.wid) && v.bids != []
    && v.messageId == messageId
    && o.channel == TargetRank(d, v.wid)
    && RunningMin(spec, bids, s.msgid_min_wid, v.minWid)
    && RunningMax(spec, bids, s.msgid_max_wid, v.maxWid)
  }

  /** The shards' windows ascend, and every window holding a bid has a shard. */
  ghost predicate ShardsCover(spec: WindowSpec, bids: seq<Bid>, outs: seq<Outgoing>)
    requires spec.Valid()
  {
    && (forall k, l :: 0 <= k < l < |outs| ==> WidOf(outs[k]) < WidOf(outs[l]))
    && (forall w :: ShardOf(spec, bids, w) != [] ==> exists k :: 0 <= k < |outs| && WidOf(outs[k]) == w)
  }

  /**
   * What a message's shards must be: one per window that holds a bid, in
   * ascending window order, each well formed.
   */
  ghost predicate ShardsSent(spec: WindowSpec, d: Deployment, s: SharderState, bids: seq<Bid>, messageId: int32, outs: seq<Outgoing>)
    requires spec.Valid() && d.Valid()
  {
    && ShardsCover(spec, bids, outs)
    && forall k :: 0 <= k < |outs| ==> ShardOk(spec, d, s, bids, messageId, outs[k])
  }

  /**
   * `processInputMessage` of the count and sort sharders: the message id is
   * the tail field; the rest is bids.  After the shards are sent the
   * running min/max are reset.
   */
  method ProcessInputMessage(spec: WindowSpec, d: Deployment, s: SharderState, m: Message)
    returns (r: Result<(SharderState, seq<Outgoing>)>)
    requires spec.Valid() && d.Valid()
    requires INT_SIZE <= m.Size() ==> EndingRanges(spec, InputBids(m))
    ensures r.Err? <==> m.Size() < INT_SIZE
    ensures r.Ok? ==> r.value.0 == INITIAL_SHARDER
    ensures r.Ok? ==> ShardsSent(spec, d, s, InputBids(m), InputMessageId(m), r.value.1)
  {
    var u := UnwrapInt(m);
    if u.Err? {
      return Err(u.fault);
    }
    var (messageId, rest) := u.value;
    assert rest.bytes == m.bytes[..m.Size() - INT_SIZE];
    var shards, minWid, maxWid := ShardEvents(spec, rest, s.msgid_min_wid, s.msgid_max_wid);
    ghost var bids := InputBids(m);
    RunningBoundsRange(spec, bids, minWid, s.msgid_min_wid, maxWid, s.msgid_max_wid);
    var outs := SendShards(d, shards, minWid, maxWid, messageId);
    ShardsSentHolds(spec, d, s, bids, shards, minWid, maxWid, messageId, outs);
    r := Ok((INITIAL_SHARDER, outs));
  }

  lemma ShardsSentHolds(spec: WindowSpec, d: Deployment, s: SharderState, bids: seq<Bid>,
                        shards: map<int32, seq<Bid>>, minWid: int32, maxWid: int32, messageId: int32,
                        outs: seq<Outgoing>)
    requires spec.Valid() && d.Valid()
    requires IsSharding(spec, bids, shards)
    requires RunningMin(spec, bids, s.msgid_min_wid, minWid)
    requires RunningMax(spec, bids, s.msgid_max_wid, maxWid)
    requires outs == SendShards(d, shards, minWid, maxWid, messageId)
    ensures ShardsSent(spec, d, s, bids, messageId, outs)
  {
    var wids := SortedKeys(shards);
    forall k | 0 <= k < |outs|
      ensures ShardOk(spec, d, s, bids, messageId, outs[k])
    {
      ParseShardMessage(ShardView(shards[wids[k]], minWid, maxWid, wids[k], messageId));
    }
    ShardsCoverHolds(spec, d, bids, shards, minWid, maxWid, messageId, outs);
  }

  lemma ShardsCoverHolds(spec: WindowSpec, d: Deployment, bids: seq<Bid>,
                         shards: map<int32, seq<Bid>>, minWid: int32, maxWid: int32, messageId: int32,
                         outs: seq<Outgoing>)
    requires spec.Valid() && d.Valid()
    requires IsSharding(spec, bids, shards)
    requires outs == SendShards(d, shards, minWid, maxWid, messageId)
    ensures ShardsCover(spec, bids, outs)
  {
    var wids := SortedKeys(shards);
    forall k | 0 <= k < |outs|
      ensures WidOf(outs[k]) == wids[k]
    {
      ParseShardMessage(ShardView(shards[wids[k]], minWid, maxWid, wids[k], messageId));
    }
    forall w | ShardOf(spec, bids, w) != []
      ensures exists k :: 0 <= k < |outs| && WidOf(outs[k]) == w
    {
      assert w in wids;
      var k :| 0 <= k < |wids| && wids[k] == w;
      assert WidOf(outs[k]) == w;
    }
  }

  // ---------------------------------------------------------------------
  // Flow-wrapping flavour

  /**
   * The wrapper unit of a shard: window `wid`, numerator 1, and as
   * denominator the number of shards the window receives in total.
   */
  function FwUnit(d: Deployment, wid: int32): WrapperUnit
    requires IsInt32(HotItemsWindowMessages(d))
  {
    WrapperUnit(wid, 1, HotItemsWindowMessages(d))
  }

  /** `getNextMessage` then the unit: bids, then one `WrapperUnit`. */
  function FwShardMessage(bids: seq<Bid>, unit: WrapperUnit): Result<Message> {
    var m0 := NewMessage(BID_SIZE * |bids| + WRAPPER_UNIT_SIZE);
    var m1 :- WrapArray(EncodeBid, bids, m0);
    Wrap(EncodeWrapperUnit(unit), m1)
  }

  lemma FwShardMessageBytes(bids: seq<Bid>, unit: WrapperUnit)
    ensures FwShardMessage(bids, unit).Ok?
    ensures FwShardMessage(bids, unit).value.capacity == FwShardMessage(bids, unit).value.Size()
    ensures FwShardMessage(bids, unit).value.bytes == Concat(EncodeBid, bids) + EncodeWrapperUnit(unit)
  {
    BidCodec();
    ConcatLength(EncodeBid, DecodeBid, BID_SIZE, bids);
    var m0 := NewMessage(BID_SIZE * |bids| + WRAPPER_UNIT_SIZE);
    WrapArraySpec(EncodeBid, bids, m0);
    assert m0.bytes + Concat(EncodeBid, bids) == Concat(EncodeBid, bids);
  }

  /** How the flow-wrapping aggregator parses a shard: unit at the tail, bids before it. */
  function ParseFwShard(m: Message): (r: Result<(seq<Bid>, WrapperUnit)>)
    ensures r.Err? <==> m.Size() < WRAPPER_UNIT_SIZE
  {
    var p :- Unwrap(WRAPPER_UNIT_SIZE, m);
    Ok((DecodeArray(DecodeBid, BID_SIZE, p.1.bytes), DecodeWrapperUnit(p.0)))
  }

  lemma ParseFwShardMessage(bids: seq<Bid>, unit: WrapperUnit)
    ensures FwShardMessage(bids, unit).Ok?
    ensures ParseFwShard(FwShardMessage(bids, unit).value) == Ok((bids, unit))
  {
    FwShardMessageBytes(bids, unit);
    BidCodec();
    WrapperUnitCodec();
    DecodeConcat(EncodeBid, DecodeBid, BID_SIZE, bids);
    var m := FwShardMessage(bids, unit).value;
    var p := Unwrap(WRAPPER_UNIT_SIZE, m).value;
    assert p.1.bytes == Concat(EncodeBid, bids);
  }

  /** One copy of window `w`'s shard per downstream operator, on channel `operatorIndex * worldSize + rank`. */
  function FwBatch(d: Deployment, w: int32, bids: seq<Bid>): (out: seq<Outgoing>)
    requires d.Valid() && IsInt32(HotItemsWindowMessages(d))
    ensures |out| == d.nextCount
    ensures forall op :: 0 <= op < |out| ==>
              && out[op].channel == op * d.worldSize + TargetRank(d, w)
              && FwShardMessage(bids, FwUnit(d, w)) == Ok(out[op].msg)
  {
    FwShardMessageBytes(bids, FwUnit(d, w));
    var msg := FwShardMessage(bids, FwUnit(d, w)).value;
    seq(d.nextCount, op => Outgoing(op * d.worldSize + TargetRank(d, w), msg))
  }

  /**
   * `send(shards)`: for every window in ascending order, its batch; the
   * messages leave in the order of the concatenated batches.
   */
  function FwSendShards(d: Deployment, shards: map<int32, seq<Bid>>): (batches: seq<seq<Outgoing>>)
    requires d.Valid() && IsInt32(HotItemsWindowMessages(d))
    ensures |batches| == |shards|
    ensures forall k :: 0 <= k < |batches| ==>
              batches[k] == FwBatch(d, SortedKeys(shards)[k], shards[SortedKeys(shards)[k]])
  {
    var wids := SortedKeys(shards);
    seq(|wids|, k requires 0 <= k < |wids| => FwBatch(d, wids[k], shards[wids[k]]))
  }

  /** The window id the aggregator reads from the first message of a batch. */
  function FwWidOf(batch: seq<Outgoing>): int {
    if batch == [] then -1
    else
      var p := ParseFwShard(batch[0].msg);
      if p.Ok? then p.value.1.window_start_time else -1
  }

  /**
   * A batch carries `nextCount` copies of one window's shard (at least one
   * bid), each with the unit of that window, on the operator's channel for
   * the window's rank.
   */
  ghost predicate FwBatchOk(spec: WindowSpec, d: Deployment, bids: seq<Bid>, batch: seq<Outgoing>)
    requires spec.Valid() && d.Valid() && IsInt32(HotItemsWindowMessages(d))
  {
    && |batch| == d.nextCount
    && forall op :: 0 <= op < |batch| ==>
         && ParseFwShard(batch[op].msg).Ok?
         && var (shard, unit) := ParseFwShard(batch[op].msg).value;
         && unit.window_start_time == FwWidOf(batch)
         && shard == ShardOf(spec, bids, unit.window_start_time) && shard != []
         && unit == FwUnit(d, unit.window_start_time)
         && batch[op].channel == op * d.worldSize + TargetRank(d, unit.window_start_time)
  }

  /** The batches' windows ascend, and every window holding a bid has a batch. */
  ghost predicate FwBatchesCover(spec: WindowSpec, bids: seq<Bid>, batches: seq<seq<Outgoing>>)
    requires spec.Valid()
  {
    && (forall k, l :: 0 <= k < l < |batches| ==> FwWidOf(batches[k]) < FwWidOf(batches[l]))
    && (forall w :: ShardOf(spec, bids, w) != [] ==> exists k :: 0 <= k < |batches| && FwWidOf(batches[k]) == w)
  }

  /**
   * What a message's batches must be: each holds `nextCount` copies of one
   * window's shard; with at least one downstream operator, every window
   * holding a bid has its batch, in ascending window order.
   */
  ghost predicate FwShardsSent(spec: WindowSpec, d: Deployment, bids: seq<Bid>, batches: seq<seq<Outgoing>>)
    requires spec.Valid() && d.Valid() && IsInt32(HotItemsWindowMessages(d))
  {
    && (forall k :: 0 <= k < |batches| ==> FwBatchOk(spec, d, bids, batches[k]))
    && (0 < d.nextCount ==> FwBatchesCover(spec, bids, batches))
  }

  /** The bids of a flow-wrapping input once its message id and unit are removed. */
  function FwInputBids(m: Message): seq<Bid>
    requires INT_SIZE + WRAPPER_UNIT_SIZE <= m.Size()
  {
    DecodeArray(DecodeBid, BID_SIZE, m.bytes[..m.Size() - INT_SIZE - WRAPPER_UNIT_SIZE])
  }

  /**
   * The flow-wrapping sharder's step: strip the message id and the incoming
   * wrapper unit from the tail, shard the bids, send every shard to every
   * downstream operator.
   */
  method FwProcessInputMessage(spec: WindowSpec, d: Deployment, m: Message) returns (r: Result<seq<seq<Outgoing>>>)
    requires spec.Valid() && d.Valid() && IsInt32(HotItemsWindowMessages(d))
    requires INT_SIZE + WRAPPER_UNIT_SIZE <= m.Size() ==> EndingRanges(spec, FwInputBids(m))
    ensures r.Err? <==> m.Size() < INT_SIZE + WRAPPER_UNIT_SIZE
    ensures r.Ok? ==> FwShardsSent(spec, d, FwInputBids(m), r.value)
  {
    var u := UnwrapInt(m);
    if u.Err? {
      return Err(u.fault);
    }
    var w := Unwrap(WRAPPER_UNIT_SIZE, u.value.1);
    if w.Err? {
      return Err(w.fault);
    }
    var rest := w.value.1;
    assert rest.bytes == m.bytes[..m.Size() - INT_SIZE - WRAPPER_UNIT_SIZE];
    var shards, _, _ := ShardEvents(spec, rest, 0, 0);
    ghost var bids := FwInputBids(m);
    var batches := FwSendShards(d, shards);
    FwShardsSentHolds(spec, d, bids, shards, batches);
    r := Ok(batches);
  }

  lemma FwShardsSentHolds(spec: WindowSpec, d: Deployment, bids: seq<Bid>, shards: map<int32, seq<Bid>>,
                          batches: seq<seq<Outgoing>>)
    requires spec.Valid() && d.Valid() && IsInt32(HotItemsWindowMessages(d))
    requires IsSharding(spec, bids, shards)
    requires batches == FwSendShards(d, shards)
    ensures FwShardsSent(spec, d, bids, batches)
  {
    var wids := SortedKeys(shards);
    forall k | 0 <= k < |batches|
      ensures FwBatchOk(spec, d, bids, batches[k])
    {
      FwBatchParses(d, wids[k], shards[wids[k]], batches[k]);
    }
    if 0 < d.nextCount {
      FwCoverHolds(spec, d, bids, shards, batches);
    }
  }

  lemma FwCoverHolds(spec: WindowSpec, d: Deployment, bids: seq<Bid>, shards: map<int32, seq<Bid>>,
                     batches: seq<seq<Outgoing>>)
    requires spec.Valid() && d.Valid() && IsInt32(HotItemsWindowMessages(d)) && 0 < d.nextCount
    requires IsSharding(spec, bids, shards)
    requires batches == FwSendShards(d, shards)
    ensures FwBatchesCover(spec, bids, batches)
  {
    var wids := SortedKeys(shards);
    forall k | 0 <= k < |batches|
      ensures FwWidOf(batches[k]) == wids[k]
    {
      FwBatchParses(d, wids[k], shards[wids[k]], batches[k]);
    }
    forall w | ShardOf(spec, bids, w) != []
      ensures exists k :: 0 <= k < |batches| && FwWidOf(batches[k]) == w
    {
      assert w in wids;
      var k :| 0 <= k < |wids| && wids[k] == w;
      assert FwWidOf(batches[k]) == w;
    }
  }

  /** Every message of a window's batch parses back to the window's shard and unit. */
  lemma FwBatchParses(d: Deployment, w: int32, bids: seq<Bid>, batch: seq<Outgoing>)
    requires d.Valid() && IsInt32(HotItemsWindowMessages(d))
    requires batch == FwBatch(d, w, bids)
    ensures forall op :: 0 <= op < |batch| ==> ParseFwShard(batch[op].msg) == Ok((bids, FwUnit(d, w)))
    ensures 0 < |batch| ==> FwWidOf(batch) == w
  {
    ParseFwShardMessage(bids, FwUnit(d, w));
  }
}
