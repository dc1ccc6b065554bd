/**
 * The stateless filters at the head of the pipelines: the bid filter of
 * the hot-items use case (count and sort variants share it, the
 * flow-wrapping variant carries a wrapper unit along) and the persons
 * filter of the new-sellers use case.  Each reads the generator's events,
 * keeps those of one type and forwards them to the next operators on the
 * same rank.
 */
module Filters {
  import opened Bytes
  import opened Faults
  import opened Serialization
  import opened Codec
  import opened Payloads
  import opened Records
  import opened Topology
  import opened Sharding

  /** The events of a payload: `size / sizeof(Event)` records read from the front. */
  function EventsIn(bs: seq<uint8>): seq<Event> {
    DecodeArray(DecodeEvent, EVENT_SIZE, bs)
  }

  /** The bids of the `BidType` events, in order. */
  function SelectBids(events: seq<Event>): seq<Bid> {
    if events == [] then []
    else (if events[0].event_type == BID_TYPE then [events[0].bid] else []) + SelectBids(events[1..])
  }

  /** The persons of the `PersonType` events, in order. */
  function SelectPersons(events: seq<Event>): seq<Person> {
    if events == [] then []
    else (if events[0].event_type == PERSON_TYPE then [events[0].person] else []) + SelectPersons(events[1..])
  }

  /** `idx` lists, ascending, exactly the positions of the events of type `t`. */
  ghost predicate PositionsOf(events: seq<Event>, t: int32, idx: seq<int>) {
    && (forall k :: 0 <= k < |idx| ==> 0 <= idx[k] < |events| && events[idx[k]].event_type == t)
    && (forall k, l :: 0 <= k < l < |idx| ==> idx[k] < idx[l])
    && (forall i :: 0 <= i < |events| && events[i].event_type == t ==> i in idx)
  }

  /** Every position one further. */
  function Shift(idx: seq<int>): (r: seq<int>)
    ensures |r| == |idx| && forall k :: 0 <= k < |r| ==> r[k] == idx[k] + 1
  {
    seq(|idx|, k requires 0 <= k < |idx| => idx[k] + 1)
  }

  /** The positions of a non-empty list: its head's, if of type `t`, then the tail's one further. */
  lemma PositionsCons(events: seq<Event>, t: int32, idxT: seq<int>) returns (idx: seq<int>)
    requires events != [] && PositionsOf(events[1..], t, idxT)
    ensures PositionsOf(events, t, idx)
    ensures idx == (if events[0].event_type == t then [0] else []) + Shift(idxT)
  {
    var h: nat := if events[0].event_type == t then 1 else 0;
    idx := (if h == 1 then [0] else []) + Shift(idxT);
    ShiftedBy(idxT, idx, h);
    PositionsShift(events, t, idxT, idx, h);
  }

  /** The indices of `idx` past its first `h` are those of `idxT`, one further. */
  lemma ShiftedBy(idxT: seq<int>, idx: seq<int>, h: nat)
    requires h <= 1 && idx == (if h == 1 then [0] else []) + Shift(idxT)
    ensures |idx| == h + |idxT| && (h == 1 ==> idx[0] == 0)
    ensures forall k :: 0 <= k < |idxT| ==> idx[h + k] == idxT[k] + 1
  {
    forall k | 0 <= k < |idxT| ensures idx[h + k] == idxT[k] + 1 {
      assert idx[h + k] == Shift(idxT)[k];
    }
  }

  lemma PositionsShift(events: seq<Event>, t: int32, idxT: seq<int>, idx: seq<int>, h: nat)
    requires events != [] && PositionsOf(events[1..], t, idxT)
    requires h == (if events[0].event_type == t then 1 else 0)
    requires |idx| == h + |idxT| && (h == 1 ==> idx[0] == 0)
    requires forall k :: 0 <= k < |idxT| ==> idx[h + k] == idxT[k] + 1
    ensures PositionsOf(events, t, idx)
  {
    ShiftTyped(events, t, idxT, idx, h);
    ShiftAscending(events, t, idxT, idx, h);
    ShiftComplete(events, t, idxT, idx, h);
  }

  lemma ShiftTyped(events: seq<Event>, t: int32, idxT: seq<int>, idx: seq<int>, h: nat)
    requires events != [] && PositionsOf(events[1..], t, idxT)
    requires h == (if events[0].event_type == t then 1 else 0)
    requires |idx| == h + |idxT| && (h == 1 ==> idx[0] == 0)
    requires forall k :: 0 <= k < |idxT| ==> idx[h + k] == idxT[k] + 1
    ensures forall k :: 0 <= k < |idx| ==> 0 <= idx[k] < |events| && events[idx[k]].event_type == t
  {
    var tail := events[1..];
    forall k | 0 <= k < |idx| ensures 0 <= idx[k] < |events| && events[idx[k]].event_type == t {
      if k >= h {
        var j := k - h;
        assert idx[h + j] == idxT[j] + 1;
        assert tail[idxT[j]] == events[idx[k]];
      }
    }
  }

  lemma ShiftAscending(events: seq<Event>, t: int32, idxT: seq<int>, idx: seq<int>, h: nat)
    requires events != [] && PositionsOf(events[1..], t, idxT)
    requires h == (if events[0].event_type == t then 1 else 0)
    requires |idx| == h + |idxT| && (h == 1 ==> idx[0] == 0)
    requires forall k :: 0 <= k < |idxT| ==> idx[h + k] == idxT[k] + 1
    ensures forall k, l :: 0 <= k < l < |idx| ==> idx[k] < idx[l]
  {
    forall k, l | 0 <= k < l < |idx| ensures idx[k] < idx[l] {
      var j := l - h;
      assert idx[h + j] == idxT[j] + 1;
      if k >= h {
        var i := k - h;
        assert idx[h + i] == idxT[i] + 1;
      }
    }
  }

  lemma ShiftComplete(events: seq<Event>, t: int32, idxT: seq<int>, idx: seq<int>, h: nat)
    requires events != [] && PositionsOf(events[1..], t, idxT)
    requires h == (if events[0].event_type == t then 1 else 0)
    requires |idx| == h + |idxT| && (h == 1 ==> idx[0] == 0)
    requires forall k :: 0 <= k < |idxT| ==> idx[h + k] == idxT[k] + 1
    ensures forall i :: 0 <= i < |events| && events[i].event_type == t ==> i in idx
  {
    var tail := events[1..];
    forall i | 0 <= i < |events| && events[i].event_type == t ensures i in idx {
      if i == 0 {
        assert idx[0] == 0;
      } else {
        assert tail[i - 1] == events[i];
        assert i - 1 in idxT;
        var k :| 0 <= k < |idxT| && idxT[k] == i - 1;
        assert idx[h + k] == i;
      }
    }
  }

  /**
   * Reading values off a list at the positions `idx`: the head's, when it
   * is kept, then those of the tail one further.
   */
  lemma ReadOff<E, X>(es: seq<E>, f: E -> X, keep: bool, sel: seq<X>, selT: seq<X>, idxT: seq<int>, idx: seq<int>)
    requires es != []
    requires sel == (if keep then [f(es[0])] else []) + selT
    requires |idxT| == |selT|
    requires forall k :: 0 <= k < |idxT| ==> 0 <= idxT[k] < |es| - 1 && selT[k] == f(es[1..][idxT[k]])
    requires idx == (if keep then [0] else []) + Shift(idxT)
    ensures |idx| == |sel|
    ensures forall k :: 0 <= k < |idx| ==> 0 <= idx[k] < |es| && sel[k] == f(es[idx[k]])
  {
    var h := if keep then 1 else 0;
    forall k | 0 <= k < |idx| ensures 0 <= idx[k] < |es| && sel[k] == f(es[idx[k]]) {
      if k >= h {
        assert sel[k] == selT[k - h];
        assert idx[k] == Shift(idxT)[k - h] == idxT[k - h] + 1;
        assert es[1..][idxT[k - h]] == es[idx[k]];
      }
    }
  }

  /** The positions of the bid events, and the forwarded bids read off at them. */
  lemma {:induction false} SelectBidsPositions(events: seq<Event>) returns (idx: seq<int>)
    ensures PositionsOf(events, BID_TYPE, idx) && |idx| == |SelectBids(events)|
    ensures forall k :: 0 <= k < |idx| ==> SelectBids(events)[k] == events[idx[k]].bid
  {
    if events == [] {
      idx := [];
    } else {
      var idxT := SelectBidsPositions(events[1..]);
      idx := PositionsCons(events, BID_TYPE, idxT);
      ReadOff(events, (e: Event) => e.bid, events[0].event_type == BID_TYPE, SelectBids(events), SelectBids(events[1..]), idxT, idx);
    }
  }

  lemma {:induction false} SelectBidsShorter(events: seq<Event>)
    ensures |SelectBids(events)| <= |events|
  {
    if events != [] {
      SelectBidsShorter(events[1..]);
    }
  }

  /**
   * The forwarded bids are those of the bid events, one per event and
   * in event order: `idx` lists the bid events' positions.  Hence a bid
   * is forwarded iff some bid event carries it.
   */
  lemma SelectBidsSpec(events: seq<Event>)
    ensures |SelectBids(events)| <= |events|
    ensures exists idx :: && PositionsOf(events, BID_TYPE, idx) && |idx| == |SelectBids(events)|
                          && forall k :: 0 <= k < |idx| ==> SelectBids(events)[k] == events[idx[k]].bid
    ensures forall b :: b in SelectBids(events) <==>
              exists i :: 0 <= i < |events| && events[i].event_type == BID_TYPE && events[i].bid == b
  {
    SelectBidsShorter(events);
    var idx := SelectBidsPositions(events);
    var sel := SelectBids(events);
    forall b ensures b in sel <==> exists i :: 0 <= i < |events| && events[i].event_type == BID_TYPE && events[i].bid == b {
      if b in sel {
        var k :| 0 <= k < |sel| && sel[k] == b;
        assert events[idx[k]].event_type == BID_TYPE;
      }
      if exists i :: 0 <= i < |events| && events[i].event_type == BID_TYPE && events[i].bid == b {
        var i :| 0 <= i < |events| && events[i].event_type == BID_TYPE && events[i].bid == b;
        assert i in idx;
        var k :| 0 <= k < |idx| && idx[k] == i;
        assert sel[k] == b;
      }
    }
  }

  /** The positions of the person events, and the forwarded persons read off at them. */
  lemma {:induction false} SelectPersonsPositions(events: seq<Event>) returns (idx: seq<int>)
    ensures PositionsOf(events, PERSON_TYPE, idx) && |idx| == |SelectPersons(events)|
    ensures forall k :: 0 <= k < |idx| ==> SelectPersons(events)[k] == events[idx[k]].person
  {
    if events == [] {
      idx := [];
    } else {
      var idxT := SelectPersonsPositions(events[1..]);
      idx := PositionsCons(events, PERSON_TYPE, idxT);
      ReadOff(events, (e: Event) => e.person, events[0].event_type == PERSON_TYPE, SelectPersons(events), SelectPersons(events[1..]), idxT, idx);
    }
  }

  lemma {:induction false} SelectPersonsShorter(events: seq<Event>)
    ensures |SelectPersons(events)| <= |events|
  {
    if events != [] {
      SelectPersonsShorter(events[1..]);
    }
  }

  /**
   * The forwarded persons are those of the person events, one per event and
   * in event order: `idx` lists the person events' positions.  Hence a person
   * is forwarded iff some person event carries it.
   */
  lemma SelectPersonsSpec(events: seq<Event>)
    ensures |SelectPersons(events)| <= |events|
    ensures exists idx :: && PositionsOf(events, PERSON_TYPE, idx) && |idx| == |SelectPersons(events)|
                          && forall k :: 0 <= k < |idx| ==> SelectPersons(events)[k] == events[idx[k]].person
    ensures forall p :: p in SelectPersons(events) <==>
              exists i :: 0 <= i < |events| && events[i].event_type == PERSON_TYPE && events[i].person == p
  {
    SelectPersonsShorter(events);
    var idx := SelectPersonsPositions(events);
    var sel := SelectPersons(events);
    forall p ensures p in sel <==> exists i :: 0 <= i < |events| && events[i].event_type == PERSON_TYPE && events[i].person == p {
      if p in sel {
        var k :| 0 <= k < |sel| && sel[k] == p;
        assert events[idx[k]].event_type == PERSON_TYPE;
      }
      if exists i :: 0 <= i < |events| && events[i].event_type == PERSON_TYPE && events[i].person == p {
        var i :| 0 <= i < |events| && events[i].event_type == PERSON_TYPE && events[i].person == p;
        assert i in idx;
        var k :| 0 <= k < |idx| && idx[k] == i;
        assert sel[k] == p;
      }
    }
  }

  /** `send`: the same message to every next operator on this rank, channel `operatorIndex * worldSize + rank`. */
  function SameRank(d: Deployment, m: Message): seq<Outgoing> {
    seq(d.nextCount, k => Outgoing(k * d.worldSize + d.rank, m))
  }

  /** Every output goes to its own next operator on this rank and carries `m`. */
  ghost predicate SentToSameRank(d: Deployment, outs: seq<Outgoing>, m: Message) {
    && |outs| == d.nextCount
    && forall k :: 0 <= k < |outs| ==> outs[k].channel == k * d.worldSize + d.rank && outs[k].msg == m
  }

  // ---------------------------------------------------------------------
  // Bid filter (count and sort variants)

  /**
   * `processInputMessage`: unwrap the message id, keep the bid events,
   * wrap the bids and then the unchanged message id into a message sized
   * `sizeof(Bid) * n + sizeof(int)`.
   */
  function BidFilterStep(d: Deployment, m: Message): Result<(Message, seq<Outgoing>)> {
    var (msgid, events) :- ParseTagged(DecodeEvent, EVENT_SIZE, m);
    ForwardBids(d, msgid, SelectBids(events))
  }

  /** What follows the loop over the events: the bids and the message id wrapped, then `send`. */
  function ForwardBids(d: Deployment, msgid: int32, bids: seq<Bid>): Result<(Message, seq<Outgoing>)> {
    var out :- EmitRecords(EncodeBid, bids, [IntField(msgid)], BID_SIZE * |bids| + INT_SIZE);
    Ok((out, SameRank(d, out)))
  }

  /**
   * Forwarding never fails; the message goes to every next operator on
   * this rank, and the sharder reads back the bids and the message id.
   */
  lemma ForwardBidsSpec(d: Deployment, msgid: int32, bids: seq<Bid>)
    ensures ForwardBids(d, msgid, bids).Ok?
    ensures var (out, outs) := ForwardBids(d, msgid, bids).value;
      && SentToSameRank(d, outs, out)
      && ParseTagged(DecodeBid, BID_SIZE, out) == Ok((msgid, bids))
      && INT_SIZE <= out.Size()
      && InputBids(out) == bids
      && InputMessageId(out) == msgid
  {
    SharderReadsBids(bids, msgid);
    SameRankSent(d, EmitRecords(EncodeBid, bids, [IntField(msgid)], BID_SIZE * |bids| + INT_SIZE).value);
  }

  /**
   * The filter fails only on a message without a message id, sends one
   * message per next operator, and the bids and message id the sharder
   * reads from it are the input's bid events and message id.
   */
  lemma BidFilterSpec(d: Deployment, m: Message)
    ensures BidFilterStep(d, m).Err? <==> m.Size() < INT_SIZE
    ensures BidFilterStep(d, m).Ok? ==>
              var (out, outs) := BidFilterStep(d, m).value;
              var (msgid, events) := ParseTagged(DecodeEvent, EVENT_SIZE, m).value;
              && SentToSameRank(d, outs, out)
              && ParseTagged(DecodeBid, BID_SIZE, out) == Ok((msgid, SelectBids(events)))
              && INT_SIZE <= out.Size()
              && InputBids(out) == SelectBids(events)
              && InputMessageId(out) == msgid
  {
    if INT_SIZE <= m.Size() {
      var parsed := ParseTagged(DecodeEvent, EVENT_SIZE, m).value;
      ForwardBidsSpec(d, parsed.0, SelectBids(parsed.1));
    }
  }

  lemma SameRankSent(d: Deployment, m: Message)
    ensures SentToSameRank(d, SameRank(d, m), m)
  {
  }

  /** The sharder's view of a filtered message: the bids and the message id. */
  lemma SharderReadsBids(bids: seq<Bid>, msgid: int32)
    ensures EmitRecords(EncodeBid, bids, [IntField(msgid)], BID_SIZE * |bids| + INT_SIZE).Ok?
    ensures var out := EmitRecords(EncodeBid, bids, [IntField(msgid)], BID_SIZE * |bids| + INT_SIZE).value;
      && ParseTagged(DecodeBid, BID_SIZE, out) == Ok((msgid, bids))
      && INT_SIZE <= out.Size()
      && InputBids(out) == bids
      && InputMessageId(out) == msgid
  {
    BidCodec();
    ParseTaggedEmit(EncodeBid, DecodeBid, BID_SIZE, bids, msgid);
    FlattenOne(IntField(msgid));
    EmitRecordsFits(EncodeBid, DecodeBid, BID_SIZE, bids, [IntField(msgid)], BID_SIZE * |bids| + INT_SIZE);
    var out := EmitRecords(EncodeBid, bids, [IntField(msgid)], BID_SIZE * |bids| + INT_SIZE).value;
    ConcatLength(EncodeBid, DecodeBid, BID_SIZE, bids);
    assert out.bytes[..out.Size() - INT_SIZE] == Concat(EncodeBid, bids);
    DecodeConcat(EncodeBid, DecodeBid, BID_SIZE, bids);
    Int32RoundTrip(msgid);
  }

  // ---------------------------------------------------------------------
  // Bid filter (flow-wrapping variant)

  /** A run of records, a wrapper unit, then the message id. */
  function ParseUnitTagged<T>(dec: seq<uint8> -> T, S: nat, m: Message): (r: Result<(int32, WrapperUnit, seq<T>)>)
    requires S > 0
    ensures r.Err? <==> m.Size() < INT_SIZE + WRAPPER_UNIT_SIZE
  {
    var (msgid, m1) :- UnwrapInt(m);
    var (unit, m2) :- Unwrap(WRAPPER_UNIT_SIZE, m1);
    Ok((msgid, DecodeWrapperUnit(unit), DecodeArray(dec, S, m2.bytes)))
  }

  /**
   * The flow-wrapping filter unwraps the message id and then the unit,
   * and wraps the bids, the unchanged unit and the message id into a
   * message twelve bytes larger.
   */
  function FwBidFilterStep(d: Deployment, m: Message): Result<(Message, seq<Outgoing>)> {
    var (msgid, wu, events) :- ParseUnitTagged(DecodeEvent, EVENT_SIZE, m);
    FwForwardBids(d, msgid, wu, SelectBids(events))
  }

  function FwForwardBids(d: Deployment, msgid: int32, wu: WrapperUnit, bids: seq<Bid>)
    : Result<(Message, seq<Outgoing>)>
  {
    var out :- EmitRecords(EncodeBid, bids, [EncodeWrapperUnit(wu), IntField(msgid)],
                           BID_SIZE * |bids| + INT_SIZE + WRAPPER_UNIT_SIZE);
    Ok((out, SameRank(d, out)))
  }

  /** Forwarding never fails and keeps the unit and the message id next to the bids. */
  lemma FwForwardBidsSpec(d: Deployment, msgid: int32, wu: WrapperUnit, bids: seq<Bid>)
    ensures FwForwardBids(d, msgid, wu, bids).Ok?
    ensures var (out, outs) := FwForwardBids(d, msgid, wu, bids).value;
      && SentToSameRank(d, outs, out)
      && ParseUnitTagged(DecodeBid, BID_SIZE, out) == Ok((msgid, wu, bids))
      && INT_SIZE + WRAPPER_UNIT_SIZE <= out.Size()
      && FwInputBids(out) == bids
  {
    FwSharderReadsBids(bids, wu, msgid);
    SameRankSent(d, EmitRecords(EncodeBid, bids, [EncodeWrapperUnit(wu), IntField(msgid)],
                                BID_SIZE * |bids| + INT_SIZE + WRAPPER_UNIT_SIZE).value);
  }

  /**
   * The flow-wrapping filter forwards the bid events with the input's
   * unit and message id, in the layout the flow-wrapping sharder reads.
   */
  lemma FwBidFilterSpec(d: Deployment, m: Message)
    ensures FwBidFilterStep(d, m).Err? <==> m.Size() < INT_SIZE + WRAPPER_UNIT_SIZE
    ensures FwBidFilterStep(d, m).Ok? ==>
              var (out, outs) := FwBidFilterStep(d, m).value;
              var (msgid, unit, events) := ParseUnitTagged(DecodeEvent, EVENT_SIZE, m).value;
              && SentToSameRank(d, outs, out)
              && ParseUnitTagged(DecodeBid, BID_SIZE, out) == Ok((msgid, unit, SelectBids(events)))
              && INT_SIZE + WRAPPER_UNIT_SIZE <= out.Size()
              && FwInputBids(out) == SelectBids(events)
  {
    if INT_SIZE + WRAPPER_UNIT_SIZE <= m.Size() {
      var parsed := ParseUnitTagged(DecodeEvent, EVENT_SIZE, m).value;
      FwForwardBidsSpec(d, parsed.0, parsed.1, SelectBids(parsed.2));
    }
  }

  /** The flow-wrapping sharder's view of a filtered message. */
  lemma FwSharderReadsBids(bids: seq<Bid>, wu: WrapperUnit, msgid: int32)
    ensures var fields := [EncodeWrapperUnit(wu), IntField(msgid)];
      && EmitRecords(EncodeBid, bids, fields, BID_SIZE * |bids| + INT_SIZE + WRAPPER_UNIT_SIZE).Ok?
      && var out := EmitRecords(EncodeBid, bids, fields, BID_SIZE * |bids| + INT_SIZE + WRAPPER_UNIT_SIZE).value;
      && ParseUnitTagged(DecodeBid, BID_SIZE, out) == Ok((msgid, wu, bids))
      && INT_SIZE + WRAPPER_UNIT_SIZE <= out.Size()
      && FwInputBids(out) == bids
  {
    var fields := [EncodeWrapperUnit(wu), IntField(msgid)];
    var capacity := BID_SIZE * |bids| + INT_SIZE + WRAPPER_UNIT_SIZE;
    BidCodec();
    FlattenTwo(EncodeWrapperUnit(wu), IntField(msgid));
    EmitRecordsFits(EncodeBid, DecodeBid, BID_SIZE, bids, fields, capacity);
    ConcatLength(EncodeBid, DecodeBid, BID_SIZE, bids);
    var body := Concat(EncodeBid, bids);
    assert body + Flatten(fields) == body + EncodeWrapperUnit(wu) + IntField(msgid);
    ReadUnitTaggedBids(bids, wu, msgid, capacity);
  }

  /** A run of bids under a unit and a message id reads back as written. */
  lemma ReadUnitTaggedBids(bids: seq<Bid>, wu: WrapperUnit, msgid: int32, capacity: nat)
    requires |Concat(EncodeBid, bids)| == BID_SIZE * |bids|
    ensures var out := Message(capacity, Concat(EncodeBid, bids) + EncodeWrapperUnit(wu) + IntField(msgid));
      && ParseUnitTagged(DecodeBid, BID_SIZE, out) == Ok((msgid, wu, bids))
      && FwInputBids(out) == bids
  {
    var body := Concat(EncodeBid, bids);
    var m2 := Message(capacity, body);
    var m1 := Message(capacity, body + EncodeWrapperUnit(wu));
    var out := Message(capacity, m1.bytes + IntField(msgid));
    Int32RoundTrip(msgid);
    assert UnwrapInt(out) == Ok((msgid, m1));
    assert Unwrap(WRAPPER_UNIT_SIZE, m1) == Ok((EncodeWrapperUnit(wu), m2));
    WrapperUnitCodec();
    BidCodec();
    DecodeConcat(EncodeBid, DecodeBid, BID_SIZE, bids);
    assert out.bytes[..out.Size() - INT_SIZE - WRAPPER_UNIT_SIZE] == body;
  }

  // ---------------------------------------------------------------------
  // Persons filter

  /**
   * `processInputMessage`: unwrap the message id and the timestamp, keep
   * the person events, wrap the persons, the timestamp and the message id
   * into a message sized `sizeof(Person) * n + 2 * sizeof(int)`.
   */
  function PersonsFilterStep(d: Deployment, m: Message): Result<(Message, seq<Outgoing>)> {
    var (msgid, timestamp, events) :- ParseStamped(DecodeEvent, EVENT_SIZE, m);
    ForwardPersons(d, msgid, timestamp, SelectPersons(events))
  }

  function ForwardPersons(d: Deployment, msgid: int32, timestamp: int32, persons: seq<Person>)
    : Result<(Message, seq<Outgoing>)>
  {
    var out :- EmitRecords(EncodePerson, persons, [IntField(timestamp), IntField(msgid)],
                           PERSON_SIZE * |persons| + 2 * INT_SIZE);
    Ok((out, SameRank(d, out)))
  }

  /** Forwarding never fails and keeps the timestamp and the message id on top of the persons. */
  lemma ForwardPersonsSpec(d: Deployment, msgid: int32, timestamp: int32, persons: seq<Person>)
    ensures ForwardPersons(d, msgid, timestamp, persons).Ok?
    ensures var (out, outs) := ForwardPersons(d, msgid, timestamp, persons).value;
      && SentToSameRank(d, outs, out)
      && ParseStamped(DecodePerson, PERSON_SIZE, out) == Ok((msgid, timestamp, persons))
  {
    PersonCodec();
    ParseStampedEmit(EncodePerson, DecodePerson, PERSON_SIZE, persons, timestamp, msgid);
    var out := EmitRecords(EncodePerson, persons, [IntField(timestamp), IntField(msgid)],
                           PERSON_SIZE * |persons| + 2 * INT_SIZE).value;
    assert ForwardPersons(d, msgid, timestamp, persons) == Ok((out, SameRank(d, out)));
    SameRankSent(d, out);
  }

  /**
   * The persons filter forwards the person events with the input's
   * timestamp and message id, to every next operator on this rank.
   */
  lemma PersonsFilterSpec(d: Deployment, m: Message)
    ensures PersonsFilterStep(d, m).Err? <==> m.Size() < 2 * INT_SIZE
    ensures PersonsFilterStep(d, m).Ok? ==>
              var (out, outs) := PersonsFilterStep(d, m).value;
              var (msgid, timestamp, events) := ParseStamped(DecodeEvent, EVENT_SIZE, m).value;
              && SentToSameRank(d, outs, out)
              && ParseStamped(DecodePerson, PERSON_SIZE, out) == Ok((msgid, timestamp, SelectPersons(events)))
  {
    if 2 * INT_SIZE <= m.Size() {
      var parsed := ParseStamped(DecodeEvent, EVENT_SIZE, m).value;
      ForwardPersonsSpec(d, parsed.0, parsed.1, SelectPersons(parsed.2));
    }
  }
}
