/**
 * The header the new-sellers generators put on each event message.  The
 * count variant wraps the send time, then the message id; the
 * flow-wrapping variant adds, after the id, the wrapper unit of the
 * tumbling window the id falls in, so one message contributes `1 / n` of
 * that window, `n` being the number of ids per window.
 *
 * The common NEXMark generator (`nexmark_gen`) is not part of this model;
 * its `initMessage(capacity)` is taken to reserve `capacity` payload bytes
 * plus the message id, and its `addMessageId` to wrap the id as an `int`.
 */
module NewSellersGenerator {
  import opened Bytes
  import opened Faults
  import opened Serialization
  import opened Codec
  import opened Records
  import opened Topology
  import Join

  /** nexmark_gen `initMessage`: payload plus the message id. */
  function GenInitMessage(capacity: nat): Message {
    NewMessage(capacity + INT_SIZE)
  }

  /** nexmark_gen `addMessageId`. */
  function GenAddMessageId(id: int32, m: Message): Result<Message> {
    WrapInt(id, m)
  }

  /** Count variant: room for the send time as well. */
  function InitMessage(capacity: nat): Message {
    GenInitMessage(capacity + INT_SIZE)
  }

  /** Count variant: the send time, `starting_second + iteration_count + 1`, goes under the id. */
  function AddMessageId(id: int32, sendTime: int32, m: Message): Result<Message> {
    var m1 :- WrapInt(sendTime, m);
    GenAddMessageId(id, m1)
  }

  /** Flow wrapping: room for one wrapper unit, since tumbling windows do not overlap. */
  function FwInitMessage(capacity: nat): (m: Message)
    ensures m.Wf() && m.Size() == 0
    ensures m.capacity == capacity + 2 * INT_SIZE + WRAPPER_UNIT_SIZE
  {
    InitMessage(capacity + WRAPPER_UNIT_SIZE)
  }

  /**
   * `worldSize * window_duration * PER_SEC_MSG_COUNT`, an `int` product;
   * the source computes it without overflow checks, so callers need it to
   * fit.
   */
  predicate FwUnitDefined(d: Deployment) {
    d.Valid() && IsInt32(Join.IdsPerWindow(d, NQ8_WINDOW_DURATION))
  }

  /**
   * The unit of message `id`: its tumbling window, numerator 1, and the
   * number of ids per window as denominator.  A non-negative id lands in
   * the window whose id range holds it, the same window the join files
   * the message under.
   */
  function FwUnit(d: Deployment, id: int32): (u: WrapperUnit)
    requires FwUnitDefined(d)
    ensures u.completeness_tag_numerator == 1
    ensures u.completeness_tag_denominator as int == Join.IdsPerWindow(d, NQ8_WINDOW_DURATION)
    ensures 0 <= id ==>
              && 0 <= u.window_start_time
              && u.window_start_time * Join.IdsPerWindow(d, NQ8_WINDOW_DURATION) <= id
              && id < (u.window_start_time + 1) * Join.IdsPerWindow(d, NQ8_WINDOW_DURATION)
  {
    var perWindow := d.worldSize * NQ8_WINDOW_DURATION * d.perSecMsgCount;
    Join.TruncDivInt32(id, perWindow);
    Join.WindowRange(id, perWindow);
    WrapperUnit(TruncDiv(id, perWindow), 1, perWindow)
  }

  /** The unit's window is the join's window of the same message id. */
  lemma FwUnitMatchesJoin(d: Deployment, id: int32)
    requires FwUnitDefined(d)
    ensures FwUnit(d, id).window_start_time == Join.JoinWindowId(d, NQ8_WINDOW_DURATION, id)
  {
    assert d.worldSize * NQ8_WINDOW_DURATION * d.perSecMsgCount == Join.IdsPerWindow(d, NQ8_WINDOW_DURATION);
  }

  /** Flow-wrapping `addMessageId`: the count variant's header, then the unit. */
  function FwAddMessageId(d: Deployment, id: int32, sendTime: int32, m: Message): Result<Message>
    requires FwUnitDefined(d)
  {
    var m1 :- AddMessageId(id, sendTime, m);
    Wrap(EncodeWrapperUnit(FwUnit(d, id)), m1)
  }

  /** Reading the flow-wrapping header back: the unit, the id, the send time, in that order. */
  function ParseFwHeader(m: Message): (r: Result<(WrapperUnit, int32, int32, Message)>)
    ensures r.Err? <==> m.Size() < WRAPPER_UNIT_SIZE + 2 * INT_SIZE
    ensures r.Ok? ==> r.value.3.Size() == m.Size() - WRAPPER_UNIT_SIZE - 2 * INT_SIZE
                      && r.value.3.bytes == m.bytes[..r.value.3.Size()]
  {
    var (ub, m1) :- Unwrap(WRAPPER_UNIT_SIZE, m);
    var (id, m2) :- UnwrapInt(m1);
    var (sendTime, m3) :- UnwrapInt(m2);
    Ok((DecodeWrapperUnit(ub), id, sendTime, m3))
  }

  /**
   * A message built with `FwInitMessage(capacity)` and filled with at most
   * `capacity` payload bytes always has room for the header, and the header
   * reads back as written over the untouched payload.
   */
  lemma FwHeaderRoundTrip(d: Deployment, id: int32, sendTime: int32, capacity: nat, payload: seq<uint8>)
    requires FwUnitDefined(d) && |payload| <= capacity
    ensures var m := FwInitMessage(capacity).(bytes := payload);
      && FwAddMessageId(d, id, sendTime, m).Ok?
      && var out := FwAddMessageId(d, id, sendTime, m).value;
      && out.Wf() && out.capacity == m.capacity
      && out.Size() == |payload| + 2 * INT_SIZE + WRAPPER_UNIT_SIZE
      && ParseFwHeader(out) == Ok((FwUnit(d, id), id, sendTime, m))
  {
    var m := FwInitMessage(capacity).(bytes := payload);
    var m1 := WrapInt(sendTime, m).value;
    var m2 := WrapInt(id, m1).value;
    var u := FwUnit(d, id);
    UnwrapIntAfterWrapInt(sendTime, m);
    UnwrapIntAfterWrapInt(id, m1);
    UnwrapAfterWrap(EncodeWrapperUnit(u), m2);
    WrapperUnitCodec();
    Int32RoundTrip(id);
    Int32RoundTrip(sendTime);
  }
}
