/**
 * The new-sellers collector: it pops the window id and the window's end
 * time off a join result and reads the join outputs laid out in front of
 * them.  Latency bookkeeping and printing are not modelled.
 */
module NewSellersCollector {
  import opened Bytes
  import opened Faults
  import opened Serialization
  import opened Codec
  import opened Payloads
  import opened Records
  import opened Topology
  import opened OrderedMaps
  import opened Selectors
  import opened Join

  /** `processInputMessage`: `unwrap<int>` the window id, then the timestamp, then `getAggregates`. */
  function Collect(m: Message): (r: Result<(int32, int32, seq<JoinOutput>)>)
    ensures r.Err? <==> m.Size() < 2 * INT_SIZE
    ensures r.Err? ==> r.fault == if m.Size() < INT_SIZE then Underflow(m.Size(), INT_SIZE)
                                  else Underflow(m.Size() - INT_SIZE, INT_SIZE)
    ensures r.Ok? ==> |r.value.2| == (m.Size() - 2 * INT_SIZE) / JOIN_OUTPUT_SIZE
  {
    var (wid, m1) :- UnwrapInt(m);
    var (timestamp, m2) :- UnwrapInt(m1);
    Ok((wid, timestamp, DecodeArray(DecodeJoinOutput, JOIN_OUTPUT_SIZE, m2.bytes)))
  }

  /**
   * `getAggregates`: `size / sizeof(JoinOutput)` records read with
   * `read_front` from the front, in message order; the message is left as is.
   */
  method GetAggregates(m: Message) returns (aggregates: seq<JoinOutput>)
    ensures |aggregates| == m.Size() / JOIN_OUTPUT_SIZE
    ensures forall i :: 0 <= i < |aggregates| ==>
              && JOIN_OUTPUT_SIZE * (i + 1) <= m.Size()
              && aggregates[i] == DecodeJoinOutput(m.bytes[JOIN_OUTPUT_SIZE * i..JOIN_OUTPUT_SIZE * (i + 1)])
  {
    aggregates := ReadArray(DecodeJoinOutput, JOIN_OUTPUT_SIZE, m, m.Size() / JOIN_OUTPUT_SIZE);
  }

  /**
   * The collector reads back what the count join sends when its lowest
   * window completes: that window's id, its end time and its joined
   * (auction, seller) pairs.
   */
  lemma CollectJoinResult(d: Deployment, duration: nat, windows: Windows, m: Message, stale: nat -> Name)
    requires d.Valid() && duration > 0
    ensures var o := JoinStep(d, duration, windows, m, stale);
      o.out != [] ==>
        var windows1 := Absorb(d, duration, windows, m).value.1;
        var lo := Least(windows1.Keys);
        Collect(o.out[0].msg) == Ok((lo, windows1[lo].timestamp_end, Aggregates(windows1[lo], stale)))
  {
    JoinStepSpec(d, duration, windows, m, stale);
  }

  /**
   * Under flow wrapping the join result carries a wrapper unit after the
   * window id; once it is removed, the rest reads as in the count variant.
   */
  lemma CollectFwJoinResult(d: Deployment, windows: Windows, c: map<int32, int>, stale: nat -> Name)
    requires windows != map[] && c != map[]
    ensures var o := FwEmit(d, windows, c, stale);
      o.out != [] ==>
        var wlo := Least(windows.Keys);
        && Unwrap(WRAPPER_UNIT_SIZE, o.out[0].msg).Ok?
        && Collect(Unwrap(WRAPPER_UNIT_SIZE, o.out[0].msg).value.1)
           == Ok((wlo, windows[wlo].timestamp_end, Aggregates(windows[wlo], stale)))
  {
    FwEmitSpec(d, windows, c, stale);
  }
}
