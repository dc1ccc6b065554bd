/**
 * The SCB generator under flow wrapping.  Each message also carries a
 * wrapper unit worth `1 / (window_duration * PER_SEC_MSG_COUNT * worldSize)`
 * of its window.  After the delays, the messages of one second are dealt
 * into `PER_SEC_MSG_COUNT` buckets and each non-empty bucket is sent as one
 * concatenated message that keeps all the units of its parts.
 */
module ScbFwGenerator {
  import opened Bytes
  import opened Faults
  import opened Serialization
  import opened Codec
  import opened Records
  import opened Topology
  import opened ScbGenerator

  /** `increaseHeaderSize(sizeof(WrapperUnit))`: baseline, message id and one unit. */
  const FW_HEADER_SIZE: nat := SCB_HEADER_SIZE + WRAPPER_UNIT_SIZE

  /** The flow-wrapping baseline tag, `'w'`. */
  const FW_BASELINE: uint8 := 119

  /**
   * The unit of every message of an iteration: its window, numerator 1,
   * and `window_duration * PER_SEC_MSG_COUNT * worldSize` computed in
   * `unsigned int` and stored in an `int`.
   */
  function FwUnit(d: Deployment, iteration: nat): WrapperUnit {
    WrapperUnit(WindowId(iteration), 1, ToInt32((SCB_WINDOW_DURATION * d.perSecMsgCount * d.worldSize) % TWO32))
  }

  /** `wrap<WrapperUnit>` on a message with room for it. */
  function WithUnit(u: WrapperUnit, m: Message): (m': Message)
    requires m.Size() + WRAPPER_UNIT_SIZE <= m.capacity
    ensures Wrap(EncodeWrapperUnit(u), m) == Ok(m')
    ensures m'.capacity == m.capacity && m'.bytes == m.bytes + EncodeWrapperUnit(u)
  {
    Wrap(EncodeWrapperUnit(u), m).value
  }

  /**
   * `generateMessages`: the count variant's messages, made with the larger
   * header and the `'w'` baseline, each closed by the iteration's unit.
   * Every message fills its buffer exactly.
   */
  function FwGenerateMessages(d: Deployment, iteration: nat, quantity: nat, draw: (nat, nat) -> int32)
    : (out: seq<OutputData>)
    ensures |out| == quantity
    ensures forall i :: 0 <= i < quantity ==> out[i].dest == [SCB_AGGREGATOR_RANK]
    ensures forall i :: 0 <= i < quantity ==>
              && out[i].msg.Wf() && out[i].msg.Size() == out[i].msg.capacity
              && out[i].msg.Size() == EVENTS_PER_MESSAGE * SCB_EVENT_SIZE + FW_HEADER_SIZE
  {
    var base := GenerateMessages(d, FW_HEADER_SIZE, FW_BASELINE, iteration, quantity, draw);
    seq(quantity, i requires 0 <= i < quantity => OutputData(WithUnit(FwUnit(d, iteration), base[i].msg), base[i].dest))
  }

  /**
   * A generated message gives back the iteration's unit first, and then
   * reads as a count-variant message with the `'w'` baseline.
   */
  lemma FwGeneratedMessageParses(d: Deployment, iteration: nat, quantity: nat, draw: (nat, nat) -> int32, i: nat)
    requires i < quantity
    ensures var m := FwGenerateMessages(d, iteration, quantity, draw)[i].msg;
      && Unwrap(WRAPPER_UNIT_SIZE, m).Ok?
      && var (ub, rest) := Unwrap(WRAPPER_UNIT_SIZE, m).value;
      && DecodeWrapperUnit(ub) == FwUnit(d, iteration)
      && ParseScbMessage(rest).Ok?
      && var (id, b, events) := ParseScbMessage(rest).value;
      && id == MessageId(d, iteration, quantity, i)
      && b == FW_BASELINE
      && |events| == EVENTS_PER_MESSAGE
      && forall j :: 0 <= j < EVENTS_PER_MESSAGE ==> events[j] == ScbEvent(WindowId(iteration), draw(i, j))
  {
    var base := GenerateMessages(d, FW_HEADER_SIZE, FW_BASELINE, iteration, quantity, draw);
    UnwrapAfterWrap(EncodeWrapperUnit(FwUnit(d, iteration)), base[i].msg);
    WrapperUnitCodec();
    GeneratedMessageParses(d, FW_HEADER_SIZE, FW_BASELINE, iteration, quantity, draw, i);
  }

  // ---------------------------------------------------------------------
  // Buckets

  /**
   * `splitter[i % PER_SEC_MSG_COUNT].push_back(tmp[i])` for every `i` in
   * order.
   */
  function Split<T>(xs: seq<T>, buckets: nat): (b: seq<seq<T>>)
    requires buckets > 0
    ensures |b| == buckets
    decreases |xs|
  {
    if xs == [] then seq(buckets, _ => [])
    else
      var n := |xs| - 1;
      var b := Split(xs[..n], buckets);
      b[n % buckets := b[n % buckets] + [xs[n]]]
  }

  /** How many of the positions `0 .. n - 1` are congruent to `k`. */
  function BucketSize(n: nat, buckets: nat, k: nat): nat
    requires k < buckets
  {
    (n + buckets - 1 - k) / buckets
  }

  /** Adding position `n` grows its own bucket by one, at index `n / buckets`, and no other. */
  lemma BucketSizeStep(n: nat, buckets: nat, k: nat)
    requires k < buckets
    ensures BucketSize(n + 1, buckets, k) == BucketSize(n, buckets, k) + (if n % buckets == k then 1 else 0)
    ensures n % buckets == k ==> k + BucketSize(n, buckets, k) * buckets == n
  {
    var q, r := n / buckets, n % buckets;
    assert n == buckets * q + r;
    if r == k {
      BucketSizeAt(n, buckets, k, q);
    } else {
      BucketSizeOff(n, buckets, k, q, r);
    }
  }

  /** Position `n` is the `q`-th of bucket `k`. */
  lemma BucketSizeAt(n: nat, buckets: nat, k: nat, q: int)
    requires k < buckets && n == buckets * q + k
    ensures BucketSize(n, buckets, k) == q && BucketSize(n + 1, buckets, k) == q + 1
  {
    DivUnique(n + buckets - 1 - k, buckets, q, buckets - 1);
    DivUnique(n + buckets - k, buckets, q + 1, 0);
  }

  /** Position `n` lies in another bucket than `k`. */
  lemma BucketSizeOff(n: nat, buckets: nat, k: nat, q: int, r: nat)
    requires k < buckets && r < buckets && r != k && n == buckets * q + r
    ensures BucketSize(n + 1, buckets, k) == BucketSize(n, buckets, k)
  {
    if k < r {
      DivUnique(n + buckets - 1 - k, buckets, q + 1, r - k - 1);
      DivUnique(n + buckets - k, buckets, q + 1, r - k);
    } else {
      DivUnique(n + buckets - 1 - k, buckets, q, buckets + r - k - 1);
      DivUnique(n + buckets - k, buckets, q, buckets + r - k);
    }
  }

  /** Bucket `k` of a round-robin deal of `n` elements holds the positions congruent to `k`. */
  ghost predicate DealtSizes<T>(b: seq<seq<T>>, n: nat, buckets: nat)
    requires buckets > 0 && |b| == buckets
  {
    forall k :: 0 <= k < buckets ==> |b[k]| == BucketSize(n, buckets, k)
  }

  /** The input position dealt as the `j`-th element of bucket `k`. */
  function DealPos(k: nat, j: nat, buckets: nat): nat {
    k + j * buckets
  }

  /** The `j`-th element of bucket `k` is `xs[k + j * buckets]`. */
  ghost predicate DealtElems<T>(b: seq<seq<T>>, xs: seq<T>, buckets: nat)
    requires |b| == buckets
  {
    forall k, j :: 0 <= k < buckets && 0 <= j < |b[k]| ==>
      DealPos(k, j, buckets) < |xs| && b[k][j] == xs[DealPos(k, j, buckets)]
  }

  /** Dealing `xs` round-robin into `buckets` buckets. */
  ghost predicate Dealt<T>(xs: seq<T>, buckets: nat)
    requires buckets > 0
  {
    DealtSizes(Split(xs, buckets), |xs|, buckets) && DealtElems(Split(xs, buckets), xs, buckets)
  }

  /**
   * Bucket `k` holds, in order, exactly the elements at positions
   * `k, k + buckets, k + 2 * buckets, ...` of the input.
   */
  lemma {:induction false} SplitSpec<T>(xs: seq<T>, buckets: nat)
    requires buckets > 0
    ensures Dealt(xs, buckets)
    decreases |xs|
  {
    if xs == [] {
      SplitEmpty(xs, buckets);
    } else {
      var n := |xs| - 1;
      var b0 := Split(xs[..n], buckets);
      var b := Split(xs, buckets);
      SplitSpec(xs[..n], buckets);
      assert b == b0[n % buckets := b0[n % buckets] + [xs[n]]];
      SizesStep(b0, xs[n], n, buckets);
      ElemsStep(b0, xs, buckets);
    }
  }

  lemma SplitEmpty<T>(xs: seq<T>, buckets: nat)
    requires buckets > 0 && xs == []
    ensures Dealt(xs, buckets)
  {
    forall k | 0 <= k < buckets ensures |Split(xs, buckets)[k]| == BucketSize(0, buckets, k) {
      DivUnique(buckets - 1 - k, buckets, 0, buckets - 1 - k);
    }
  }

  lemma SizesStep<T>(b0: seq<seq<T>>, x: T, n: nat, buckets: nat)
    requires buckets > 0 && |b0| == buckets && DealtSizes(b0, n, buckets)
    ensures DealtSizes(b0[n % buckets := b0[n % buckets] + [x]], n + 1, buckets)
  {
    var b := b0[n % buckets := b0[n % buckets] + [x]];
    forall k | 0 <= k < buckets ensures |b[k]| == BucketSize(n + 1, buckets, k) {
      BucketSizeStep(n, buckets, k);
    }
  }

  lemma ElemsStep<T>(b0: seq<seq<T>>, xs: seq<T>, buckets: nat)
    requires buckets > 0 && xs != [] && |b0| == buckets
    requires DealtSizes(b0, |xs| - 1, buckets) && DealtElems(b0, xs[..|xs| - 1], buckets)
    ensures var n := |xs| - 1;
      DealtElems(b0[n % buckets := b0[n % buckets] + [xs[n]]], xs, buckets)
  {
    var n := |xs| - 1;
    var b := b0[n % buckets := b0[n % buckets] + [xs[n]]];
    forall k, j | 0 <= k < buckets && 0 <= j < |b[k]|
      ensures DealPos(k, j, buckets) < |xs| && b[k][j] == xs[DealPos(k, j, buckets)]
    {
      ElemAt(b0, xs, buckets, k, j);
    }
  }

  /** One element of the deal after the last one was added. */
  lemma ElemAt<T>(b0: seq<seq<T>>, xs: seq<T>, buckets: nat, k: nat, j: nat)
    requires buckets > 0 && xs != [] && |b0| == buckets && k < buckets
    requires DealtSizes(b0, |xs| - 1, buckets) && DealtElems(b0, xs[..|xs| - 1], buckets)
    requires var n := |xs| - 1; j < |b0[n % buckets := b0[n % buckets] + [xs[n]]][k]|
    ensures var n := |xs| - 1;
      DealPos(k, j, buckets) < |xs| && b0[n % buckets := b0[n % buckets] + [xs[n]]][k][j] == xs[DealPos(k, j, buckets)]
  {
    var n := |xs| - 1;
    var b := b0[n % buckets := b0[n % buckets] + [xs[n]]];
    if j < |b0[k]| {
      assert b[k][j] == b0[k][j];
      assert xs[..n][DealPos(k, j, buckets)] == xs[DealPos(k, j, buckets)];
    } else {
      assert k == n % buckets && j == |b0[k]| && b[k][j] == xs[n];
      DealtLast(n, buckets, |b0[k]|);
    }
  }

  /** The element dealt last, at position `n`, is the next of its bucket. */
  lemma DealtLast(n: nat, buckets: nat, size: nat)
    requires buckets > 0 && size == BucketSize(n, buckets, n % buckets)
    ensures n % buckets + size * buckets == n
  {
    BucketSizeAt(n, buckets, n % buckets, n / buckets);
  }

  /** A bucket is non-empty exactly when its index is below the number of elements. */
  lemma BucketNonEmpty(n: nat, buckets: nat, k: nat)
    requires k < buckets
    ensures BucketSize(n, buckets, k) > 0 <==> k < n
  {
    if k < n {
      DivLowerBound(n + buckets - 1 - k, buckets);
    } else {
      DivUnique(n + buckets - 1 - k, buckets, 0, n + buckets - 1 - k);
    }
  }

  lemma DivLowerBound(a: nat, b: nat)
    requires 0 < b <= a
    ensures a / b >= 1
  {
    DivUnique(a, b, a / b, a % b);
  }

  // ---------------------------------------------------------------------
  // Concatenation

  /** Every message still carries its full header. */
  predicate HasHeaders(ms: seq<OutputData>) {
    forall i :: 0 <= i < |ms| ==> FW_HEADER_SIZE <= ms[i].msg.Size()
  }

  /** The events of a message: everything below its header. */
  function Content(m: Message): seq<uint8>
    requires FW_HEADER_SIZE <= m.Size()
  {
    m.bytes[..m.Size() - FW_HEADER_SIZE]
  }

  function Contents(ms: seq<OutputData>): (cs: seq<seq<uint8>>)
    requires HasHeaders(ms)
    ensures |cs| == |ms| && forall i :: 0 <= i < |ms| ==> cs[i] == Content(ms[i].msg)
  {
    seq(|ms|, i requires 0 <= i < |ms| => Content(ms[i].msg))
  }

  /** The baseline of a message, under its id. */
  function BaselineOf(m: Message): uint8
    requires FW_HEADER_SIZE <= m.Size()
  {
    m.bytes[m.Size() - FW_HEADER_SIZE]
  }

  /** The message id of a message, under its unit. */
  function IdOf(m: Message): int32
    requires FW_HEADER_SIZE <= m.Size()
  {
    IntAt(m.bytes, m.Size() - WRAPPER_UNIT_SIZE - INT_SIZE)
  }

  /** The unit at the end of a message. */
  function UnitOf(m: Message): WrapperUnit
    requires WRAPPER_UNIT_SIZE <= m.Size()
  {
    DecodeWrapperUnit(m.bytes[m.Size() - WRAPPER_UNIT_SIZE..])
  }

  function Units(ms: seq<OutputData>): (us: seq<WrapperUnit>)
    requires HasHeaders(ms)
    ensures |us| == |ms| && forall i :: 0 <= i < |ms| ==> us[i] == UnitOf(ms[i].msg)
  {
    seq(|ms|, i requires 0 <= i < |ms| => UnitOf(ms[i].msg))
  }

  function UnitImages(us: seq<WrapperUnit>): (bs: seq<seq<uint8>>)
    ensures |bs| == |us| && forall i :: 0 <= i < |us| ==> bs[i] == EncodeWrapperUnit(us[i]) && |bs[i]| == WRAPPER_UNIT_SIZE
  {
    seq(|us|, i requires 0 <= i < |us| => EncodeWrapperUnit(us[i]))
  }

  /** `size += input[i].first->size - getHeaderSize()` over all inputs. */
  function ContentSize(ms: seq<OutputData>): (n: nat)
    requires HasHeaders(ms)
    decreases |ms|
  {
    if ms == [] then 0 else ms[0].msg.Size() - FW_HEADER_SIZE + ContentSize(ms[1..])
  }

  lemma {:induction false} ContentSizeFlatten(ms: seq<OutputData>)
    requires HasHeaders(ms)
    ensures ContentSize(ms) == |Flatten(Contents(ms))|
    decreases |ms|
  {
    if ms != [] {
      ContentSizeFlatten(ms[1..]);
      assert Contents(ms)[1..] == Contents(ms[1..]);
    }
  }

  /**
   * `Serialization::append(dest, src, offset)`: the bytes of `src` below
   * its top `offset` bytes, added at the end of `dest` when they fit.  The
   * body of `append` is not part of this model.
   */
  function Append(dest: Message, src: Message, offset: nat): Result<Message>
    requires offset <= src.Size()
  {
    Wrap(src.bytes[..src.Size() - offset], dest)
  }

  /** The contents of every input, appended in order. */
  function AppendAll(out: Message, ms: seq<OutputData>): Result<Message>
    requires HasHeaders(ms)
    decreases |ms|
  {
    if ms == [] then Ok(out)
    else
      var o :- Append(out, ms[0].msg, FW_HEADER_SIZE);
      AppendAll(o, ms[1..])
  }

  lemma {:induction false} AppendAllWraps(out: Message, ms: seq<OutputData>)
    requires HasHeaders(ms)
    ensures AppendAll(out, ms) == WrapAll(Contents(ms), out)
    decreases |ms|
  {
    if ms != [] {
      assert Contents(ms)[0] == Content(ms[0].msg);
      assert Contents(ms)[1..] == Contents(ms[1..]);
      if Append(out, ms[0].msg, FW_HEADER_SIZE).Ok? {
        AppendAllWraps(Append(out, ms[0].msg, FW_HEADER_SIZE).value, ms[1..]);
      }
    }
  }

  /**
   * `concatenate`: an empty input throws.  Otherwise a message sized for
   * the contents, one unit per input beyond the first, and a count; the
   * contents in order; then the first input's baseline and id, every
   * input's unit in order, and the number of units.
   */
  function Concatenate(ms: seq<OutputData>): (r: Result<OutputData>)
    requires HasHeaders(ms)
  {
    if ms == [] then Err(EmptyConcatenation)
    else
      var filled :- AppendAll(NewMessage(ConcatCapacity(ms)), ms);
      var units := Units(ms);
      var first := Unwrap(WRAPPER_UNIT_SIZE, ms[0].msg).value.1;
      var id :- ReadBackInt(first, 0);
      var baseline :- ReadBackChar(first, INT_SIZE);
      var m1 :- WrapChar(baseline, filled);
      var m2 :- WrapInt(id, m1);
      var m3 :- WrapAll(UnitImages(units), m2);
      var m4 :- WrapInt(|units|, m3);
      Ok(OutputData(m4, [0]))
  }

  /** The header of the first input, as `readMessageID` and `readBaseline` see it once its unit is gone. */
  lemma FirstHeader(m: Message)
    requires FW_HEADER_SIZE <= m.Size()
    ensures var first := Unwrap(WRAPPER_UNIT_SIZE, m).value.1;
      && ReadBackInt(first, 0) == Ok(IdOf(m))
      && ReadBackChar(first, INT_SIZE) == Ok(BaselineOf(m))
  {
    var first := Unwrap(WRAPPER_UNIT_SIZE, m).value.1;
    var s := m.Size();
    assert first.bytes[s - 16..s - 12] == m.bytes[s - 16..s - 12];
  }

  /** The concatenated message: contents, then baseline, id, units and count, filling its buffer exactly. */
  function Layout(ms: seq<OutputData>): seq<uint8>
    requires HasHeaders(ms) && ms != []
  {
    Flatten(Contents(ms)) + [BaselineOf(ms[0].msg)] + IntField(IdOf(ms[0].msg))
      + Flatten(UnitImages(Units(ms))) + EncodeInt32(|ms|)
  }

  /** The size `concatenate` allocates. */
  function ConcatCapacity(ms: seq<OutputData>): nat
    requires HasHeaders(ms) && ms != []
  {
    ContentSize(ms) + WRAPPER_UNIT_SIZE * (|ms| - 1) + INT_SIZE + FW_HEADER_SIZE
  }

  /** Appending every input's contents fits in the allocated message. */
  lemma AppendAllFits(ms: seq<OutputData>)
    requires HasHeaders(ms) && ms != []
    ensures AppendAll(NewMessage(ConcatCapacity(ms)), ms) == Ok(Message(ConcatCapacity(ms), Flatten(Contents(ms))))
  {
    var out := NewMessage(ConcatCapacity(ms));
    ContentSizeFlatten(ms);
    AppendAllWraps(out, ms);
    WrapAllSpec(Contents(ms), out);
    assert out.bytes + Flatten(Contents(ms)) == Flatten(Contents(ms));
  }

  /** The trailer — baseline, id, unit images, count — fits exactly on top of what is below it. */
  lemma WrapTrailer(below: seq<uint8>, b: uint8, id: int32, images: seq<seq<uint8>>, capacity: nat)
    requires forall i :: 0 <= i < |images| ==> |images[i]| == WRAPPER_UNIT_SIZE
    requires capacity == |below| + CHAR_SIZE + INT_SIZE + WRAPPER_UNIT_SIZE * |images| + INT_SIZE
    ensures var filled := Message(capacity, below);
      && WrapChar(b, filled).Ok?
      && WrapInt(id, WrapChar(b, filled).value).Ok?
      && WrapAll(images, WrapInt(id, WrapChar(b, filled).value).value).Ok?
      && WrapInt(|images|, WrapAll(images, WrapInt(id, WrapChar(b, filled).value).value).value)
         == Ok(Message(capacity, below + [b] + IntField(id) + Flatten(images) + EncodeInt32(|images|)))
  {
    var filled := Message(capacity, below);
    var m1 := Message(capacity, below + [b]);
    assert WrapChar(b, filled) == Ok(m1);
    var m2 := Message(capacity, m1.bytes + IntField(id));
    assert WrapInt(id, m1) == Ok(m2);
    FlattenLength(images, WRAPPER_UNIT_SIZE);
    WrapAllSpec(images, m2);
    var m3 := Message(capacity, m2.bytes + Flatten(images));
    assert WrapAll(images, m2) == Ok(m3);
    assert WrapInt(|images|, m3) == Ok(Message(capacity, m3.bytes + EncodeInt32(|images|)));
  }

  /**
   * `concatenate` throws exactly on an empty input; otherwise it fills its
   * buffer exactly with the contents in order followed by the first
   * input's baseline and id, every input's unit and the unit count.
   */
  lemma ConcatenateSpec(ms: seq<OutputData>)
    requires HasHeaders(ms)
    ensures Concatenate(ms).Err? <==> ms == []
    ensures Concatenate(ms).Err? ==> Concatenate(ms).fault == EmptyConcatenation
    ensures Concatenate(ms).Ok? ==>
              var o := Concatenate(ms).value;
              && o.dest == [0]
              && o.msg.Wf() && o.msg.Size() == o.msg.capacity
              && o.msg.bytes == Layout(ms)
  {
    if ms != [] {
      AppendAllFits(ms);
      FirstHeader(ms[0].msg);
      ContentSizeFlatten(ms);
      FlattenLength(UnitImages(Units(ms)), WRAPPER_UNIT_SIZE);
      WrapTrailer(Flatten(Contents(ms)), BaselineOf(ms[0].msg), IdOf(ms[0].msg), UnitImages(Units(ms)),
                  ConcatCapacity(ms));
    }
  }

  /**
   * How a reader takes a concatenated message apart: the unit count, the
   * units (returned in the order they were wrapped), the id, the baseline,
   * and the contents left in front.
   */
  function ParseConcatenated(m: Message): Result<(seq<WrapperUnit>, int32, uint8, seq<uint8>)> {
    var (n, m1) :- UnwrapInt(m);
    if n < 0 then Err(NegativeUnitCount(n))
    else
      var (images, m2) :- UnwrapAll(n, WRAPPER_UNIT_SIZE, m1);
      var (id, m3) :- UnwrapInt(m2);
      var (b, m4) :- Unwrap(CHAR_SIZE, m3);
      var wrapped := Reverse(images);
      Ok((seq(|wrapped|, i requires 0 <= i < |wrapped| => DecodeWrapperUnit(wrapped[i])), id, b[0], m4.bytes))
  }

  /** Decoding the images of some units, wrapped and then unwrapped, gives the units back in order. */
  lemma DecodeUnwrappedUnits(units: seq<WrapperUnit>)
    ensures var wrapped := Reverse(Reverse(UnitImages(units)));
      seq(|wrapped|, i requires 0 <= i < |wrapped| => DecodeWrapperUnit(wrapped[i])) == units
  {
    WrapperUnitCodec();
    var wrapped := Reverse(Reverse(UnitImages(units)));
    forall i | 0 <= i < |units| ensures DecodeWrapperUnit(wrapped[i]) == units[i] {
      assert wrapped[i] == EncodeWrapperUnit(units[i]);
    }
  }

  /** The trailer of a concatenation reads back as written, leaving the contents. */
  lemma ParseTrailer(contents: seq<uint8>, b: uint8, id: int32, units: seq<WrapperUnit>, capacity: nat)
    requires |units| < 0x8000_0000
    ensures ParseConcatenated(Message(capacity, contents + [b] + IntField(id) + Flatten(UnitImages(units))
                                               + EncodeInt32(|units|)))
            == Ok((units, id, b, contents))
  {
    var images := UnitImages(units);
    var m1 := Message(capacity, contents + [b]);
    var m2 := Message(capacity, m1.bytes + IntField(id));
    var m3 := Message(capacity, m2.bytes + Flatten(images));
    var o := Message(capacity, m3.bytes + EncodeInt32(|units|));
    Int32RoundTrip(|units|);
    assert UnwrapInt(o) == Ok((|units| as int32, m3));
    UnwrapAllFlatten(images, WRAPPER_UNIT_SIZE, m2);
    assert UnwrapAll(|units|, WRAPPER_UNIT_SIZE, m3) == Ok((Reverse(images), m2));
    Int32RoundTrip(id);
    assert UnwrapInt(m2) == Ok((id, m1));
    assert Unwrap(CHAR_SIZE, m1) == Ok(([b], Message(capacity, contents)));
    DecodeUnwrappedUnits(units);
  }

  /**
   * Reading a concatenation gives back every input's unit in input order,
   * the first input's id and baseline, and the inputs' contents in order.
   */
  lemma ConcatenateParses(ms: seq<OutputData>)
    requires HasHeaders(ms) && ms != [] && |ms| < 0x8000_0000
    ensures Concatenate(ms).Ok?
    ensures ParseConcatenated(Concatenate(ms).value.msg)
            == Ok((Units(ms), IdOf(ms[0].msg), BaselineOf(ms[0].msg), Flatten(Contents(ms))))
  {
    ConcatenateSpec(ms);
    var o := Concatenate(ms).value.msg;
    assert o == Message(o.capacity, Layout(ms));
    ParseTrailer(Flatten(Contents(ms)), BaselineOf(ms[0].msg), IdOf(ms[0].msg), Units(ms), o.capacity);
  }

  // ---------------------------------------------------------------------
  // Delay and bucketing

  /** `concatenate` on every non-empty bucket, in bucket order. */
  function ConcatBuckets(bs: seq<seq<OutputData>>): (out: seq<OutputData>)
    requires forall k :: 0 <= k < |bs| ==> HasHeaders(bs[k])
    decreases |bs|
  {
    if bs == [] then []
    else
      var rest := ConcatBuckets(bs[1..]);
      if bs[0] == [] then rest
      else
        ConcatenateSpec(bs[0]);
        [Concatenate(bs[0]).value] + rest
  }

  /** When the non-empty buckets come first, they are the first `m`, concatenated one by one. */
  lemma {:induction false} ConcatBucketsPrefix(bs: seq<seq<OutputData>>, m: nat)
    requires forall k :: 0 <= k < |bs| ==> HasHeaders(bs[k])
    requires m <= |bs| && forall k :: 0 <= k < |bs| ==> (bs[k] != [] <==> k < m)
    ensures |ConcatBuckets(bs)| == m
    ensures forall k :: 0 <= k < m ==> Concatenate(bs[k]) == Ok(ConcatBuckets(bs)[k])
    decreases |bs|
  {
    if bs != [] {
      var tail := bs[1..];
      if m == 0 {
        assert bs[0] == [];
        ConcatBucketsPrefix(tail, 0);
      } else {
        ConcatBucketsPrefix(tail, m - 1);
        ConcatenateSpec(bs[0]);
        forall k | 0 <= k < m ensures Concatenate(bs[k]) == Ok(ConcatBuckets(bs)[k]) {
          if k > 0 {
            assert bs[k] == tail[k - 1];
          }
        }
      }
    }
  }

  /** A queue whose every waiting message still carries its header. */
  predicate QueueHasHeaders(queue: seq<seq<OutputData>>) {
    forall k :: 0 <= k < |queue| ==> HasHeaders(queue[k])
  }

  /** What `delay` of the count variant lets through keeps the headers of its inputs. */
  lemma DelayedHaveHeaders(queue: seq<seq<OutputData>>, input: seq<OutputData>, lottery: seq<int>, delays: seq<int>)
    requires |lottery| == |input|
    requires |delays| == |Indexes(lottery, false)| && DelaysInRange(delays)
    requires HasHeaders(input) && QueueHasHeaders(queue)
    ensures HasHeaders(Delay(queue, input, lottery, delays).out)
  {
    DelayOutput(queue, input, lottery, delays);
    var out := Delay(queue, input, lottery, delays).out;
    var keep := Indexes(lottery, true);
    forall i | 0 <= i < |out| ensures FW_HEADER_SIZE <= out[i].msg.Size() {
      if i >= |keep| {
        assert out[i] == out[|keep|..][i - |keep|];
      }
    }
  }

  lemma BucketsHaveHeaders(xs: seq<OutputData>, buckets: nat)
    requires buckets > 0 && HasHeaders(xs)
    ensures forall k :: 0 <= k < buckets ==> HasHeaders(Split(xs, buckets)[k])
  {
    SplitSpec(xs, buckets);
  }

  /**
   * `delay` of the flow-wrapping variant: the count variant's delay, then
   * the messages it lets through dealt into `PER_SEC_MSG_COUNT` buckets,
   * and one concatenated message per non-empty bucket.
   */
  function FwDelay(d: Deployment, queue: seq<seq<OutputData>>, input: seq<OutputData>,
                   lottery: seq<int>, delays: seq<int>): Delayed<OutputData>
    requires 0 < d.perSecMsgCount
    requires |lottery| == |input|
    requires |delays| == |Indexes(lottery, false)| && DelaysInRange(delays)
    requires HasHeaders(input) && QueueHasHeaders(queue)
  {
    var tmp := Delay(queue, input, lottery, delays);
    DelayedHaveHeaders(queue, input, lottery, delays);
    BucketsHaveHeaders(tmp.out, d.perSecMsgCount);
    Delayed(ConcatBuckets(Split(tmp.out, d.perSecMsgCount)), tmp.queue)
  }

  /**
   * At most `PER_SEC_MSG_COUNT` messages leave per second: one for each
   * non-empty bucket, which are the first `min(n, PER_SEC_MSG_COUNT)` for
   * `n` messages let through, each the concatenation of its bucket; the
   * queue is the count variant's.
   */
  lemma FwDelaySpec(d: Deployment, queue: seq<seq<OutputData>>, input: seq<OutputData>,
                    lottery: seq<int>, delays: seq<int>)
    requires 0 < d.perSecMsgCount
    requires |lottery| == |input|
    requires |delays| == |Indexes(lottery, false)| && DelaysInRange(delays)
    requires HasHeaders(input) && QueueHasHeaders(queue)
    ensures var tmp := Delay(queue, input, lottery, delays);
      var r := FwDelay(d, queue, input, lottery, delays);
      var P := d.perSecMsgCount;
      var buckets := Split(tmp.out, P);
      && r.queue == tmp.queue
      && |r.out| == (if |tmp.out| < P then |tmp.out| else P)
      && (forall k :: 0 <= k < P ==> HasHeaders(buckets[k]))
      && forall k :: 0 <= k < |r.out| ==> buckets[k] != [] && Concatenate(buckets[k]) == Ok(r.out[k])
  {
    var tmp := Delay(queue, input, lottery, delays);
    var P := d.perSecMsgCount;
    DelayedHaveHeaders(queue, input, lottery, delays);
    BucketsHaveHeaders(tmp.out, P);
    var buckets := Split(tmp.out, P);
    SplitSpec(tmp.out, P);
    var m := if |tmp.out| < P then |tmp.out| else P;
    forall k | 0 <= k < P ensures buckets[k] != [] <==> k < m {
      BucketNonEmpty(|tmp.out|, P, k);
    }
    ConcatBucketsPrefix(buckets, m);
  }
}
