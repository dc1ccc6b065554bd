/**
 * Arrays of fixed-size records.
 *
 * Every payload in the engine is a run of records copied one after the
 * other (`wrap<T>` in a loop) and read back with `read_front<T>` at offset
 * `sizeof(T) * i` for `i < size / sizeof(T)`.  `Concat` is the image of
 * such a run and `DecodeArray` is what the reading loop recovers; a codec
 * of width `S` makes the two inverse to each other.
 */
module Codec {
  import opened Bytes
  import opened Faults
  import opened Serialization

  /** `dec` undoes `enc`, and every image is `S` bytes long. */
  ghost predicate IsCodec<T(!new)>(enc: T -> seq<uint8>, dec: seq<uint8> -> T, S: nat) {
    S > 0 && forall x: T :: |enc(x)| == S && dec(enc(x)) == x
  }

  /** The bytes of `xs` written one after the other. */
  function Concat<T>(enc: T -> seq<uint8>, xs: seq<T>): seq<uint8> {
    if xs == [] then [] else enc(xs[0]) + Concat(enc, xs[1..])
  }

  lemma SlotInBounds(S: nat, n: nat, i: nat)
    requires S > 0 && i < n / S
    ensures S * i + S <= n
  {
    MulMono(S, i + 1, n / S);
    assert S * (i + 1) == S * i + S;
    assert n == S * (n / S) + n % S;
  }

  /** The `i`-th record-sized slot of `bs`. */
  function Slot(bs: seq<uint8>, S: nat, i: nat): (s: seq<uint8>)
    requires S > 0 && i < |bs| / S
    ensures S * i + S <= |bs| && s == bs[S * i..S * i + S]
  {
    SlotInBounds(S, |bs|, i);
    bs[S * i..S * i + S]
  }

  /**
   * The records a loop of `read_front` at offsets `S * i`, `i < |bs| / S`,
   * returns; trailing bytes shorter than a record are ignored.
   */
  function DecodeArray<T>(dec: seq<uint8> -> T, S: nat, bs: seq<uint8>): (r: seq<T>)
    requires S > 0
    ensures |r| == |bs| / S
    ensures forall i :: 0 <= i < |r| ==> r[i] == dec(Slot(bs, S, i))
  {
    seq(|bs| / S, i requires 0 <= i < |bs| / S => dec(Slot(bs, S, i)))
  }

  lemma {:induction false} ConcatLength<T(!new)>(enc: T -> seq<uint8>, dec: seq<uint8> -> T, S: nat, xs: seq<T>)
    requires IsCodec(enc, dec, S)
    ensures |Concat(enc, xs)| == S * |xs|
  {
    if xs != [] {
      ConcatLength(enc, dec, S, xs[1..]);
    }
  }

  /** Slot `i` of a run holds the image of its `i`-th record. */
  lemma {:induction false} ConcatSlot<T(!new)>(enc: T -> seq<uint8>, dec: seq<uint8> -> T, S: nat, xs: seq<T>, i: nat)
    requires IsCodec(enc, dec, S)
    requires i < |xs|
    ensures S * i + S <= |Concat(enc, xs)|
    ensures Concat(enc, xs)[S * i..S * i + S] == enc(xs[i])
  {
    ConcatLength(enc, dec, S, xs);
    if i > 0 {
      ConcatSlot(enc, dec, S, xs[1..], i - 1);
      assert S * i == S + S * (i - 1);
    }
  }

  lemma DivExact(S: nat, k: nat)
    requires S > 0
    ensures (S * k) / S == k
  {
    var q := (S * k) / S;
    assert S * k == S * q + (S * k) % S;
    MulMono(S, if q < k then q + 1 else k, k);
    MulMono(S, if q > k then k + 1 else q, q);
  }

  /** Reading a run back yields exactly the records written, in order. */
  lemma DecodeConcat<T(!new)>(enc: T -> seq<uint8>, dec: seq<uint8> -> T, S: nat, xs: seq<T>)
    requires IsCodec(enc, dec, S)
    ensures DecodeArray(dec, S, Concat(enc, xs)) == xs
  {
    ConcatLength(enc, dec, S, xs);
    DivExact(S, |xs|);
    var r := DecodeArray(dec, S, Concat(enc, xs));
    forall i | 0 <= i < |xs|
      ensures r[i] == xs[i]
    {
      ConcatSlot(enc, dec, S, xs, i);
    }
  }

  /** At least `n` whole slots fit in `S * n + t` bytes. */
  lemma DivLower(S: nat, n: nat, t: nat)
    requires S > 0
    ensures n <= (S * n + t) / S
  {
    var q := (S * n + t) / S;
    assert S * n + t == S * q + (S * n + t) % S;
    if q < n {
      MulMono(S, q + 1, n);
    }
  }

  /**
   * The records of a run are recovered even when other fields follow it:
   * its first `|xs|` slots decode to `xs`.
   */
  lemma DecodePrefix<T(!new)>(enc: T -> seq<uint8>, dec: seq<uint8> -> T, S: nat, xs: seq<T>, tail: seq<uint8>)
    requires IsCodec(enc, dec, S)
    ensures |xs| <= |DecodeArray(dec, S, Concat(enc, xs) + tail)|
    ensures DecodeArray(dec, S, Concat(enc, xs) + tail)[..|xs|] == xs
  {
    var body := Concat(enc, xs);
    ConcatLength(enc, dec, S, xs);
    DivLower(S, |xs|, |tail|);
    var r := DecodeArray(dec, S, body + tail);
    forall i | 0 <= i < |xs|
      ensures r[i] == xs[i]
    {
      ConcatSlot(enc, dec, S, xs, i);
      assert Slot(body + tail, S, i) == body[S * i..S * i + S];
    }
  }

  lemma {:induction false} ConcatAppend<T>(enc: T -> seq<uint8>, xs: seq<T>, ys: seq<T>)
    ensures Concat(enc, xs + ys) == Concat(enc, xs) + Concat(enc, ys)
  {
    if xs == [] {
      assert xs + ys == ys;
    } else {
      assert (xs + ys)[1..] == xs[1..] + ys;
      ConcatAppend(enc, xs[1..], ys);
    }
  }

  /** `wrap<T>` applied to each record of `xs` in turn. */
  function WrapArray<T>(enc: T -> seq<uint8>, xs: seq<T>, m: Message): Result<Message>
  {
    if xs == [] then Ok(m)
    else
      var m' :- Wrap(enc(xs[0]), m);
      WrapArray(enc, xs[1..], m')
  }

  /** Wrapping a run succeeds iff it fits, and appends exactly its image. */
  lemma {:induction false} WrapArraySpec<T>(enc: T -> seq<uint8>, xs: seq<T>, m: Message)
    requires m.Wf()
    ensures WrapArray(enc, xs, m).Ok? <==> m.Size() + |Concat(enc, xs)| <= m.capacity
    ensures WrapArray(enc, xs, m).Ok? ==>
              WrapArray(enc, xs, m).value == m.(bytes := m.bytes + Concat(enc, xs))
  {
    if xs != [] {
      var head, rest := enc(xs[0]), Concat(enc, xs[1..]);
      assert Concat(enc, xs) == head + rest;
      if m.Size() + |head| <= m.capacity {
        var m' := m.(bytes := m.bytes + head);
        assert Wrap(head, m) == Ok(m');
        WrapArraySpec(enc, xs[1..], m');
        assert m'.bytes + rest == m.bytes + (head + rest);
      } else {
        assert WrapArray(enc, xs, m) == Err(CapacityExceeded(m.capacity, m.Size(), |head|));
      }
    }
  }

  /**
   * The reading loop of every operator: `read_front<T>` at offsets `S * i`
   * for `i < n`.  Non-destructive, and every read is in bounds, so it
   * returns the first `n` records of the message.
   */
  method ReadArray<T>(dec: seq<uint8> -> T, S: nat, m: Message, n: nat) returns (xs: seq<T>)
    requires S > 0 && n <= m.Size() / S
    ensures xs == DecodeArray(dec, S, m.bytes)[..n]
  {
    ghost var all := DecodeArray(dec, S, m.bytes);
    xs := [];
    var i := 0;
    while i < n
      invariant 0 <= i <= n
      invariant xs == all[..i]
    {
      ghost var slot := Slot(m.bytes, S, i);
      var r := ReadFront(S, S * i, m);
      assert r.value == slot;
      xs := xs + [dec(r.value)];
      i := i + 1;
    }
  }

  /** Reading all whole slots of a message is `DecodeArray` of its bytes. */
  method ReadAll<T>(dec: seq<uint8> -> T, S: nat, m: Message) returns (xs: seq<T>)
    requires S > 0
    ensures xs == DecodeArray(dec, S, m.bytes)
  {
    xs := ReadArray(dec, S, m, m.Size() / S);
  }

  // ---------------------------------------------------------------------
  // Field images used to lay out records.

  /** Image of an `int` field. */
  function IntField(x: int32): (bs: seq<uint8>)
    ensures |bs| == 4
  {
    EncodeInt32(x)
  }

  /** The `int` stored at `off`; outside the buffer the value is irrelevant. */
  function IntAt(bs: seq<uint8>, off: nat): int32 {
    if off + 4 <= |bs| then DecodeInt32(bs[off..off + 4]) else 0
  }

  lemma IntAtField(bs: seq<uint8>, off: nat, x: int32)
    requires off + 4 <= |bs| && bs[off..off + 4] == IntField(x)
    ensures IntAt(bs, off) == x
  {
    Int32RoundTrip(x);
  }

  type uint64 = x: int | 0 <= x < 0x1_0000_0000_0000_0000

  /** Image of a `size_t` field. */
  function SizeField(x: uint64): (bs: seq<uint8>)
    ensures |bs| == 8
  {
    EncodeSize(x)
  }

  function SizeAt(bs: seq<uint8>, off: nat): uint64 {
    if off + 8 <= |bs| then DecodeSize(bs[off..off + 8]) else 0
  }

  lemma SizeAtField(bs: seq<uint8>, off: nat, x: uint64)
    requires off + 8 <= |bs| && bs[off..off + 8] == SizeField(x)
    ensures SizeAt(bs, off) == x
  {
    SizeRoundTrip(x);
  }

  // ---------------------------------------------------------------------
  // Layout of four-byte tail fields.  Stated over plain sequences so that
  // the solver does not have to look inside the field images.

  lemma Assoc4<T>(p: seq<T>, a: seq<T>, b: seq<T>, c: seq<T>, d: seq<T>)
    ensures p + a + b + c + d == p + (a + b + c + d)
  {
  }

  lemma TailSlices<T>(p: seq<T>, a: seq<T>, b: seq<T>, c: seq<T>, d: seq<T>)
    requires |a| == 4 && |b| == 4 && |c| == 4 && |d| == 4
    ensures var bs := p + (a + b + c + d);
      && |bs| == |p| + 16
      && bs[|p|..|p| + 4] == a && bs[|p| + 4..|p| + 8] == b
      && bs[|p| + 8..|p| + 12] == c && bs[|p| + 12..|p| + 16] == d
  {
  }

  /** An `int` field `off` bytes before the end is what `read_back<int>` returns. */
  lemma ReadBackIntField(m: Message, off: nat, x: int32)
    requires off + INT_SIZE <= m.Size()
    requires m.bytes[m.Size() - off - INT_SIZE..m.Size() - off] == IntField(x)
    ensures ReadBackInt(m, off) == Ok(x)
  {
    Int32RoundTrip(x);
  }

  /** An `int` field on top of a message is what `unwrap<int>` pops. */
  lemma UnwrapIntField(capacity: nat, bytes: seq<uint8>, x: int32)
    ensures UnwrapInt(Message(capacity, bytes + IntField(x))) == Ok((x, Message(capacity, bytes)))
  {
    var m := Message(capacity, bytes + IntField(x));
    assert m.bytes[..|bytes|] == bytes;
    Int32RoundTrip(x);
  }

  /** The codec of a bare `int`, as used for the scalar header fields. */
  function DecodeIntField(bs: seq<uint8>): int32 {
    IntAt(bs, 0)
  }

  lemma IntCodec()
    ensures IsCodec(IntField, DecodeIntField, 4)
  {
    forall x: int32 ensures DecodeIntField(IntField(x)) == x {
      IntAtField(IntField(x), 0, x);
    }
  }
}

/**
 * The payloads operators exchange: a run of records, then scalar fields
 * wrapped after it (the message id last, so it is unwrapped first).
 */
module Payloads {
  import opened Bytes
  import opened Faults
  import opened Serialization
  import opened Codec

  /** `initMessage(capacity)`, the records wrapped in order, then the tail fields in order. */
  function EmitRecords<T>(enc: T -> seq<uint8>, xs: seq<T>, fields: seq<seq<uint8>>, capacity: nat): Result<Message> {
    var m :- WrapArray(enc, xs, NewMessage(capacity));
    WrapAll(fields, m)
  }

  /** A message with room for its records and fields holds exactly those bytes. */
  lemma EmitRecordsFits<T(!new)>(enc: T -> seq<uint8>, dec: seq<uint8> -> T, S: nat, xs: seq<T>,
                                 fields: seq<seq<uint8>>, capacity: nat)
    requires IsCodec(enc, dec, S) && S * |xs| + |Flatten(fields)| <= capacity
    ensures EmitRecords(enc, xs, fields, capacity).Ok?
    ensures EmitRecords(enc, xs, fields, capacity).value == Message(capacity, Concat(enc, xs) + Flatten(fields))
  {
    var m0 := NewMessage(capacity);
    ConcatLength(enc, dec, S, xs);
    WrapArraySpec(enc, xs, m0);
    var m1 := WrapArray(enc, xs, m0).value;
    assert m0.bytes + Concat(enc, xs) == Concat(enc, xs);
    WrapAllSpec(fields, m1);
  }

  /** A run of records followed by the message id. */
  function ParseTagged<T>(dec: seq<uint8> -> T, S: nat, m: Message): (r: Result<(int32, seq<T>)>)
    requires S > 0
    ensures r.Err? <==> m.Size() < INT_SIZE
  {
    var (id, rest) :- UnwrapInt(m);
    Ok((id, DecodeArray(dec, S, rest.bytes)))
  }

  /** A run of records followed by a timestamp and the message id. */
  function ParseStamped<T>(dec: seq<uint8> -> T, S: nat, m: Message): (r: Result<(int32, int32, seq<T>)>)
    requires S > 0
    ensures r.Err? <==> m.Size() < 2 * INT_SIZE
  {
    var (id, m1) :- UnwrapInt(m);
    var (timestamp, m2) :- UnwrapInt(m1);
    Ok((id, timestamp, DecodeArray(dec, S, m2.bytes)))
  }

  lemma FlattenOne(a: seq<uint8>)
    ensures Flatten([a]) == a
  {
    assert [a][1..] == [];
    assert Flatten([a]) == a + Flatten([]);
  }

  lemma FlattenTwo(a: seq<uint8>, b: seq<uint8>)
    ensures Flatten([a, b]) == a + b
  {
    assert [a, b][1..] == [b];
    FlattenOne(b);
    assert Flatten([a, b]) == a + Flatten([b]);
  }

  /** What a tagged payload is built from is what its reader gets back. */
  lemma ParseTaggedEmit<T(!new)>(enc: T -> seq<uint8>, dec: seq<uint8> -> T, S: nat, xs: seq<T>, id: int32)
    requires IsCodec(enc, dec, S)
    ensures EmitRecords(enc, xs, [IntField(id)], S * |xs| + INT_SIZE).Ok?
    ensures ParseTagged(dec, S, EmitRecords(enc, xs, [IntField(id)], S * |xs| + INT_SIZE).value) == Ok((id, xs))
  {
    FlattenOne(IntField(id));
    EmitRecordsFits(enc, dec, S, xs, [IntField(id)], S * |xs| + INT_SIZE);
    DecodeConcat(enc, dec, S, xs);
    Int32RoundTrip(id);
  }

  /** Likewise for a stamped payload. */
  lemma ParseStampedEmit<T(!new)>(enc: T -> seq<uint8>, dec: seq<uint8> -> T, S: nat, xs: seq<T>,
                                  timestamp: int32, id: int32)
    requires IsCodec(enc, dec, S)
    ensures EmitRecords(enc, xs, [IntField(timestamp), IntField(id)], S * |xs| + 2 * INT_SIZE).Ok?
    ensures ParseStamped(dec, S, EmitRecords(enc, xs, [IntField(timestamp), IntField(id)], S * |xs| + 2 * INT_SIZE).value)
            == Ok((id, timestamp, xs))
  {
    FlattenTwo(IntField(timestamp), IntField(id));
    ConcatLength(enc, dec, S, xs);
    EmitRecordsFits(enc, dec, S, xs, [IntField(timestamp), IntField(id)], S * |xs| + 2 * INT_SIZE);
    ParseStampedBytes(enc, dec, S, xs, timestamp, id, S * |xs| + 2 * INT_SIZE);
  }

  /** A stamped payload reads back the same whatever the spare capacity of its message. */
  lemma ParseStampedBytes<T(!new)>(enc: T -> seq<uint8>, dec: seq<uint8> -> T, S: nat, xs: seq<T>,
                                   timestamp: int32, id: int32, capacity: nat)
    requires IsCodec(enc, dec, S)
    ensures ParseStamped(dec, S, Message(capacity, Concat(enc, xs) + Flatten([IntField(timestamp), IntField(id)])))
            == Ok((id, timestamp, xs))
  {
    FlattenTwo(IntField(timestamp), IntField(id));
    DecodeConcat(enc, dec, S, xs);
    Int32RoundTrip(id);
    Int32RoundTrip(timestamp);
    var body := Concat(enc, xs);
    assert body + (IntField(timestamp) + IntField(id)) == (body + IntField(timestamp)) + IntField(id);
  }
}
