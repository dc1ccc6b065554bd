/**
 * The message buffer and the four serialisation templates every operator
 * uses to build and parse its messages (`Serialization::wrap`, `unwrap`,
 * `read_back` and `read_front`).
 *
 * A message is a byte buffer with a fixed capacity whose valid bytes form
 * `bytes`; its size is `|bytes|`.  `wrap` pushes a value onto the tail and
 * `unwrap` pops one from it, so headers behave as a LIFO stack of
 * fixed-size fields on top of a front array of records.
 */
module Serialization {
  import opened Faults
  import opened Bytes

  datatype Message = Message(capacity: nat, bytes: seq<uint8>) {

    function Size(): nat {
      |bytes|
    }

    /** A buffer never holds more valid bytes than it can store. */
    predicate Wf() {
      |bytes| <= capacity
    }
  }

  /** `new Message(capacity)`: an empty buffer. */
  function NewMessage(capacity: nat): (m: Message)
    ensures m.Wf() && m.Size() == 0 && m.capacity == capacity
  {
    Message(capacity, [])
  }

  /** `wrap`: copy a value's image to the end of the buffer. */
  function Wrap(v: seq<uint8>, m: Message): (r: Result<Message>)
    ensures r.Err? <==> m.capacity < m.Size() + |v|
    ensures r.Err? ==> r.fault == CapacityExceeded(m.capacity, m.Size(), |v|)
    ensures r.Ok? ==> r.value.capacity == m.capacity
    ensures r.Ok? ==> r.value.Wf()
    ensures r.Ok? ==> r.value.Size() == m.Size() + |v|
    ensures r.Ok? ==> r.value.bytes[..m.Size()] == m.bytes && r.value.bytes[m.Size()..] == v
  {
    if m.capacity < m.Size() + |v| then
      Err(CapacityExceeded(m.capacity, m.Size(), |v|))
    else
      Ok(m.(bytes := m.bytes + v))
  }

  /** `unwrap`: remove the last `n` bytes of the buffer and return them. */
  function Unwrap(n: nat, m: Message): (r: Result<(seq<uint8>, Message)>)
    ensures r.Err? <==> m.Size() < n
    ensures r.Err? ==> r.fault == Underflow(m.Size(), n)
    ensures r.Ok? ==> |r.value.0| == n
    ensures r.Ok? ==> r.value.0 == m.bytes[m.Size() - n..]
    ensures r.Ok? ==> r.value.1.Size() == m.Size() - n
    ensures r.Ok? ==> r.value.1.bytes + r.value.0 == m.bytes
    ensures r.Ok? ==> r.value.1.capacity == m.capacity
    ensures r.Ok? && m.Wf() ==> r.value.1.Wf()
  {
    if m.Size() < n then
      Err(Underflow(m.Size(), n))
    else
      var k := m.Size() - n;
      assert m.bytes[..k] + m.bytes[k..] == m.bytes;
      Ok((m.bytes[k..], m.(bytes := m.bytes[..k])))
  }

  /**
   * `read_back`: the `n` bytes that end `offset` bytes before the end of
   * the buffer, without changing the message.
   */
  function ReadBack(n: nat, offset: nat, m: Message): (r: Result<seq<uint8>>)
    ensures r.Err? <==> m.Size() < n + offset
    ensures r.Err? ==> r.fault == Underflow(m.Size(), n + offset)
    ensures r.Ok? ==> |r.value| == n
    ensures r.Ok? ==> forall i :: 0 <= i < n ==> r.value[i] == m.bytes[m.Size() - offset - n + i]
  {
    if m.Size() < n + offset then
      Err(Underflow(m.Size(), n + offset))
    else
      Ok(m.bytes[m.Size() - (n + offset)..m.Size() - offset])
  }

  /** `read_front`: the `n` bytes that start `offset` bytes into the buffer. */
  function ReadFront(n: nat, offset: nat, m: Message): (r: Result<seq<uint8>>)
    ensures r.Err? <==> m.Size() < n + offset
    ensures r.Err? ==> r.fault == Underflow(m.Size(), n + offset)
    ensures r.Ok? ==> |r.value| == n
    ensures r.Ok? ==> forall i :: 0 <= i < n ==> r.value[i] == m.bytes[offset + i]
  {
    if m.Size() < n + offset then
      Err(Underflow(m.Size(), n + offset))
    else
      Ok(m.bytes[offset..offset + n])
  }

  // ---------------------------------------------------------------------
  // Typed instances for the scalar header fields.

  const INT_SIZE: nat := 4
  const SIZE_T_SIZE: nat := 8
  const CHAR_SIZE: nat := 1

  function WrapInt(x: int, m: Message): Result<Message> {
    Wrap(EncodeInt32(x), m)
  }

  function UnwrapInt(m: Message): Result<(int32, Message)> {
    var p :- Unwrap(INT_SIZE, m);
    Ok((DecodeInt32(p.0), p.1))
  }

  function ReadBackInt(m: Message, offset: nat): Result<int32> {
    var bs :- ReadBack(INT_SIZE, offset, m);
    Ok(DecodeInt32(bs))
  }

  function ReadFrontInt(m: Message, offset: nat): Result<int32> {
    var bs :- ReadFront(INT_SIZE, offset, m);
    Ok(DecodeInt32(bs))
  }

  function WrapSize(x: int, m: Message): Result<Message> {
    Wrap(EncodeSize(x), m)
  }

  function ReadFrontSize(m: Message, offset: nat): Result<nat> {
    var bs :- ReadFront(SIZE_T_SIZE, offset, m);
    Ok(DecodeSize(bs))
  }

  function WrapChar(c: uint8, m: Message): Result<Message> {
    Wrap([c], m)
  }

  function ReadBackChar(m: Message, offset: nat): Result<uint8> {
    var bs :- ReadBack(CHAR_SIZE, offset, m);
    Ok(bs[0])
  }

  // ---------------------------------------------------------------------
  // Properties of the templates.

  /** A wrapped value is the one the next `unwrap` returns, and the message is restored. */
  lemma UnwrapAfterWrap(v: seq<uint8>, m: Message)
    requires m.Size() + |v| <= m.capacity
    ensures Wrap(v, m).Ok?
    ensures Unwrap(|v|, Wrap(v, m).value) == Ok((v, m))
  {
    var m' := Wrap(v, m).value;
    assert m'.bytes[..m.Size()] == m.bytes;
  }

  lemma UnwrapIntAfterWrapInt(x: int, m: Message)
    requires m.Size() + INT_SIZE <= m.capacity
    ensures WrapInt(x, m).Ok?
    ensures UnwrapInt(WrapInt(x, m).value) == Ok((ToInt32(x), m))
  {
    UnwrapAfterWrap(EncodeInt32(x), m);
    Int32RoundTrip(x);
  }

  /** Wrap a sequence of equally sized images one after the other. */
  function WrapAll(vs: seq<seq<uint8>>, m: Message): Result<Message>
    decreases |vs|
  {
    if vs == [] then Ok(m)
    else
      var m' :- Wrap(vs[0], m);
      WrapAll(vs[1..], m')
  }

  /** Unwrap `k` values of `n` bytes each, in the order `unwrap` returns them. */
  function UnwrapAll(k: nat, n: nat, m: Message): Result<(seq<seq<uint8>>, Message)>
  {
    if k == 0 then Ok(([], m))
    else
      var p :- Unwrap(n, m);
      var q :- UnwrapAll(k - 1, n, p.1);
      Ok(([p.0] + q.0, q.1))
  }

  function Reverse<T>(s: seq<T>): (r: seq<T>)
    ensures |r| == |s|
    ensures forall i :: 0 <= i < |s| ==> r[i] == s[|s| - 1 - i]
  {
    if s == [] then [] else Reverse(s[1..]) + [s[0]]
  }

  function Flatten(vs: seq<seq<uint8>>): seq<uint8> {
    if vs == [] then [] else vs[0] + Flatten(vs[1..])
  }

  lemma {:induction false} FlattenSnoc(vs: seq<seq<uint8>>, v: seq<uint8>)
    ensures Flatten(vs + [v]) == Flatten(vs) + v
  {
    if vs == [] {
      assert vs + [v] == [v];
    } else {
      assert (vs + [v])[1..] == vs[1..] + [v];
      FlattenSnoc(vs[1..], v);
    }
  }

  lemma {:induction false} FlattenLength(vs: seq<seq<uint8>>, n: nat)
    requires forall i :: 0 <= i < |vs| ==> |vs[i]| == n
    ensures |Flatten(vs)| == |vs| * n
  {
    if vs != [] {
      FlattenLength(vs[1..], n);
    }
  }

  /**
   * Wrapping succeeds exactly when all images fit, and appends them in order.
   */
  lemma {:induction false} WrapAllSpec(vs: seq<seq<uint8>>, m: Message)
    requires m.Wf()
    ensures WrapAll(vs, m).Ok? <==> m.Size() + |Flatten(vs)| <= m.capacity
    ensures WrapAll(vs, m).Ok? ==> WrapAll(vs, m).value == m.(bytes := m.bytes + Flatten(vs))
    decreases |vs|
  {
    if vs != [] {
      var rest := Flatten(vs[1..]);
      assert Flatten(vs) == vs[0] + rest;
      if m.Size() + |vs[0]| <= m.capacity {
        var m' := m.(bytes := m.bytes + vs[0]);
        assert Wrap(vs[0], m) == Ok(m');
        WrapAllSpec(vs[1..], m');
        assert m'.bytes + rest == m.bytes + (vs[0] + rest);
      } else {
        assert WrapAll(vs, m) == Err(CapacityExceeded(m.capacity, m.Size(), |vs[0]|));
      }
    }
  }

  /** Unwrapping the last image of a flattened stack exposes the rest. */
  lemma UnwrapLast(init: seq<seq<uint8>>, v: seq<uint8>, m: Message)
    ensures Unwrap(|v|, m.(bytes := m.bytes + Flatten(init + [v])))
         == Ok((v, m.(bytes := m.bytes + Flatten(init))))
  {
    FlattenSnoc(init, v);
    assert m.bytes + Flatten(init + [v]) == (m.bytes + Flatten(init)) + v;
  }

  /** Unwrapping `|vs|` images off a stack of `vs` returns them in reverse. */
  lemma {:induction false} UnwrapAllFlatten(vs: seq<seq<uint8>>, n: nat, m: Message)
    requires forall i :: 0 <= i < |vs| ==> |vs[i]| == n
    ensures UnwrapAll(|vs|, n, m.(bytes := m.bytes + Flatten(vs))) == Ok((Reverse(vs), m))
    decreases |vs|
  {
    if vs == [] {
      assert m.(bytes := m.bytes + Flatten(vs)) == m;
    } else {
      var k := |vs| - 1;
      var init := vs[..k];
      assert vs == init + [vs[k]];
      UnwrapLast(init, vs[k], m);
      UnwrapAllFlatten(init, n, m);
      assert Reverse(vs) == [vs[k]] + Reverse(init);
    }
  }

  /**
   * The LIFO round trip: wrapping v1..vk and then unwrapping k times yields
   * vk..v1 and gives back the original message.
   */
  lemma WrapThenUnwrapAll(vs: seq<seq<uint8>>, n: nat, m: Message)
    requires forall i :: 0 <= i < |vs| ==> |vs[i]| == n
    requires m.Wf() && m.Size() + |vs| * n <= m.capacity
    ensures WrapAll(vs, m).Ok?
    ensures UnwrapAll(|vs|, n, WrapAll(vs, m).value) == Ok((Reverse(vs), m))
  {
    FlattenLength(vs, n);
    WrapAllSpec(vs, m);
    UnwrapAllFlatten(vs, n, m);
  }
}
