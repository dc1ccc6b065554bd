/**
 * Fixed-width integers and their in-memory byte images.
 *
 * The C++ operators copy native values into message buffers with `memcpy`;
 * the model fixes that native representation as little-endian two's
 * complement, which is what the x86-64 machines the benchmark targets use.
 */
module Bytes {

  type uint8 = x: int | 0 <= x < 256

  /** A C++ `int`. */
  type int32 = x: int | -0x8000_0000 <= x < 0x8000_0000

  const INT32_MAX: int32 := 0x7fff_ffff
  const TWO32: int := 0x1_0000_0000
  const TWO64: int := 0x1_0000_0000_0000_0000

  predicate IsInt32(x: int) {
    -0x8000_0000 <= x < 0x8000_0000
  }

  function Pow256(w: nat): (p: nat)
    ensures p >= 1
  {
    if w == 0 then 1 else 256 * Pow256(w - 1)
  }

  lemma Pow256Values()
    ensures Pow256(1) == 256
    ensures Pow256(4) == TWO32
    ensures Pow256(8) == TWO64
  {
    assert Pow256(2) == 65536;
    assert Pow256(3) == 16777216;
    assert Pow256(4) == TWO32;
    assert Pow256(5) == 0x100_0000_0000;
    assert Pow256(6) == 0x1_0000_0000_0000;
    assert Pow256(7) == 0x100_0000_0000_0000;
  }

  /** Little-endian image of `u` on `w` bytes. */
  function EncodeNat(u: nat, w: nat): (bs: seq<uint8>)
    requires u < Pow256(w)
    ensures |bs| == w
  {
    if w == 0 then [] else [u % 256] + EncodeNat(u / 256, w - 1)
  }

  /** The unsigned number whose little-endian image is `bs`. */
  function DecodeNat(bs: seq<uint8>): (u: nat)
    ensures u < Pow256(|bs|)
  {
    if |bs| == 0 then 0
    else
      var rest := DecodeNat(bs[1..]);
      assert rest <= Pow256(|bs| - 1) - 1;
      assert 256 * rest <= 256 * Pow256(|bs| - 1) - 256;
      bs[0] + 256 * rest
  }

  lemma {:induction false} DecodeEncodeNat(u: nat, w: nat)
    requires u < Pow256(w)
    ensures DecodeNat(EncodeNat(u, w)) == u
  {
    if w > 0 {
      var bs := EncodeNat(u, w);
      assert bs[1..] == EncodeNat(u / 256, w - 1);
      DecodeEncodeNat(u / 256, w - 1);
    }
  }

  lemma {:induction false} EncodeDecodeNat(bs: seq<uint8>)
    ensures EncodeNat(DecodeNat(bs), |bs|) == bs
  {
    if |bs| > 0 {
      var u := DecodeNat(bs);
      var rest := DecodeNat(bs[1..]);
      assert u % 256 == bs[0] && u / 256 == rest;
      EncodeDecodeNat(bs[1..]);
    }
  }

  /**
   * The value a C++ `int` holds after an integer `x` of a wider or unsigned
   * type is converted to it: reduction modulo 2^32 into the signed range.
   */
  function ToInt32(x: int): (r: int32)
    ensures (r - x) % TWO32 == 0
    ensures IsInt32(x) ==> r == x
  {
    var u := x % TWO32;
    if u >= 0x8000_0000 then u - TWO32 else u
  }

  /** Four-byte image of a C++ `int` (or `unsigned int`) holding `x`. */
  function EncodeInt32(x: int): (bs: seq<uint8>)
    ensures |bs| == 4
  {
    Pow256Values();
    EncodeNat(x % TWO32, 4)
  }

  /** The `int` read from four bytes. */
  function DecodeInt32(bs: seq<uint8>): int32
    requires |bs| == 4
  {
    Pow256Values();
    var u := DecodeNat(bs);
    if u >= 0x8000_0000 then u - TWO32 else u
  }

  lemma Int32RoundTrip(x: int)
    ensures DecodeInt32(EncodeInt32(x)) == ToInt32(x)
  {
    Pow256Values();
    DecodeEncodeNat(x % TWO32, 4);
  }

  lemma Int32Canonical(bs: seq<uint8>)
    requires |bs| == 4
    ensures EncodeInt32(DecodeInt32(bs)) == bs
  {
    Pow256Values();
    var u := DecodeNat(bs);
    assert DecodeInt32(bs) % TWO32 == u;
    EncodeDecodeNat(bs);
  }

  /** Eight-byte image of a `size_t` holding `x` (reduced modulo 2^64). */
  function EncodeSize(x: int): (bs: seq<uint8>)
    ensures |bs| == 8
  {
    Pow256Values();
    EncodeNat(x % TWO64, 8)
  }

  function DecodeSize(bs: seq<uint8>): (u: nat)
    requires |bs| == 8
    ensures u < TWO64
  {
    Pow256Values();
    DecodeNat(bs)
  }

  lemma SizeRoundTrip(x: int)
    ensures DecodeSize(EncodeSize(x)) == x % TWO64
  {
    Pow256Values();
    DecodeEncodeNat(x % TWO64, 8);
  }

  // ---------------------------------------------------------------------
  // Integer division.  Quotients are defined by repeated subtraction so
  // that the verifier does not reason about division by unknown divisors
  // unless a proof asks for it through `QuotRem`.

  lemma MulMono(s: nat, x: int, y: int)
    requires x <= y
    ensures s * x <= s * y
  {
    var d: nat := y - x;
    assert s * y == s * x + s * d;
  }

  lemma DivUnique(a: int, b: int, q: int, r: int)
    requires b > 0 && 0 <= r < b && a == b * q + r
    ensures a / b == q && a % b == r
  {
    var q' := a / b;
    assert a == b * q' + a % b;
    MulMono(b, if q' < q then q' + 1 else q, q);
    MulMono(b, if q < q' then q + 1 else q', q');
  }

  function Quot(a: nat, b: nat): nat
    requires b > 0
    decreases a
  {
    if a < b then 0 else 1 + Quot(a - b, b)
  }

  function Rem(a: nat, b: nat): nat
    requires b > 0
    decreases a
  {
    if a < b then a else Rem(a - b, b)
  }

  lemma {:induction false} QuotRem(a: nat, b: nat)
    requires b > 0
    ensures Quot(a, b) == a / b && Rem(a, b) == a % b
    ensures a == b * Quot(a, b) + Rem(a, b) && Rem(a, b) < b
    decreases a
  {
    if a >= b {
      QuotRem(a - b, b);
      var q := (a - b) / b;
      var r := (a - b) % b;
      assert a == b * (q + 1) + r;
      DivUnique(a, b, q + 1, r);
    } else {
      DivUnique(a, b, 0, a);
    }
  }

  /**
   * C++ integer division and remainder, which truncate toward zero
   * (Dafny's `/` and `%` are Euclidean).
   */
  function TruncDiv(a: int, b: nat): int
    requires b > 0
  {
    if a >= 0 then Quot(a, b) else -(Quot(-a, b) as int)
  }

  function TruncMod(a: int, b: nat): int
    requires b > 0
  {
    if a >= 0 then Rem(a, b) else -(Rem(-a, b) as int)
  }

  /** The C++ identity `a == (a / b) * b + a % b`, with the remainder taking the sign of `a`. */
  lemma TruncDivMod(a: int, b: nat)
    requires b > 0
    ensures a == b * TruncDiv(a, b) + TruncMod(a, b)
    ensures a >= 0 ==> 0 <= TruncMod(a, b) < b && TruncDiv(a, b) == a / b
    ensures a < 0 ==> -(b as int) < TruncMod(a, b) <= 0
  {
    if a >= 0 {
      QuotRem(a, b);
    } else {
      QuotRem(-a, b);
    }
  }
}
