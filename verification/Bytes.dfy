/** Bytes, fixed machine widths and the little-endian image of a number. */
module Bytes {

  type Byte = x: int | 0 <= x < 256

  /** sizeof(T) for the arithmetic types that the codec moves. */
  type Width = w: nat | w == 1 || w == 2 || w == 4 || w == 8 witness 1

  /** n * sizeof(T), by cases on the width so that it stays linear arithmetic. */
  function Span(n: nat, w: Width): (bytes: nat)
  {
    if w == 1 then n else if w == 2 then 2 * n else if w == 4 then 4 * n else 8 * n
  }

  const U32_LIMIT: nat := 0x1_0000_0000
  const U64_LIMIT: nat := 0x1_0000_0000_0000_0000
  const I32_LIMIT: int := 0x8000_0000

  /** No C++ object is larger than this (PTRDIFF_MAX + 1). */
  const OBJECT_LIMIT: int := 0x8000_0000_0000_0000

  type U32 = x: int | 0 <= x < 0x1_0000_0000
  type I32 = x: int | -0x8000_0000 <= x < 0x8000_0000

  function Pow256(w: nat): (p: nat)
    ensures p > 0
  {
    if w == 0 then 1 else 256 * Pow256(w - 1)
  }

  lemma Pow256Of4()
    ensures Pow256(4) == U32_LIMIT
  {
    assert Pow256(4) == 256 * (256 * (256 * (256 * Pow256(0))));
  }

  lemma Pow256Of8()
    ensures Pow256(8) == U64_LIMIT
  {
    Pow256Of4();
    assert Pow256(8) == 256 * (256 * (256 * (256 * Pow256(4))));
  }

  /** The w bytes that memcpy reads from a number whose bit pattern is n. */
  function LE(n: nat, w: nat): (s: seq<Byte>)
    ensures |s| == w
  {
    if w == 0 then [] else [n % 256] + LE(n / 256, w - 1)
  }

  function FromLE(s: seq<Byte>): (n: nat) {
    if s == [] then 0 else s[0] + 256 * FromLE(s[1..])
  }

  lemma Times(d: nat, a: nat, b: nat)
    requires a <= b
    ensures d * a <= d * b && d * (a + 1) == d * a + d
  {
  }

  lemma QuotientIs(n: nat, d: nat, q: nat, r: nat)
    requires d > 0 && n == d * q + r && r < d
    ensures n / d == q
  {
    var k := n / d;
    assert n == d * k + n % d;
    if k > q {
      Times(d, q + 1, k);
      Times(d, q, q);
    } else if k < q {
      Times(d, k + 1, q);
      Times(d, k, k);
    }
  }

  lemma Scale(b: nat, q: nat)
    ensures (256 * b) * q == 256 * (b * q)
  {
  }

  lemma DivideTwice(n: nat, b: nat)
    requires b > 0
    ensures n / 256 / b == n / (256 * b)
  {
    var m := n / 256;
    var q, r := m / b, m % b;
    assert m == b * q + r;
    Scale(b, q);
    QuotientIs(n, 256 * b, q, 256 * r + n % 256);
  }

  /** The byte order: the i-th byte is the i-th digit to the base 256, least significant first. */
  lemma {:induction false} LEDigit(n: nat, w: nat, i: nat)
    requires i < w
    ensures LE(n, w)[i] == n / Pow256(i) % 256
  {
    if i > 0 {
      LEDigit(n / 256, w - 1, i - 1);
      assert LE(n, w)[i] == LE(n / 256, w - 1)[i - 1];
      DivideTwice(n, Pow256(i - 1));
    } else {
      assert Pow256(0) == 1;
    }
  }

  lemma {:induction false} FromLEBound(s: seq<Byte>)
    ensures FromLE(s) < Pow256(|s|)
  {
    if s != [] { FromLEBound(s[1..]); }
  }

  lemma {:induction false} FromToLE(n: nat, w: nat)
    requires n < Pow256(w)
    ensures FromLE(LE(n, w)) == n
  {
    if w > 0 {
      FromToLE(n / 256, w - 1);
      assert LE(n, w)[1..] == LE(n / 256, w - 1);
    }
  }

  lemma {:induction false} ToFromLE(s: seq<Byte>)
    ensures LE(FromLE(s), |s|) == s
  {
    if s != [] {
      ToFromLE(s[1..]);
      assert FromLE(s) % 256 == s[0] && FromLE(s) / 256 == FromLE(s[1..]);
    }
  }

  /** Two's complement: the pattern is the number modulo 2^32. */
  function BitsOfI32(i: I32): (b: U32)
    ensures (b - i) % U32_LIMIT == 0
  {
    if i < 0 then i + U32_LIMIT else i
  }

  function I32OfBits(b: U32): (i: I32)
    ensures (b - i) % U32_LIMIT == 0
  {
    if b < I32_LIMIT then b else b - U32_LIMIT
  }

  /** A size_t sum: it wraps. */
  function Add64(a: nat, b: nat): nat {
    (a + b) % U64_LIMIT
  }

  /** Below the object limit the bound check `offset + need > size` cannot wrap. */
  lemma BoundCheckExact(offset: nat, need: nat, size: nat)
    requires offset <= size <= OBJECT_LIMIT
    requires need < OBJECT_LIMIT
    ensures Add64(offset, need) > size <==> offset + need > size
    ensures Add64(offset, need) == offset + need
  {
  }
}
