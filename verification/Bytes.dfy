/** Bytes, Go strings as byte sequences, and the fixed-width little-endian
    integers that encoding/binary reads and writes. */
module Bytes {

  type Byte = x: int | 0 <= x < 256 witness 0
  type Str = seq<Byte>

  type Int16 = x: int | -0x8000 <= x < 0x8000
  type Int32 = x: int | -0x8000_0000 <= x < 0x8000_0000
  type Int64 = x: int | -0x8000_0000_0000_0000 <= x < 0x8000_0000_0000_0000
  type UInt32 = x: int | 0 <= x < 0x1_0000_0000

  /** Go's int16(x): the low 16 bits, read as two's complement. */
  function Trunc16(x: int): Int16 {
    (x + 0x8000) % 0x1_0000 - 0x8000
  }

  /** Go's int32(x). */
  function Trunc32(x: int): Int32 {
    (x + 0x8000_0000) % 0x1_0000_0000 - 0x8000_0000
  }

  /** Truncation drops whole multiples of 2^16 or 2^32. */
  lemma TruncWraps(x: int)
    ensures (x - Trunc16(x)) % 0x1_0000 == 0 && (x - Trunc32(x)) % 0x1_0000_0000 == 0
  {
  }

  lemma TruncFits(x: int)
    ensures -0x8000 <= x < 0x8000 ==> Trunc16(x) == x
    ensures -0x8000_0000 <= x < 0x8000_0000 ==> Trunc32(x) == x
  {
  }

  function Pow256(n: nat): (p: nat)
    ensures p > 0
  {
    if n == 0 then 1 else 256 * Pow256(n - 1)
  }

  lemma Pow256Values()
    ensures Pow256(1) == 0x100
    ensures Pow256(2) == 0x1_0000
    ensures Pow256(4) == 0x1_0000_0000
    ensures Pow256(8) == 0x1_0000_0000_0000_0000
  {
    assert Pow256(3) == 0x100_0000;
    assert Pow256(5) == 0x100_0000_0000;
    assert Pow256(6) == 0x1_0000_0000_0000;
    assert Pow256(7) == 0x100_0000_0000_0000;
  }

  /** The n low bytes of x, least significant first. */
  function ToLE(x: nat, n: nat): (s: seq<Byte>)
    ensures |s| == n
    decreases n, x
  {
    if n == 0 then [] else [x % 256] + ToLE(x / 256, n - 1)
  }

  function FromLE(s: seq<Byte>): nat {
    if s == [] then 0 else s[0] + 256 * FromLE(s[1..])
  }

  lemma {:induction false} FromToLE(x: nat, n: nat)
    requires x < Pow256(n)
    ensures FromLE(ToLE(x, n)) == x
  {
    if n > 0 {
      FromToLE(x / 256, n - 1);
      assert ToLE(x, n)[1..] == ToLE(x / 256, n - 1);
    }
  }

  lemma {:induction false} FromLEBound(s: seq<Byte>)
    ensures FromLE(s) < Pow256(|s|)
  {
    if s != [] {
      FromLEBound(s[1..]);
    }
  }

  lemma {:induction false} ToFromLE(s: seq<Byte>)
    ensures ToLE(FromLE(s), |s|) == s
  {
    if s != [] {
      ToFromLE(s[1..]);
      assert FromLE(s) / 256 == FromLE(s[1..]) && FromLE(s) % 256 == s[0];
    }
  }

  /** Two's complement: the unsigned pattern of x modulo m, and back. */
  function Pattern(x: int, m: nat): int {
    if x < 0 then x + m else x
  }

  function Signed(u: int, m: nat): int {
    if u < m / 2 then u else u - m
  }

  function LE16(x: Int16): (s: seq<Byte>)
    ensures |s| == 2
  {
    ToLE(Pattern(x, 0x1_0000), 2)
  }

  function LE32(x: Int32): (s: seq<Byte>)
    ensures |s| == 4
  {
    ToLE(Pattern(x, 0x1_0000_0000), 4)
  }

  function LE64(x: Int64): (s: seq<Byte>)
    ensures |s| == 8
  {
    ToLE(Pattern(x, 0x1_0000_0000_0000_0000), 8)
  }

  function OfLE16(s: seq<Byte>): Int16
    requires |s| == 2
  {
    FromLEBound(s);
    Pow256Values();
    Signed(FromLE(s), 0x1_0000)
  }

  function OfLE32(s: seq<Byte>): Int32
    requires |s| == 4
  {
    FromLEBound(s);
    Pow256Values();
    Signed(FromLE(s), 0x1_0000_0000)
  }

  function OfLE64(s: seq<Byte>): Int64
    requires |s| == 8
  {
    FromLEBound(s);
    Pow256Values();
    Signed(FromLE(s), 0x1_0000_0000_0000_0000)
  }

  /** An unsigned 32-bit pattern, as used for float32. */
  function OfPattern32(s: seq<Byte>): UInt32
    requires |s| == 4
  {
    FromLEBound(s);
    Pow256Values();
    FromLE(s)
  }

  /** Every fixed-width integer is read back from the bytes it was written as. */
  lemma IntegersRoundTrip(a: Int16, b: Int32, c: Int64, f: UInt32)
    ensures OfLE16(LE16(a)) == a
    ensures OfLE32(LE32(b)) == b
    ensures OfLE64(LE64(c)) == c
    ensures OfPattern32(ToLE(f, 4)) == f
  {
    Pow256Values();
    FromToLE(Pattern(a, 0x1_0000), 2);
    FromToLE(Pattern(b, 0x1_0000_0000), 4);
    FromToLE(Pattern(c, 0x1_0000_0000_0000_0000), 8);
    FromToLE(f, 4);
  }

  /** Distinct byte patterns decode to distinct integers: the coding is a bijection. */
  lemma IntegersAreBijective(s: seq<Byte>)
    ensures |s| == 2 ==> LE16(OfLE16(s)) == s
    ensures |s| == 4 ==> LE32(OfLE32(s)) == s
    ensures |s| == 8 ==> LE64(OfLE64(s)) == s
  {
    Pow256Values();
    FromLEBound(s);
    ToFromLE(s);
  }
}
