/**
 * Byte values and the little-endian, two's complement encodings that the
 * byte cursor uses for its typed integer accessors.
 *
 * The reader copies raw bytes into a host integer (a host-order copy); this
 * model fixes that host order as little-endian.
 */
module ByteOrder {

  type byte = x: int | 0 <= x < 0x100
  type u16 = x: int | 0 <= x < 0x1_0000
  type u32 = x: int | 0 <= x < 0x1_0000_0000
  type i8 = x: int | -0x80 <= x < 0x80
  type i16 = x: int | -0x8000 <= x < 0x8000
  type i32 = x: int | -0x8000_0000 <= x < 0x8000_0000

  /** 256 to the power n: the number of distinct values of n bytes. */
  function Pow256(n: nat): (r: nat)
    ensures r >= 1
  {
    if n == 0 then 1 else 256 * Pow256(n - 1)
  }

  /** The unsigned value of bs read little-endian: bs[0] is the least significant byte. */
  function LeValue(bs: seq<byte>): (v: nat)
    ensures v < Pow256(|bs|)
  {
    if bs == [] then 0 else bs[0] + 256 * LeValue(bs[1..])
  }

  /** The n bytes that hold v little-endian. */
  function LeBytes(v: nat, n: nat): (bs: seq<byte>)
    requires v < Pow256(n)
    ensures |bs| == n
    ensures n > 0 ==> bs[0] == v % 256
  {
    if n == 0 then [] else [v % 256] + LeBytes(v / 256, n - 1)
  }

  /** Writing a value and reading it back gives the value. */
  lemma {:induction false} LeValueOfBytes(v: nat, n: nat)
    requires v < Pow256(n)
    ensures LeValue(LeBytes(v, n)) == v
  {
    if n > 0 {
      LeValueOfBytes(v / 256, n - 1);
      assert LeBytes(v, n)[1..] == LeBytes(v / 256, n - 1);
    }
  }

  /** Reading bytes and writing the value back gives the same bytes. */
  lemma {:induction false} LeBytesOfValue(bs: seq<byte>)
    ensures LeBytes(LeValue(bs), |bs|) == bs
  {
    if bs != [] {
      LeBytesOfValue(bs[1..]);
      var v := LeValue(bs);
      assert v % 256 == bs[0] && v / 256 == LeValue(bs[1..]);
    }
  }

  /** Half of Pow256(n) for n >= 1: the first n-byte pattern that reads as negative. */
  function HalfRange(n: nat): (h: nat)
    ensures n >= 1 ==> Pow256(n) == 2 * h
  {
    if n == 0 then 0 else 128 * Pow256(n - 1)
  }

  /** x fits in n bytes of two's complement. */
  predicate InSignedRange(x: int, n: nat)
  {
    -(HalfRange(n) as int) <= x < HalfRange(n)
  }

  /** The two's complement reading of an n-byte unsigned value. */
  function ToSigned(v: nat, n: nat): (x: int)
    requires 1 <= n && v < Pow256(n)
    ensures InSignedRange(x, n)
    ensures x == v || x == v - Pow256(n)
    ensures x >= 0 <==> v < HalfRange(n)
  {
    if v < HalfRange(n) then v else v - Pow256(n)
  }

  /** The n-byte unsigned pattern of a two's complement value. */
  function ToUnsigned(x: int, n: nat): (v: nat)
    requires 1 <= n && InSignedRange(x, n)
    ensures v < Pow256(n)
    ensures v == x || v == x + Pow256(n)
  {
    if x < 0 then x + Pow256(n) else x
  }

  /** The two conversions are inverse to each other in both directions. */
  lemma SignedRoundTrip(v: nat, x: int, n: nat)
    requires 1 <= n && v < Pow256(n) && InSignedRange(x, n)
    ensures ToUnsigned(ToSigned(v, n), n) == v
    ensures ToSigned(ToUnsigned(x, n), n) == x
  {
  }

  /** n copies of the byte v. */
  function Fill(v: byte, n: nat): (bs: seq<byte>)
    ensures |bs| == n && forall i :: 0 <= i < n ==> bs[i] == v
  {
    seq(n, _ => v)
  }

  /** The widths of the typed accessors: one, two and four bytes. */
  lemma Widths()
    ensures Pow256(1) == 0x100 && Pow256(2) == 0x1_0000 && Pow256(4) == 0x1_0000_0000
    ensures HalfRange(1) == 0x80 && HalfRange(2) == 0x8000 && HalfRange(4) == 0x8000_0000
  {
  }
}
