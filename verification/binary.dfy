/**
 * Fixed-width integers and their little-endian byte encodings, as the
 * header reader and the block arithmetic use them.
 */
module Binary {

  type byte = b: int | 0 <= b < 0x100
  type u32 = x: int | 0 <= x < 0x1_0000_0000
  type i32 = x: int | -0x8000_0000 <= x < 0x8000_0000
  type i64 = x: int | -0x8000_0000_0000_0000 <= x < 0x8000_0000_0000_0000

  const TwoTo32: nat := 0x1_0000_0000
  const TwoTo63: nat := 0x8000_0000_0000_0000
  const TwoTo64: nat := 0x1_0000_0000_0000_0000

  function Pow256(n: nat): (r: nat)
    ensures r >= 1
  {
    if n == 0 then 1 else 256 * Pow256(n - 1)
  }

  lemma Pow256Widths()
    ensures Pow256(4) == TwoTo32 && Pow256(8) == TwoTo64
  {
    assert Pow256(2) == 0x1_0000;
    assert Pow256(4) == 0x1_0000 * Pow256(2);
    assert Pow256(6) == 0x1_0000 * Pow256(4);
    assert Pow256(8) == 0x1_0000 * Pow256(6);
  }

  /** The unsigned value of a little-endian byte string. */
  function Unsigned(s: seq<byte>): (r: nat)
    ensures r < Pow256(|s|)
  {
    if s == [] then 0 else s[0] + 256 * Unsigned(s[1..])
  }

  /** The `n`-byte little-endian encoding of `x`; reading it back gives `x`. */
  function LeBytes(x: nat, n: nat): (s: seq<byte>)
    requires x < Pow256(n)
    ensures |s| == n
    ensures Unsigned(s) == x
  {
    if n == 0 then [] else [x % 256] + LeBytes(x / 256, n - 1)
  }

  /** Encoding the value of a byte string gives the byte string back. */
  lemma {:induction false} LeBytesOfUnsigned(s: seq<byte>)
    ensures LeBytes(Unsigned(s), |s|) == s
  {
    if s != [] {
      var rest := Unsigned(s[1..]);
      assert (s[0] + 256 * rest) % 256 == s[0];
      assert (s[0] + 256 * rest) / 256 == rest;
      LeBytesOfUnsigned(s[1..]);
    }
  }

  /** Two's complement reading of a 64-bit pattern. */
  function ToI64(u: nat): (v: i64)
    requires u < TwoTo64
    ensures v >= 0 <==> u < TwoTo63
    ensures v == u || v == u - TwoTo64
  {
    if u < TwoTo63 then u else u - TwoTo64
  }

  /** The 64-bit pattern of a signed value. */
  function FromI64(v: i64): (u: nat)
    ensures u < TwoTo64
    ensures ToI64(u) == v
  {
    if v >= 0 then v else v + TwoTo64
  }

  /** The value a 32-bit signed (C# `int`) computation leaves after wrap-around. */
  function WrapI32(x: int): (r: i32)
    ensures (x - r) % TwoTo32 == 0
    ensures -0x8000_0000 <= x < 0x8000_0000 ==> r == x
  {
    var m := (x + 0x8000_0000) % TwoTo32;
    m - 0x8000_0000
  }

  /** The value a 64-bit signed (C# `long`) computation leaves after wrap-around. */
  function WrapI64(x: int): (r: i64)
    ensures (x - r) % TwoTo64 == 0
    ensures -0x8000_0000_0000_0000 <= x < 0x8000_0000_0000_0000 ==> r == x
  {
    var m := (x + 0x8000_0000_0000_0000) % TwoTo64;
    m - 0x8000_0000_0000_0000
  }
}
