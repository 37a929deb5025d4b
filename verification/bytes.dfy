/** Machine-level integers and the little-endian byte encoding of Rust's
    `i64::to_le_bytes` / `i64::from_le_bytes`. */
module Bytes {

  /** An unsigned 8-bit value, Rust's `u8`. */
  newtype byte = b: int | 0 <= b < 0x100

  /** Rust's `i64`: two's-complement 64-bit signed integers. */
  type Int64 = v: int | -0x8000_0000_0000_0000 <= v < 0x8000_0000_0000_0000

  /** 256 raised to the power `n`: the number of values `n` bytes can hold. */
  function Pow256(n: nat): (r: nat)
    ensures r > 0
  {
    if n == 0 then 1 else 256 * Pow256(n - 1)
  }

  lemma Pow256Of8()
    ensures Pow256(8) == 0x1_0000_0000_0000_0000
  {
    assert Pow256(1) == 0x100;
    assert Pow256(2) == 0x1_0000;
    assert Pow256(3) == 0x100_0000;
    assert Pow256(4) == 0x1_0000_0000;
    assert Pow256(5) == 0x100_0000_0000;
    assert Pow256(6) == 0x1_0000_0000_0000;
    assert Pow256(7) == 0x100_0000_0000_0000;
  }

  /** The `n` least significant bytes of `u`, least significant first. */
  function UnsignedLe(u: nat, n: nat): (r: seq<byte>)
    ensures |r| == n
  {
    if n == 0 then [] else [(u % 256) as byte] + UnsignedLe(u / 256, n - 1)
  }

  /** The unsigned value of a little-endian byte sequence. */
  function LeValue(bs: seq<byte>): (u: nat)
    ensures u < Pow256(|bs|)
  {
    if bs == [] then 0 else bs[0] as int + 256 * LeValue(bs[1..])
  }

  lemma {:induction false} LeValueOfUnsignedLe(u: nat, n: nat)
    requires u < Pow256(n)
    ensures LeValue(UnsignedLe(u, n)) == u
  {
    if n > 0 {
      assert u / 256 < Pow256(n - 1);
      LeValueOfUnsignedLe(u / 256, n - 1);
      assert UnsignedLe(u, n)[1..] == UnsignedLe(u / 256, n - 1);
    }
  }

  lemma {:induction false} UnsignedLeOfLeValue(bs: seq<byte>)
    ensures UnsignedLe(LeValue(bs), |bs|) == bs
  {
    if bs != [] {
      var u := LeValue(bs);
      assert u % 256 == bs[0] as int;
      assert u / 256 == LeValue(bs[1..]);
      UnsignedLeOfLeValue(bs[1..]);
    }
  }

  /** `i64::to_le_bytes`: the two's-complement representation of `v`,
      least significant byte first. */
  function ToLeBytes(v: Int64): (r: seq<byte>)
    ensures |r| == 8
  {
    UnsignedLe(if v < 0 then v + 0x1_0000_0000_0000_0000 else v, 8)
  }

  /** `i64::from_le_bytes`: reads eight bytes as a two's-complement value. */
  function FromLeBytes(bs: seq<byte>): Int64
    requires |bs| == 8
  {
    Pow256Of8();
    var u := LeValue(bs);
    if u < 0x8000_0000_0000_0000 then u else u - 0x1_0000_0000_0000_0000
  }

  /** Decoding the bytes of `v` gives `v` back. */
  lemma FromToLeBytes(v: Int64)
    ensures FromLeBytes(ToLeBytes(v)) == v
  {
    Pow256Of8();
    LeValueOfUnsignedLe(if v < 0 then v + 0x1_0000_0000_0000_0000 else v, 8);
  }

  /** Every eight-byte sequence is the encoding of the value it decodes to. */
  lemma ToFromLeBytes(bs: seq<byte>)
    requires |bs| == 8
    ensures ToLeBytes(FromLeBytes(bs)) == bs
  {
    Pow256Of8();
    UnsignedLeOfLeValue(bs);
  }
}
