/**
 * The fixed-width unsigned integers of the Rust source (`u8`, `u16`, `u32`)
 * and their big-endian byte encodings (`from_be_bytes` / `to_be_bytes`).
 */
module Bytes {
  type byte = x: int | 0 <= x < 0x100
  type u16 = x: int | 0 <= x < 0x1_0000
  type u32 = x: int | 0 <= x < 0x1_0000_0000

  /** `u16::from_be_bytes([hi, lo])` */
  function BeU16(hi: byte, lo: byte): u16 {
    hi * 0x100 + lo
  }

  /** `u32::from_be_bytes([a, b, c, d])` */
  function BeU32(a: byte, b: byte, c: byte, d: byte): u32 {
    a * 0x100_0000 + b * 0x1_0000 + c * 0x100 + d
  }

  /** `u16::to_be_bytes`: the two bytes whose big-endian value is `n`. */
  function U16ToBe(n: u16): (r: seq<byte>)
    ensures |r| == 2
  {
    [n / 0x100, n % 0x100]
  }

  /** `u32::to_be_bytes`: the four bytes whose big-endian value is `n`. */
  function U32ToBe(n: u32): (r: seq<byte>)
    ensures |r| == 4
  {
    [n / 0x100_0000, n / 0x1_0000 % 0x100, n / 0x100 % 0x100, n % 0x100]
  }

  lemma BeU16OfU16ToBe(n: u16)
    ensures BeU16(U16ToBe(n)[0], U16ToBe(n)[1]) == n
  {
  }

  lemma U16ToBeOfBeU16(hi: byte, lo: byte)
    ensures U16ToBe(BeU16(hi, lo)) == [hi, lo]
  {
  }

  lemma BeU32OfU32ToBe(n: u32)
    ensures var b := U32ToBe(n); BeU32(b[0], b[1], b[2], b[3]) == n
  {
    var q1 := n / 0x100;
    var q2 := n / 0x1_0000;
    var q3 := n / 0x100_0000;
    assert n == q1 * 0x100 + n % 0x100;
    assert q2 == q1 / 0x100 && q1 == q2 * 0x100 + q1 % 0x100;
    assert q3 == q2 / 0x100 && q2 == q3 * 0x100 + q2 % 0x100;
  }

  lemma U32ToBeOfBeU32(a: byte, b: byte, c: byte, d: byte)
    ensures U32ToBe(BeU32(a, b, c, d)) == [a, b, c, d]
  {
    var n := BeU32(a, b, c, d);
    assert n / 0x100_0000 == a;
    assert n / 0x1_0000 == a * 0x100 + b;
    assert n / 0x100 == (a * 0x100 + b) * 0x100 + c;
  }
}
