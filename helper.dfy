/**
 * `read_be_u16` / `read_be_u32`: read a big-endian integer off the front of a
 * byte slice and leave the caller's slice pointing just past it.
 *
 * The Rust functions overwrite the slice through `&mut &[u8]`; here each
 * method returns the value together with the remaining bytes.  Slices that
 * are too short make `split_at` panic, so enough bytes is a precondition and
 * the `TryFromSlice` branch, which a split of exactly the right size can
 * never take, has no counterpart.
 */
module Helper {
  import opened Bytes

  /** The value read and the rest of the slice together make up the input. */
  method ReadBeU16(input: seq<byte>) returns (value: u16, rest: seq<byte>)
    requires |input| >= 2
    ensures U16ToBe(value) + rest == input
  {
    var intBytes := input[..2];
    rest := input[2..];
    value := BeU16(intBytes[0], intBytes[1]);
    U16ToBeOfBeU16(intBytes[0], intBytes[1]);
    assert input == intBytes + rest;
  }

  method ReadBeU32(input: seq<byte>) returns (value: u32, rest: seq<byte>)
    requires |input| >= 4
    ensures U32ToBe(value) + rest == input
  {
    var intBytes := input[..4];
    rest := input[4..];
    value := BeU32(intBytes[0], intBytes[1], intBytes[2], intBytes[3]);
    U32ToBeOfBeU32(intBytes[0], intBytes[1], intBytes[2], intBytes[3]);
    assert input == intBytes + rest;
  }

  /** Reading back what `to_be_bytes` wrote gives the value and the bytes after it. */
  method ReadBackU32(n: u32, after: seq<byte>) returns (value: u32, rest: seq<byte>)
    ensures value == n && rest == after
  {
    value, rest := ReadBeU32(U32ToBe(n) + after);
    assert rest == (U32ToBe(value) + rest)[4..];
    BeU32OfU32ToBe(value);
    BeU32OfU32ToBe(n);
    assert U32ToBe(value) == (U32ToBe(n) + after)[..4];
  }

  /** `[0, 10]` reads as 10 and leaves nothing behind. */
  method ConvertBytesToU16() returns (value: u16, rest: seq<byte>)
    ensures value == 10 && rest == []
  {
    value, rest := ReadBeU16([0, 10]);
    assert U16ToBe(value) == [0, 10][..2];
    BeU16OfU16ToBe(value);
  }

  /** `[0, 0, 0, 10]` reads as 10 and leaves nothing behind. */
  method ConvertBytesToU32() returns (value: u32, rest: seq<byte>)
    ensures value == 10 && rest == []
  {
    value, rest := ReadBeU32([0, 0, 0, 10]);
    assert U32ToBe(value) == [0, 0, 0, 10][..4];
    BeU32OfU32ToBe(value);
  }
}
