/**
 * The BGP path-attribute walker that extracts the AS_SEQUENCE of one RIB entry.
 *
 * An attribute is a flag byte, a type-code byte, a length of one byte (two
 * bytes, big-endian, when the Extended Length bit 0x10 of the flags is set)
 * and a value (section 4.3 of RFC 4271). ASNs are four bytes (RFC 6793).
 * The functions below say what each step of the walk yields and how far it
 * moves the cursor; the class `AsPathParser` is the cursor that does it.
 */
module AsPathParsing {
  import opened Bytes
  import opened Wrappers
  import opened Errors

  /** A decoded value and the buffer position just after it. */
  datatype Decoded<T> = Decoded(value: T, next: nat)

  /** Forgets the position: the value a decoding step returns to its caller. */
  function ValueOf<T>(d: Result<Decoded<T>>): Result<T> {
    match d
    case Ok(Decoded(v, _)) => Ok(v)
    case Err(e) => Err(e)
  }

  /** Bit 4 of the flag byte (`(flag >> 4) & 1 == 1`), the Extended Length bit. */
  predicate ExtendedLength(flag: byte) {
    (flag / 0x10) % 2 == 1
  }

  /** The type codes the walker skips without looking at their value. */
  predicate IsSkippedTypeCode(code: byte) {
    code == 1 || 3 <= code <= 16
  }

  /** The big-endian u32 read by four successive `advance` calls from `pos`. */
  function U32At(buf: seq<byte>, pos: nat): u32
    requires pos + 4 <= |buf|
  {
    BeU32(buf[pos], buf[pos + 1], buf[pos + 2], buf[pos + 3])
  }

  /** The `n` ASNs stored back to back from `pos`, in encoded order. */
  function AsnsAt(buf: seq<byte>, pos: nat, n: nat): (r: seq<u32>)
    requires pos + 4 * n <= |buf|
    ensures |r| == n
  {
    if n == 0 then [] else AsnsAt(buf, pos, n - 1) + [U32At(buf, pos + 4 * (n - 1))]
  }

  /**
   * `parse_as_path` from `pos`, the segment-type byte: AS_SET (1) skips its
   * ASNs and yields None, AS_SEQUENCE (2) yields its ASNs, any other type is
   * `UnknownAsValue`; a missing byte is `UnexpectedEndOfBuffer`.
   */
  function SegmentAt(buf: seq<byte>, pos: nat): (r: Result<Decoded<Option<seq<u32>>>>)
    requires pos <= |buf|
    ensures r.Ok? ==> pos + 2 <= r.value.next <= |buf|
  {
    if pos == |buf| then Err(UnexpectedEndOfBuffer)
    else if buf[pos] != 1 && buf[pos] != 2 then Err(UnknownAsValue(buf[pos]))
    else if pos + 1 == |buf| then Err(UnexpectedEndOfBuffer)
    else
      var n: nat := buf[pos + 1];
      if |buf| < pos + 2 + 4 * n then Err(UnexpectedEndOfBuffer)
      else if buf[pos] == 1 then Ok(Decoded(None, pos + 2 + 4 * n))
      else Ok(Decoded(Some(AsnsAt(buf, pos + 2, n)), pos + 2 + 4 * n))
  }

  /** An attribute header: flags, type code, declared length and where the value starts. */
  datatype Header = Header(flag: byte, code: byte, length: u16, valueStart: nat)

  /** The header read by `parse_attribute` from `pos`. */
  function HeaderAt(buf: seq<byte>, pos: nat): (r: Result<Header>)
    requires pos <= |buf|
    ensures r.Ok? ==> pos + 3 <= r.value.valueStart <= |buf|
  {
    if |buf| < pos + 3 then Err(UnexpectedEndOfBuffer)
    else if !ExtendedLength(buf[pos]) then Ok(Header(buf[pos], buf[pos + 1], buf[pos + 2], pos + 3))
    else if |buf| < pos + 4 then Err(UnexpectedEndOfBuffer)
    else Ok(Header(buf[pos], buf[pos + 1], BeU16(buf[pos + 2], buf[pos + 3]), pos + 4))
  }

  /**
   * `parse_attribute` from `pos`. Skipped type codes consume exactly their
   * declared length; type code 2 decodes one segment and ignores the declared
   * length; type codes 0 and above 16 are `UnknownTypeCode`.
   */
  function AttributeAt(buf: seq<byte>, pos: nat): (r: Result<Decoded<Option<seq<u32>>>>)
    requires pos <= |buf|
    ensures r.Ok? ==> pos + 3 <= r.value.next <= |buf|
  {
    match HeaderAt(buf, pos)
    case Err(e) => Err(e)
    case Ok(h) =>
      if IsSkippedTypeCode(h.code) then
        if |buf| < h.valueStart + h.length then Err(UnexpectedEndOfBuffer)
        else Ok(Decoded(None, h.valueStart + h.length))
      else if h.code == 2 then SegmentAt(buf, h.valueStart)
      else Err(UnknownTypeCode(h.code))
  }

  /**
   * The loop of `parse_attributes` from `pos` with the paths `found` so far:
   * every attribute up to the end of the buffer, stopping at the first error
   * or at the first empty AS_SEQUENCE.
   */
  function CollectPaths(buf: seq<byte>, pos: nat, found: seq<seq<u32>>): (r: Result<seq<seq<u32>>>)
    requires pos <= |buf|
    decreases |buf| - pos
  {
    if pos == |buf| then Ok(found)
    else
      match AttributeAt(buf, pos)
      case Err(e) => Err(e)
      case Ok(Decoded(None, next)) => CollectPaths(buf, next, found)
      case Ok(Decoded(Some(path), next)) =>
        if path == [] then Err(NoAsPathInAttributePath)
        else CollectPaths(buf, next, found + [path])
  }

  /** The check after the loop of `parse_attributes`: exactly one path. */
  function SinglePath(collected: Result<seq<seq<u32>>>): Result<seq<u32>> {
    match collected
    case Err(e) => Err(e)
    case Ok(paths) =>
      if |paths| > 1 then Err(MultipleAsPaths)
      else if |paths| == 1 then Ok(paths[0])
      else Err(NoAsPathInAttributePath)
  }

  /** `AsPathParser::parse`: the AS path of a whole attribute block. */
  function DecodeAsPath(buf: seq<byte>): Result<seq<u32>> {
    SinglePath(CollectPaths(buf, 0, []))
  }

  /** The cursor over an attribute block. */
  class AsPathParser {
    const buffer: seq<byte>
    var next: nat

    ghost predicate Valid()
      reads this
    {
      next <= |buffer|
    }

    /** `AsPathParser::new` */
    constructor (buffer: seq<byte>)
      ensures Valid() && this.buffer == buffer && next == 0
    {
      this.buffer := buffer;
      next := 0;
    }

    /** `done`: the buffer is exhausted, so the next `advance` fails. */
    function Done(): (r: bool)
      reads this
      requires Valid()
      ensures r <==> !(next < |buffer|)
    {
      next == |buffer|
    }

    /** `advance`: the byte under the cursor, which moves one forward; at the end, an error and no move. */
    method Advance() returns (r: Result<byte>)
      requires Valid()
      modifies this`next
      ensures Valid()
      ensures old(next) == |buffer| ==> r == Err(UnexpectedEndOfBuffer) && next == old(next)
      ensures old(next) < |buffer| ==> r == Ok(buffer[old(next)]) && next == old(next) + 1
    {
      if Done() {
        r := Err(UnexpectedEndOfBuffer);
      } else {
        var byte := buffer[next];
        next := next + 1;
        r := Ok(byte);
      }
    }

    /** `parse_u32`: four bytes big-endian; with fewer left, an error after consuming them all. */
    method ParseU32() returns (r: Result<u32>)
      requires Valid()
      modifies this`next
      ensures Valid()
      ensures old(next) + 4 <= |buffer| ==> r == Ok(U32At(buffer, old(next))) && next == old(next) + 4
      ensures old(next) + 4 > |buffer| ==> r == Err(UnexpectedEndOfBuffer) && next == |buffer|
    {
      var a := Advance();
      if a.Err? { return Err(a.error); }
      var b := Advance();
      if b.Err? { return Err(b.error); }
      var c := Advance();
      if c.Err? { return Err(c.error); }
      var d := Advance();
      if d.Err? { return Err(d.error); }
      r := Ok(BeU32(a.value, b.value, c.value, d.value));
    }

    /** `parse_as_path`: one segment, as `SegmentAt` says. */
    method ParseAsPath() returns (r: Result<Option<seq<u32>>>)
      requires Valid()
      modifies this`next
      ensures Valid() && old(next) <= next
      ensures r == ValueOf(SegmentAt(buffer, old(next)))
      ensures r.Ok? ==> next == SegmentAt(buffer, old(next)).value.next
    {
      ghost var start := next;
      var asSetIndicator := Advance();
      if asSetIndicator.Err? { return Err(asSetIndicator.error); }
      match asSetIndicator.value
      case 1 =>
        var numAsn := Advance();
        if numAsn.Err? { return Err(numAsn.error); }
        var i: nat := 0;
        while i < numAsn.value
          invariant 0 <= i <= numAsn.value
          invariant Valid() && next == start + 2 + 4 * i
        {
          var asn := ParseU32();
          if asn.Err? { return Err(asn.error); }
          i := i + 1;
        }
        r := Ok(None);
      case 2 =>
        var asPath: seq<u32> := [];
        var numAsn := Advance();
        if numAsn.Err? { return Err(numAsn.error); }
        var i: nat := 0;
        while i < numAsn.value
          invariant 0 <= i <= numAsn.value
          invariant Valid() && next == start + 2 + 4 * i
          invariant asPath == AsnsAt(buffer, start + 2, i)
        {
          var asn := ParseU32();
          if asn.Err? { return Err(asn.error); }
          asPath := asPath + [asn.value];
          i := i + 1;
        }
        r := Ok(Some(asPath));
      case _ =>
        r := Err(UnknownAsValue(asSetIndicator.value));
    }

    /** `parse_attribute`: one attribute, as `AttributeAt` says. */
    method ParseAttribute() returns (r: Result<Option<seq<u32>>>)
      requires Valid()
      modifies this`next
      ensures Valid() && old(next) <= next
      ensures r == ValueOf(AttributeAt(buffer, old(next)))
      ensures r.Ok? ==> next == AttributeAt(buffer, old(next)).value.next
    {
      ghost var start := next;
      var flag := Advance();
      if flag.Err? { return Err(flag.error); }
      var typeCode := Advance();
      if typeCode.Err? { return Err(typeCode.error); }
      var lengthByte := Advance();
      if lengthByte.Err? { return Err(lengthByte.error); }
      var attributeLength: u16 := lengthByte.value;
      if (flag.value / 0x10) % 2 == 1 {
        var low := Advance();
        if low.Err? { return Err(low.error); }
        attributeLength := attributeLength * 0x100 + low.value;
      }
      assert HeaderAt(buffer, start) == Ok(Header(flag.value, typeCode.value, attributeLength, next));
      if typeCode.value == 1 || 3 <= typeCode.value <= 16 {
        var i: nat := 0;
        while i < attributeLength
          invariant 0 <= i <= attributeLength
          invariant Valid() && next == HeaderAt(buffer, start).value.valueStart + i
        {
          var skipped := Advance();
          if skipped.Err? { return Err(skipped.error); }
          i := i + 1;
        }
        r := Ok(None);
      } else if typeCode.value == 2 {
        r := ParseAsPath();
      } else {
        // the source stops here with `todo!()`
        r := Err(UnknownTypeCode(typeCode.value));
      }
    }

    /** `parse_attributes`: the walk to the end of the buffer and the single-path check. */
    method ParseAttributes() returns (r: Result<seq<u32>>)
      requires Valid()
      modifies this`next
      ensures Valid()
      ensures r == SinglePath(CollectPaths(buffer, old(next), []))
    {
      var paths: seq<seq<u32>> := [];
      ghost var start := next;
      while !Done()
        invariant Valid() && start <= next
        invariant CollectPaths(buffer, start, []) == CollectPaths(buffer, next, paths)
        decreases |buffer| - next
      {
        var path := ParseAttribute();
        if path.Err? { return Err(path.error); }
        if path.value.Some? {
          if path.value.value == [] {
            return Err(NoAsPathInAttributePath);
          }
          paths := paths + [path.value.value];
        }
      }
      if |paths| > 1 {
        r := Err(MultipleAsPaths);
      } else if |paths| == 1 {
        r := Ok(paths[0]);
      } else {
        r := Err(NoAsPathInAttributePath);
      }
    }
  }

  /** `AsPathParser::parse`: a fresh cursor over `buffer`, then `parse_attributes`. */
  method Parse(buffer: seq<byte>) returns (r: Result<seq<u32>>)
    ensures r == DecodeAsPath(buffer)
  {
    var parser := new AsPathParser(buffer);
    r := parser.ParseAttributes();
  }
}
