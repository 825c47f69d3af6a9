/**
 * An encoder for attribute blocks, the partner of the decoder in
 * `AsPathParsing`: a block built from well-formed attributes decodes to the
 * AS_SEQUENCEs it was built from, whatever other attributes surround them.
 */
module AsPathEncoding {
  import opened Bytes
  import opened Wrappers
  import opened Errors
  import opened AsPathParsing
  import opened Sequences
  import opened AsPathProperties

  /** The ASNs back to back, four bytes each, big-endian. */
  function EncodeU32s(asns: seq<u32>): (r: seq<byte>)
    ensures |r| == 4 * |asns|
  {
    if asns == [] then [] else U32ToBe(asns[0]) + EncodeU32s(asns[1..])
  }

  /** One path attribute as a value: either one the walker skips, or an AS_PATH of one segment. */
  datatype Attribute =
    | Other(flag: byte, code: byte, value: seq<byte>)
    | AsPath(flag: byte, segmentType: byte, asns: seq<u32>)

  /** The largest value length the flag's length field can state. */
  function LengthBound(flag: byte): nat {
    if ExtendedLength(flag) then 0x1_0000 else 0x100
  }

  function ValueBytes(a: Attribute): seq<byte>
    requires a.AsPath? ==> |a.asns| < 0x100
  {
    match a
    case Other(_, _, value) => value
    case AsPath(_, segmentType, asns) => [segmentType, |asns|] + EncodeU32s(asns)
  }

  /**
   * The attributes the encoder accepts: a skipped type code, an AS_SET or a
   * non-empty AS_SEQUENCE of fewer than 256 ASNs, and a value whose length
   * fits the length field.
   */
  predicate WellFormed(a: Attribute) {
    match a
    case Other(flag, code, value) => IsSkippedTypeCode(code) && |value| < LengthBound(flag)
    case AsPath(flag, segmentType, asns) =>
      (segmentType == 1 || (segmentType == 2 && asns != [])) &&
      |asns| < 0x100 && 2 + 4 * |asns| < LengthBound(flag)
  }

  function TypeCode(a: Attribute): byte {
    if a.Other? then a.code else 2
  }

  function LengthBytes(flag: byte, n: nat): (r: seq<byte>)
    requires n < LengthBound(flag)
    ensures |r| == if ExtendedLength(flag) then 2 else 1
  {
    if ExtendedLength(flag) then U16ToBe(n) else [n]
  }

  /** Flag, type code, length and value. */
  function EncodeAttribute(a: Attribute): (r: seq<byte>)
    requires WellFormed(a)
    ensures |r| >= 3
  {
    var v := ValueBytes(a);
    [a.flag, TypeCode(a)] + LengthBytes(a.flag, |v|) + v
  }

  /** What the decoder is meant to take out of one attribute. */
  function PathOf(a: Attribute): Option<seq<u32>> {
    if a.AsPath? && a.segmentType == 2 then Some(a.asns) else None
  }

  predicate AllWellFormed(attrs: seq<Attribute>) {
    forall i :: 0 <= i < |attrs| ==> WellFormed(attrs[i])
  }

  function EncodeBlock(attrs: seq<Attribute>): seq<byte>
    requires AllWellFormed(attrs)
  {
    if attrs == [] then [] else EncodeAttribute(attrs[0]) + EncodeBlock(attrs[1..])
  }

  /** The AS_SEQUENCEs of a block, in order. */
  function PathsOf(attrs: seq<Attribute>): seq<seq<u32>> {
    if attrs == [] then []
    else
      match PathOf(attrs[0])
      case None => PathsOf(attrs[1..])
      case Some(p) => [p] + PathsOf(attrs[1..])
  }

  /** `AsnsAt` read from the front: the first ASN, then the rest. */
  lemma {:induction false} AsnsAtFront(buf: seq<byte>, pos: nat, n: nat)
    requires 0 < n && pos + 4 * n <= |buf|
    ensures AsnsAt(buf, pos, n) == [U32At(buf, pos)] + AsnsAt(buf, pos + 4, n - 1)
  {
    if n > 1 {
      AsnsAtFront(buf, pos, n - 1);
      assert pos + 4 + 4 * (n - 2) == pos + 4 * (n - 1);
    }
  }

  lemma {:induction false} AsnsAtEncoded(buf: seq<byte>, pos: nat, asns: seq<u32>)
    requires pos + 4 * |asns| <= |buf| && buf[pos..pos + 4 * |asns|] == EncodeU32s(asns)
    ensures AsnsAt(buf, pos, |asns|) == asns
    decreases |asns|
  {
    if asns != [] {
      var n := |asns|;
      var first := U32ToBe(asns[0]);
      SliceOfAppend(buf, pos, first, EncodeU32s(asns[1..]));
      AsnsAtEncoded(buf, pos + 4, asns[1..]);
      assert buf[pos] == first[0] && buf[pos + 1] == first[1];
      assert buf[pos + 2] == first[2] && buf[pos + 3] == first[3];
      BeU32OfU32ToBe(asns[0]);
      AsnsAtFront(buf, pos, n);
      assert asns == [asns[0]] + asns[1..];
    }
  }

  lemma HeaderAtEncoded(buf: seq<byte>, pos: nat, flag: byte, code: byte, n: nat)
    requires n < LengthBound(flag)
    requires pos + 2 + |LengthBytes(flag, n)| <= |buf|
    requires buf[pos..pos + 2 + |LengthBytes(flag, n)|] == [flag, code] + LengthBytes(flag, n)
    ensures HeaderAt(buf, pos) == Ok(Header(flag, code, n, pos + 2 + |LengthBytes(flag, n)|))
  {
    var h := [flag, code] + LengthBytes(flag, n);
    assert buf[pos] == h[0] && buf[pos + 1] == h[1] && buf[pos + 2] == h[2];
    if ExtendedLength(flag) {
      assert buf[pos + 3] == h[3];
      BeU16OfU16ToBe(n);
    }
  }

  lemma SegmentAtEncoded(buf: seq<byte>, pos: nat, segmentType: byte, asns: seq<u32>)
    requires (segmentType == 1 || segmentType == 2) && |asns| < 0x100
    requires pos + 2 + 4 * |asns| <= |buf|
    requires buf[pos] == segmentType && buf[pos + 1] == |asns|
    requires buf[pos + 2..pos + 2 + 4 * |asns|] == EncodeU32s(asns)
    ensures SegmentAt(buf, pos) ==
      Ok(Decoded(if segmentType == 2 then Some(asns) else None, pos + 2 + 4 * |asns|))
  {
    AsnsAtEncoded(buf, pos + 2, asns);
  }

  lemma OtherAtEncoded(buf: seq<byte>, pos: nat, flag: byte, code: byte, value: seq<byte>)
    requires IsSkippedTypeCode(code) && |value| < LengthBound(flag)
    requires pos + 2 + |LengthBytes(flag, |value|)| + |value| <= |buf|
    requires buf[pos..pos + 2 + |LengthBytes(flag, |value|)| + |value|] == [flag, code] + LengthBytes(flag, |value|) + value
    ensures AttributeAt(buf, pos) == Ok(Decoded(None, pos + 2 + |LengthBytes(flag, |value|)| + |value|))
  {
    SliceOfAppend(buf, pos, [flag, code] + LengthBytes(flag, |value|), value);
    HeaderAtEncoded(buf, pos, flag, code, |value|);
  }

  lemma AsPathLayout(buf: seq<byte>, pos: nat, flag: byte, segmentType: byte, asns: seq<u32>)
    requires WellFormed(AsPath(flag, segmentType, asns))
    requires var v := [segmentType, |asns|] + EncodeU32s(asns);
      pos + 2 + |LengthBytes(flag, |v|)| + |v| <= |buf| &&
      buf[pos..pos + 2 + |LengthBytes(flag, |v|)| + |v|] == [flag, 2] + LengthBytes(flag, |v|) + v
    ensures var n := |asns|; var h := [flag, 2] + LengthBytes(flag, 2 + 4 * n); var start := pos + |h|;
      start + 2 + 4 * n <= |buf| && buf[pos..start] == h &&
      buf[start] == segmentType && buf[start + 1] == n && buf[start + 2..start + 2 + 4 * n] == EncodeU32s(asns)
  {
    var n := |asns|;
    var v := [segmentType, n] + EncodeU32s(asns);
    var h := [flag, 2] + LengthBytes(flag, |v|);
    var start := pos + |h|;
    SliceOfAppend(buf, pos, h, v);
    SliceOfAppend(buf, start, [segmentType, n], EncodeU32s(asns));
    assert buf[start..start + 2] == [segmentType, n];
    assert buf[start] == segmentType && buf[start + 1] == n;
  }

  lemma AsPathAtParts(buf: seq<byte>, pos: nat, flag: byte, segmentType: byte, asns: seq<u32>)
    requires WellFormed(AsPath(flag, segmentType, asns))
    requires var n := |asns|; var h := [flag, 2] + LengthBytes(flag, 2 + 4 * n); var start := pos + |h|;
      start + 2 + 4 * n <= |buf| && buf[pos..start] == h &&
      buf[start] == segmentType && buf[start + 1] == n && buf[start + 2..start + 2 + 4 * n] == EncodeU32s(asns)
    ensures var n := |asns|; var h := [flag, 2] + LengthBytes(flag, 2 + 4 * n);
      AttributeAt(buf, pos) ==
        Ok(Decoded(if segmentType == 2 then Some(asns) else None, pos + |h| + 2 + 4 * n))
  {
    var n := |asns|;
    var h := [flag, 2] + LengthBytes(flag, 2 + 4 * n);
    HeaderAtEncoded(buf, pos, flag, 2, 2 + 4 * n);
    SegmentAtEncoded(buf, pos + |h|, segmentType, asns);
  }

  lemma AsPathAtEncoded(buf: seq<byte>, pos: nat, flag: byte, segmentType: byte, asns: seq<u32>)
    requires WellFormed(AsPath(flag, segmentType, asns))
    requires var v := [segmentType, |asns|] + EncodeU32s(asns);
      pos + 2 + |LengthBytes(flag, |v|)| + |v| <= |buf| &&
      buf[pos..pos + 2 + |LengthBytes(flag, |v|)| + |v|] == [flag, 2] + LengthBytes(flag, |v|) + v
    ensures var v := [segmentType, |asns|] + EncodeU32s(asns);
      AttributeAt(buf, pos) ==
        Ok(Decoded(if segmentType == 2 then Some(asns) else None, pos + 2 + |LengthBytes(flag, |v|)| + |v|))
  {
    var v := [segmentType, |asns|] + EncodeU32s(asns);
    assert |v| == 2 + 4 * |asns|;
    AsPathLayout(buf, pos, flag, segmentType, asns);
    AsPathAtParts(buf, pos, flag, segmentType, asns);
  }

  /** One encoded attribute decodes to its path, and the cursor lands just after it. */
  lemma AttributeAtEncoded(buf: seq<byte>, pos: nat, a: Attribute)
    requires WellFormed(a)
    requires pos + |EncodeAttribute(a)| <= |buf|
    requires buf[pos..pos + |EncodeAttribute(a)|] == EncodeAttribute(a)
    ensures AttributeAt(buf, pos) == Ok(Decoded(PathOf(a), pos + |EncodeAttribute(a)|))
  {
    match a
    case Other(flag, code, value) =>
      OtherAtEncoded(buf, pos, flag, code, value);
    case AsPath(flag, segmentType, asns) =>
      AsPathAtEncoded(buf, pos, flag, segmentType, asns);
  }

  lemma AllWellFormedTail(attrs: seq<Attribute>)
    requires attrs != [] && AllWellFormed(attrs)
    ensures AllWellFormed(attrs[1..])
  {
    forall i | 0 <= i < |attrs[1..]| ensures WellFormed(attrs[1..][i]) {
      assert attrs[1..][i] == attrs[i + 1];
    }
  }

  /** The first attribute of an encoded block, and the rest of the block after it. */
  lemma BlockLayout(buf: seq<byte>, pos: nat, attrs: seq<Attribute>)
    requires attrs != [] && AllWellFormed(attrs)
    requires pos <= |buf| && buf[pos..] == EncodeBlock(attrs)
    ensures pos + |EncodeAttribute(attrs[0])| <= |buf|
    ensures buf[pos..pos + |EncodeAttribute(attrs[0])|] == EncodeAttribute(attrs[0])
    ensures AllWellFormed(attrs[1..]) && buf[pos + |EncodeAttribute(attrs[0])|..] == EncodeBlock(attrs[1..])
  {
    AllWellFormedTail(attrs);
    SuffixOfAppend(buf, pos, EncodeAttribute(attrs[0]), EncodeBlock(attrs[1..]));
  }

  lemma PathsOfCons(attrs: seq<Attribute>)
    requires attrs != []
    ensures PathsOf(attrs) ==
      (if PathOf(attrs[0]).Some? then [PathOf(attrs[0]).value] else []) + PathsOf(attrs[1..])
  {
  }

  /**
   * The walk from `pos` meets the attributes `attrs` one after the other and
   * ends exactly at the end of the buffer.
   */
  predicate Walks(buf: seq<byte>, pos: nat, attrs: seq<Attribute>)
    requires AllWellFormed(attrs)
    decreases |attrs|
  {
    if attrs == [] then pos == |buf|
    else
      var next := pos + |EncodeAttribute(attrs[0])|;
      AllWellFormedTail(attrs);
      pos < |buf| && AttributeAt(buf, pos) == Ok(Decoded(PathOf(attrs[0]), next)) && Walks(buf, next, attrs[1..])
  }

  lemma {:induction false} EncodedBlockWalks(buf: seq<byte>, pos: nat, attrs: seq<Attribute>)
    requires AllWellFormed(attrs)
    requires pos <= |buf| && buf[pos..] == EncodeBlock(attrs)
    ensures Walks(buf, pos, attrs)
    decreases |attrs|
  {
    if attrs != [] {
      var e := EncodeAttribute(attrs[0]);
      BlockLayout(buf, pos, attrs);
      AttributeAtEncoded(buf, pos, attrs[0]);
      EncodedBlockWalks(buf, pos + |e|, attrs[1..]);
    }
  }

  /** The first step of a walk: the first attribute decodes, its path is never empty, and the walk goes on. */
  lemma WalksFirst(buf: seq<byte>, pos: nat, attrs: seq<Attribute>)
    requires attrs != [] && AllWellFormed(attrs) && Walks(buf, pos, attrs)
    ensures var next := pos + |EncodeAttribute(attrs[0])|;
      pos < |buf| && AttributeAt(buf, pos) == Ok(Decoded(PathOf(attrs[0]), next)) &&
      AllWellFormed(attrs[1..]) && Walks(buf, next, attrs[1..])
    ensures PathOf(attrs[0]).Some? ==> PathOf(attrs[0]).value != []
  {
    AllWellFormedTail(attrs);
    assert WellFormed(attrs[0]);
  }

  /** After the first attribute the walk goes on over the rest. */
  lemma WalksRest(buf: seq<byte>, pos: nat, attrs: seq<Attribute>)
    requires attrs != [] && AllWellFormed(attrs) && Walks(buf, pos, attrs)
    ensures AllWellFormed(attrs[1..]) && pos + |EncodeAttribute(attrs[0])| <= |buf|
    ensures Walks(buf, pos + |EncodeAttribute(attrs[0])|, attrs[1..])
  {
    WalksFirst(buf, pos, attrs);
  }

  /** The paths the walk has found after meeting the first attribute of `attrs`. */
  function FoundAfter(found: seq<seq<u32>>, a: Attribute): seq<seq<u32>> {
    if PathOf(a).Some? then found + [PathOf(a).value] else found
  }

  /** One attribute of the walk: what the rest of the walk collects is what the whole walk collects. */
  lemma CollectPathsWalksStep(buf: seq<byte>, pos: nat, attrs: seq<Attribute>, found: seq<seq<u32>>,
                               next: nat, found': seq<seq<u32>>)
    requires attrs != [] && AllWellFormed(attrs) && pos <= |buf| && Walks(buf, pos, attrs)
    requires next == pos + |EncodeAttribute(attrs[0])| && found' == FoundAfter(found, attrs[0])
    requires next <= |buf| && CollectPaths(buf, next, found') == Ok(found' + PathsOf(attrs[1..]))
    ensures CollectPaths(buf, pos, found) == Ok(found + PathsOf(attrs))
  {
    WalksFirst(buf, pos, attrs);
    CollectStep(buf, pos, found, PathOf(attrs[0]), next);
    FoundAfterFirst(found, attrs);
  }

  /** Collecting the first attribute's path, then the rest, collects the paths of the whole block. */
  lemma FoundAfterFirst(found: seq<seq<u32>>, attrs: seq<Attribute>)
    requires attrs != []
    ensures FoundAfter(found, attrs[0]) + PathsOf(attrs[1..]) == found + PathsOf(attrs)
  {
    PathsOfCons(attrs);
    var rest := PathsOf(attrs[1..]);
    if PathOf(attrs[0]).Some? {
      var p := PathOf(attrs[0]).value;
      assert PathsOf(attrs) == [p] + rest;
      AppendAssociative(found, [p], rest);
    } else {
      assert PathsOf(attrs) == rest;
    }
  }

  lemma AppendAssociative(a: seq<seq<u32>>, b: seq<seq<u32>>, c: seq<seq<u32>>)
    ensures (a + b) + c == a + (b + c)
  {
  }

  /** The walk over a block collects exactly the block's AS_SEQUENCEs. */
  lemma {:induction false} CollectPathsWalks(buf: seq<byte>, pos: nat, attrs: seq<Attribute>, found: seq<seq<u32>>)
    requires AllWellFormed(attrs) && pos <= |buf| && Walks(buf, pos, attrs)
    ensures CollectPaths(buf, pos, found) == Ok(found + PathsOf(attrs))
    decreases |attrs|
  {
    if attrs == [] {
      assert found + PathsOf(attrs) == found;
    } else {
      var next, found' := pos + |EncodeAttribute(attrs[0])|, FoundAfter(found, attrs[0]);
      WalksRest(buf, pos, attrs);
      CollectPathsWalks(buf, next, attrs[1..], found');
      CollectPathsWalksStep(buf, pos, attrs, found, next, found');
    }
  }

  /**
   * Round trip: an encoded block decodes to its one AS_SEQUENCE, and to
   * `MultipleAsPaths` or `NoAsPathInAttributePath` when it has several or none.
   */
  lemma DecodeEncodedBlock(attrs: seq<Attribute>)
    requires AllWellFormed(attrs)
    ensures |PathsOf(attrs)| == 1 ==> DecodeAsPath(EncodeBlock(attrs)) == Ok(PathsOf(attrs)[0])
    ensures |PathsOf(attrs)| > 1 ==> DecodeAsPath(EncodeBlock(attrs)) == Err(MultipleAsPaths)
    ensures PathsOf(attrs) == [] ==> DecodeAsPath(EncodeBlock(attrs)) == Err(NoAsPathInAttributePath)
  {
    var buf := EncodeBlock(attrs);
    assert buf[0..] == buf;
    EncodedBlockWalks(buf, 0, attrs);
    CollectPathsWalks(buf, 0, attrs, []);
    assert [] + PathsOf(attrs) == PathsOf(attrs);
  }
}
