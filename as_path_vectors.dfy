/**
 * The attribute blocks of the source's decoder tests, decoded step by step,
 * and two blocks that show how the decoder treats the declared length of an
 * AS_PATH attribute.
 */
module AsPathVectors {
  import opened Bytes
  import opened Wrappers
  import opened Errors
  import opened AsPathParsing
  import opened AsPathProperties

  // Each block is written attribute by attribute; the bytes are those of the tests.

  /** ORIGIN, AS_PATH (extended length) with two ASNs, NEXT_HOP. */
  const Block0: seq<byte> :=
    [64, 1, 1, 0] + [80, 2, 0, 10, 2, 2, 0, 0, 251, 15, 0, 0, 243, 32] + [64, 3, 4, 195, 66, 225, 77]

  lemma Block0Attributes()
    ensures AttributeAt(Block0, 0) == Ok(Decoded(None, 4))
    ensures AttributeAt(Block0, 4) == Ok(Decoded(Some([64271, 62240]), 18))
    ensures AttributeAt(Block0, 18) == Ok(Decoded(None, 25))
  {
    assert AsnsAt(Block0, 10, 2) == [64271, 62240];
  }

  lemma DecodeBlock0()
    ensures DecodeAsPath(Block0) == Ok([64271, 62240])
  {
    Block0Attributes();
    CollectStep(Block0, 0, [], None, 4);
    CollectStep(Block0, 4, [], Some([64271, 62240]), 18);
    CollectStep(Block0, 18, [[64271, 62240]], None, 25);
  }

  /** ORIGIN, AS_PATH with three ASNs, NEXT_HOP, COMMUNITIES. */
  const Block1: seq<byte> :=
    [64, 1, 1, 0] + [64, 2, 14, 2, 3, 0, 0, 12, 231, 0, 0, 50, 74, 0, 3, 49, 30] +
    [64, 3, 4, 195, 66, 224, 110] +
    [192, 8, 28, 12, 231, 3, 232, 12, 231, 3, 238, 12, 231, 3, 252, 12, 231, 12, 21,
     50, 74, 2, 188, 50, 74, 3, 243, 50, 74, 11, 210]

  lemma Block1AsPath()
    ensures AttributeAt(Block1, 4) == Ok(Decoded(Some([3303, 12874, 209182]), 21))
  {
    assert U32At(Block1, 9) == 3303 && U32At(Block1, 13) == 12874 && U32At(Block1, 17) == 209182;
    assert AsnsAt(Block1, 9, 1) == [3303];
    assert AsnsAt(Block1, 9, 2) == [3303, 12874];
    assert AsnsAt(Block1, 9, 3) == [3303, 12874, 209182];
  }

  lemma Block1Others()
    ensures |Block1| == 59
    ensures AttributeAt(Block1, 0) == Ok(Decoded(None, 4))
    ensures AttributeAt(Block1, 21) == Ok(Decoded(None, 28))
    ensures AttributeAt(Block1, 28) == Ok(Decoded(None, 59))
  {
  }

  lemma DecodeBlock1()
    ensures DecodeAsPath(Block1) == Ok([3303, 12874, 209182])
  {
    Block1AsPath();
    Block1Others();
    CollectStep(Block1, 0, [], None, 4);
    CollectStep(Block1, 4, [], Some([3303, 12874, 209182]), 21);
    CollectStep(Block1, 21, [[3303, 12874, 209182]], None, 28);
    CollectStep(Block1, 28, [[3303, 12874, 209182]], None, 59);
    assert [] + [[3303, 12874, 209182]] == [[3303, 12874, 209182]];
    assert CollectPaths(Block1, 59, [[3303, 12874, 209182]]) == Ok([[3303, 12874, 209182]]);
  }

  /** ORIGIN, AS_PATH with two ASNs, NEXT_HOP, MULTI_EXIT_DISC, COMMUNITIES. */
  const Block2: seq<byte> :=
    [64, 1, 1, 0] + [64, 2, 10, 2, 2, 0, 0, 165, 233, 0, 0, 5, 19] + [64, 3, 4, 195, 66, 226, 113] +
    [128, 4, 4, 0, 0, 0, 0] +
    [192, 8, 24, 184, 43, 5, 222, 184, 43, 7, 208, 184, 43, 8, 64, 184, 43, 8, 252,
     184, 43, 9, 112, 184, 43, 10, 40]

  lemma Block2AsPath()
    ensures AttributeAt(Block2, 4) == Ok(Decoded(Some([42473, 1299]), 17))
  {
    assert U32At(Block2, 9) == 42473 && U32At(Block2, 13) == 1299;
    assert AsnsAt(Block2, 9, 1) == [42473];
    assert AsnsAt(Block2, 9, 2) == [42473, 1299];
  }

  lemma Block2Others()
    ensures |Block2| == 58
    ensures AttributeAt(Block2, 0) == Ok(Decoded(None, 4))
    ensures AttributeAt(Block2, 17) == Ok(Decoded(None, 24))
    ensures AttributeAt(Block2, 24) == Ok(Decoded(None, 31))
    ensures AttributeAt(Block2, 31) == Ok(Decoded(None, 58))
  {
  }

  lemma DecodeBlock2()
    ensures DecodeAsPath(Block2) == Ok([42473, 1299])
  {
    Block2AsPath();
    Block2Others();
    CollectStep(Block2, 0, [], None, 4);
    CollectStep(Block2, 4, [], Some([42473, 1299]), 17);
    CollectStep(Block2, 17, [[42473, 1299]], None, 24);
    CollectStep(Block2, 24, [[42473, 1299]], None, 31);
    CollectStep(Block2, 31, [[42473, 1299]], None, 58);
    assert [] + [[42473, 1299]] == [[42473, 1299]];
    assert CollectPaths(Block2, 58, [[42473, 1299]]) == Ok([[42473, 1299]]);
  }

  /** An AS_PATH whose declared length (0) disagrees with its one segment still yields that segment. */
  lemma DeclaredAsPathLengthIgnored()
    ensures DecodeAsPath([64, 2, 0, 2, 1, 0, 0, 0, 7]) == Ok([7])
  {
    var buf: seq<byte> := [64, 2, 0, 2, 1, 0, 0, 0, 7];
    assert AsnsAt(buf, 5, 1) == [7];
    assert AttributeAt(buf, 0) == Ok(Decoded(Some([7]), 9));
    CollectStep(buf, 0, [], Some([7]), 9);
  }

  /**
   * An AS_PATH of two AS_SEQUENCE segments: after the first segment the
   * walker reads the second one's bytes as attribute headers.
   */
  lemma SecondSegmentReadAsHeaders()
    ensures DecodeAsPath([64, 2, 12, 2, 1, 0, 0, 0, 7, 2, 1, 0, 0, 0, 8]) == Err(UnknownTypeCode(0))
  {
    var buf: seq<byte> := [64, 2, 12, 2, 1, 0, 0, 0, 7, 2, 1, 0, 0, 0, 8];
    assert AsnsAt(buf, 5, 1) == [7];
    assert AttributeAt(buf, 0) == Ok(Decoded(Some([7]), 9));
    assert AttributeAt(buf, 9) == Ok(Decoded(None, 12));
    assert AttributeAt(buf, 12) == Err(UnknownTypeCode(0));
    CollectStep(buf, 0, [], Some([7]), 9);
    CollectStep(buf, 9, [[7]], None, 12);
  }

  /** The cursor tests: `parse_u32` over [0, 1, 2, 3, 4] reads 66051 and stops at 4, which is not the end. */
  method CursorExample() returns (value: u32, next: nat, done: bool)
    ensures value == 66051 && next == 4 && !done
  {
    var parser := new AsPathParser([0, 1, 2, 3, 4]);
    var r := parser.ParseU32();
    assert U32At([0, 1, 2, 3, 4], 0) == 66051;
    value, next, done := r.value, parser.next, parser.Done();
  }
}
