/**
 * The crate's error taxonomy and the `Display` messages of its variants.
 * One datatype covers every variant the modelled files use.
 */
module Errors {
  import opened Bytes
  import opened Text
  import opened Wrappers

  datatype Error =
    | UnexpectedEndOfBuffer
    | NoAsPathInAttributePath
    | MultipleAsPaths
    | UnknownAsValue(unknownAsValue: byte)
    | UnknownTypeCode(unknownTypeCode: byte)
    | MissingPathAttribute(missingAttribute: string)
    | NoSlash(badAddr: string)
    | AddrParse(badAddr: string)
    | NoPipe(badQuagga: string)
    | ParseInt(badNum: string)

  /** The crate's `Result<T>` alias, whose error type is `Error`. */
  datatype Result<+T> = Ok(value: T) | Err(error: Error)

  /** The variants whose `Display` message is built from their own fields only. */
  predicate HasOwnMessage(e: Error) {
    e.NoSlash? || e.UnknownTypeCode? || e.MissingPathAttribute? || e.UnknownAsValue?
  }

  const NoSlashHead: string := "Invalid IP and mask: "
  const NoSlashTail: string := ". Missing `/`, expected format `IP/mask`"
  const TypeCodeHead: string := "Did not recognize type code `"
  const TypeCodeTail: string := "`, expected type code between 1 and 16."
  const MissingHead: string := "Invalid mrt entry. Missing "
  const MissingTail: string := "."
  const AsValueHead: string := "Did not recognize as path value `"
  const AsValueTail: string := "`, expected AS_SET (1) or AS_SEQUENCE (2)."

  /**
   * `<Error as Display>::fmt`, numbers in decimal: the variant's fixed head,
   * then exactly the field (or the number), then the variant's fixed tail.
   */
  function Message(e: Error): (r: string)
    requires HasOwnMessage(e)
    ensures |r| == |Head(e)| + |Payload(e)| + |Tail(e)|
    ensures r[..|Head(e)|] == Head(e) && r[|r| - |Tail(e)|..] == Tail(e)
    ensures r[|Head(e)|..|r| - |Tail(e)|] == Payload(e)
  {
    ConcatParts(Head(e), Payload(e), Tail(e));
    match e
    case NoSlash(a) => NoSlashHead + a + NoSlashTail
    case UnknownTypeCode(n) => TypeCodeHead + DecimalText(n) + TypeCodeTail
    case MissingPathAttribute(s) => MissingHead + s + MissingTail
    case UnknownAsValue(n) => AsValueHead + DecimalText(n) + AsValueTail
  }

  /** The three parts of a concatenation can be sliced back out of it. */
  lemma ConcatParts(h: string, p: string, t: string)
    ensures var r := h + p + t;
      r[..|h|] == h && r[|h|..|r| - |t|] == p && r[|r| - |t|..] == t
  {
    var r := h + p + t;
    assert r[..|h|] == h;
    assert r[|h|..|r| - |t|] == p;
    assert r[|r| - |t|..] == t;
  }

  /** The payload of a message: what stands between its variant's fixed head and tail. */
  function Payload(e: Error): string
    requires HasOwnMessage(e)
  {
    match e
    case NoSlash(a) => a
    case UnknownTypeCode(n) => DecimalText(n)
    case MissingPathAttribute(s) => s
    case UnknownAsValue(n) => DecimalText(n)
  }

  function Head(e: Error): string
    requires HasOwnMessage(e)
  {
    match e
    case NoSlash(_) => NoSlashHead
    case UnknownTypeCode(_) => TypeCodeHead
    case MissingPathAttribute(_) => MissingHead
    case UnknownAsValue(_) => AsValueHead
  }

  function Tail(e: Error): string
    requires HasOwnMessage(e)
  {
    match e
    case NoSlash(_) => NoSlashTail
    case UnknownTypeCode(_) => TypeCodeTail
    case MissingPathAttribute(_) => MissingTail
    case UnknownAsValue(_) => AsValueTail
  }

  /** A message is its variant's head, then the payload, then its variant's tail. */
  lemma MessageShape(e: Error)
    requires HasOwnMessage(e)
    ensures Message(e) == Head(e) + Payload(e) + Tail(e)
  {
  }

  /** The `no_slash_display` test: the message of the text `INVALID_IP_AND_MASK`, which has no `/`. */
  lemma NoSlashDisplay(bad: string)
    requires bad == "INVALID_IP_AND_MASK"
    ensures Message(NoSlash(bad)) == "Invalid IP and mask: " + bad + ". Missing `/`, expected format `IP/mask`"
  {
  }

  /** The character at position 18 of a message, which lies inside every head. */
  function Marker(e: Error): char
    requires HasOwnMessage(e)
  {
    match e
    case NoSlash(_) => 'k'
    case UnknownTypeCode(_) => 't'
    case MissingPathAttribute(_) => ' '
    case UnknownAsValue(_) => 'a'
  }

  lemma MarkerOfMessage(e: Error)
    requires HasOwnMessage(e)
    ensures |Message(e)| > 18 && Message(e)[18] == Marker(e)
  {
    var m, h := Message(e), Head(e);
    match e
    case NoSlash(_) => assert h[18] == 'k';
    case UnknownTypeCode(_) => assert h[18] == 't';
    case MissingPathAttribute(_) => assert h[18] == ' ';
    case UnknownAsValue(_) => assert h[18] == 'a';
    assert m[18] == m[..|h|][18];
  }

  /** A message names its variant: the heads of the four variants differ at position 18. */
  lemma MessageNamesVariant(e1: Error, e2: Error)
    requires HasOwnMessage(e1) && HasOwnMessage(e2)
    requires Message(e1) == Message(e2)
    ensures Head(e1) == Head(e2) && Tail(e1) == Tail(e2)
  {
    MarkerOfMessage(e1);
    MarkerOfMessage(e2);
  }

  /** Equal messages come from equal errors: the rendering loses nothing. */
  lemma {:induction false} MessageInjective(e1: Error, e2: Error)
    requires HasOwnMessage(e1) && HasOwnMessage(e2)
    requires Message(e1) == Message(e2)
    ensures e1 == e2
  {
    MessageNamesVariant(e1, e2);
    MessageShape(e1);
    MessageShape(e2);
    var m := Message(e1);
    var h, t := |Head(e1)|, |Tail(e1)|;
    assert |Payload(e1)| == |Payload(e2)|;
    assert e1.NoSlash? <==> e2.NoSlash?;
    assert e1.UnknownTypeCode? <==> e2.UnknownTypeCode?;
    assert e1.UnknownAsValue? <==> e2.UnknownAsValue?;
    assert Payload(e1) == m[h..|m| - t] == Payload(e2);
    match e1
    case UnknownTypeCode(n) => NumeralInjective(n, e2.unknownTypeCode, 10);
    case UnknownAsValue(n) => NumeralInjective(n, e2.unknownAsValue, 10);
    case _ =>
  }

  /** The decimal number inside an `UnknownTypeCode` or `UnknownAsValue` message parses back to the code. */
  lemma MessageNumberParses(e: Error)
    requires e.UnknownTypeCode? || e.UnknownAsValue?
    ensures var m := Message(e);
      var n := if e.UnknownTypeCode? then e.unknownTypeCode else e.unknownAsValue;
      ParseUnsigned(m[|Head(e)|..|m| - |Tail(e)|], 0x100) == Some(n)
  {
    MessageShape(e);
    var m := Message(e);
    assert m[|Head(e)|..|m| - |Tail(e)|] == Payload(e);
    if e.UnknownTypeCode? {
      ParseDecimalText(e.unknownTypeCode, 0x100);
    } else {
      ParseDecimalText(e.unknownAsValue, 0x100);
    }
  }
}
