/**
 * `Address`: an IP address with a mask, parsed from `"ip/mask"` text.
 *
 * The IP literal itself is parsed by the standard library
 * (`IpAddr::from_str`), which is not part of this model: every parser takes
 * it as a parameter `parseIp`.  An `IpAddr` is kept as the values the
 * standard library stores, four octets or eight 16-bit segments, so that
 * addresses built from prefix bytes can be compared.
 */
module Addresses {
  import opened Wrappers
  import opened Bytes
  import opened Text
  import opened Errors

  datatype IpAddr = V4(octets: seq<byte>) | V6(segments: seq<u16>)

  /** Equality is componentwise, as the derived `PartialEq` of the Rust struct. */
  datatype Address = Address(ip: IpAddr, mask: byte)

  /** The text before the first `/`. */
  function IpField(text: string): string
    requires '/' in text
  {
    text[..Find(text, '/').value]
  }

  /** The text between the first `/` and the next one, or the end of the text. */
  function MaskField(text: string): string
    requires '/' in text
  {
    var rest := text[Find(text, '/').value + 1..];
    match Find(rest, '/')
    case None => rest
    case Some(j) => rest[..j]
  }

  /** The first two `/`-separated fields are the IP field and the mask field. */
  lemma SplitFields(text: string)
    requires '/' in text
    ensures |Split(text, '/')| >= 2
    ensures Split(text, '/')[0] == IpField(text)
    ensures Split(text, '/')[1] == MaskField(text)
  {
    var i := Find(text, '/').value;
    var rest := text[i + 1..];
    assert Split(text, '/') == [text[..i]] + Split(rest, '/');
    match Find(rest, '/')
    case None =>
    case Some(j) =>
  }

  /**
   * `parse::<u8>().unwrap()` panics on a mask that is not a byte; it is only
   * reached once the IP field has parsed.
   */
  predicate MaskParses(text: string, parseIp: string -> Option<IpAddr>) {
    '/' in text && parseIp(IpField(text)).Some? ==> ParseUnsigned(MaskField(text), 0x100).Some?
  }

  /** `Address::from_str` */
  function FromStr(text: string, parseIp: string -> Option<IpAddr>): (r: Result<Address>)
    requires MaskParses(text, parseIp)
    ensures '/' !in text ==> r == Err(NoSlash(text))
    ensures '/' in text ==> (r.Err? <==> parseIp(IpField(text)).None?)
    ensures '/' in text && r.Err? ==> r.error == AddrParse(IpField(text))
    ensures r.Ok? ==> parseIp(IpField(text)) == Some(r.value.ip)
    ensures r.Ok? ==> ParseUnsigned(MaskField(text), 0x100) == Some(r.value.mask as nat)
  {
    match Find(text, '/')
    case None => Err(NoSlash(text))
    case Some(_) =>
      SplitFields(text);
      var ipMask := Split(text, '/');
      var ipStr := ipMask[0];
      match parseIp(ipStr)
      case None => Err(AddrParse(ipStr))
      case Some(ip) => Ok(Address(ip, ParseUnsigned(ipMask[1], 0x100).value))
  }

  /** The fields of `ipText/digits` followed by nothing or by `/` and more. */
  lemma FieldsOfText(ipText: string, digits: string, tail: string)
    requires '/' !in ipText && '/' !in digits
    requires tail == [] || tail[0] == '/'
    ensures '/' in ipText + "/" + digits + tail
    ensures IpField(ipText + "/" + digits + tail) == ipText
    ensures MaskField(ipText + "/" + digits + tail) == digits
  {
    var text := ipText + "/" + digits + tail;
    assert text == ipText + ['/'] + (digits + tail);
    FindAfterPrefix(ipText, '/', digits + tail);
    assert text[..|ipText|] == ipText;
    var rest := text[|ipText| + 1..];
    assert rest == digits + tail;
    if tail == [] {
      assert rest == digits;
      assert Find(rest, '/') == None;
    } else {
      assert rest == digits + ['/'] + tail[1..];
      FindAfterPrefix(digits, '/', tail[1..]);
      assert rest[..|digits|] == digits;
    }
  }

  /**
   * The text `format!("{}/{}", ip, mask)` parses back to the address, also
   * when further `/`-separated fields follow it.
   */
  lemma FromStrOfText(ipText: string, ip: IpAddr, mask: byte, tail: string, parseIp: string -> Option<IpAddr>)
    requires '/' !in ipText && parseIp(ipText) == Some(ip)
    requires tail == [] || tail[0] == '/'
    ensures MaskParses(ipText + "/" + DecimalText(mask) + tail, parseIp)
    ensures FromStr(ipText + "/" + DecimalText(mask) + tail, parseIp) == Ok(Address(ip, mask))
  {
    NumeralHasNo(mask, 10, '/');
    FieldsOfText(ipText, DecimalText(mask), tail);
    ParseDecimalText(mask, 0x100);
  }

  /** Appending `/` and more text leaves the first two fields alone. */
  lemma TrailingFields(text: string, extra: string)
    requires '/' in text
    ensures '/' in text + "/" + extra
    ensures IpField(text + "/" + extra) == IpField(text)
    ensures MaskField(text + "/" + extra) == MaskField(text)
  {
    var longer := text + "/" + extra;
    var more := "/" + extra;
    assert longer == text + more;
    FindInPrefix(text, more, '/');
    var i := Find(text, '/').value;
    assert Find(longer, '/') == Some(i);
    assert longer[..i] == text[..i];
    var rest := text[i + 1..];
    assert longer[i + 1..] == rest + more;
    RestFieldUnchanged(rest, extra);
  }

  /** The mask field of the text after the first `/` survives appending `/` and more. */
  lemma RestFieldUnchanged(rest: string, extra: string)
    ensures var longer := rest + ("/" + extra);
      match Find(rest, '/')
      case None => Find(longer, '/') == Some(|rest|) && longer[..|rest|] == rest
      case Some(j) => Find(longer, '/') == Some(j) && longer[..j] == rest[..j]
  {
    var more := "/" + extra;
    if '/' in rest {
      FindInPrefix(rest, more, '/');
      var j := Find(rest, '/').value;
      assert (rest + more)[..j] == rest[..j];
    } else {
      assert rest + more == rest + ['/'] + extra;
      FindAfterPrefix(rest, '/', extra);
      assert (rest + more)[..|rest|] == rest;
    }
  }

  /** Fields after the second `/` are ignored. */
  lemma TrailingFieldsIgnored(text: string, extra: string, parseIp: string -> Option<IpAddr>)
    requires '/' in text && MaskParses(text, parseIp)
    ensures MaskParses(text + "/" + extra, parseIp)
    ensures FromStr(text + "/" + extra, parseIp) == FromStr(text, parseIp)
  {
    TrailingFields(text, extra);
  }

  /** `"127.0.0.1/23"` is the address 127.0.0.1 with mask 23. */
  lemma AddressFromStrExample(text: string, parseIp: string -> Option<IpAddr>, ip: IpAddr)
    requires text == "127.0.0.1/23" && parseIp("127.0.0.1") == Some(ip)
    ensures MaskParses(text, parseIp)
    ensures FromStr(text, parseIp) == Ok(Address(ip, 23))
  {
    var ipText := "127.0.0.1";
    assert DecimalText(23) == "23" by {
      DecimalTwoDigits(23);
    }
    assert '/' !in ipText by {
      forall i | 0 <= i < |ipText| ensures ipText[i] != '/' {
      }
    }
    assert text == ipText + "/" + DecimalText(23) + "";
    FromStrOfText(ipText, ip, 23, "", parseIp);
  }
}
