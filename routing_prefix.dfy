/**
 * `RoutingPrefix`: the same `"ip/mask"` text as `Address`, parsed by the
 * same steps into a struct of its own.
 */
module RoutingPrefixes {
  import opened Wrappers
  import opened Bytes
  import opened Text
  import opened Errors
  import opened Addresses

  datatype RoutingPrefix = RoutingPrefix(ip: IpAddr, mask: byte)

  /** `RoutingPrefix::from_str`: the `find` / `split` / `parse` chain of `Address::from_str`. */
  function FromStr(text: string, parseIp: string -> Option<IpAddr>): (r: Result<RoutingPrefix>)
    requires MaskParses(text, parseIp)
    ensures '/' !in text ==> r == Err(NoSlash(text))
    ensures '/' in text ==> (r.Err? <==> parseIp(IpField(text)).None?)
    ensures '/' in text && r.Err? ==> r.error == AddrParse(IpField(text))
    ensures r.Ok? ==> parseIp(IpField(text)) == Some(r.value.ip)
    ensures r.Ok? ==> ParseUnsigned(MaskField(text), 0x100) == Some(r.value.mask as nat)
  {
    match Addresses.FromStr(text, parseIp)
    case Err(e) => Err(e)
    case Ok(a) => Ok(RoutingPrefix(a.ip, a.mask))
  }

  /** Fields after the second `/` are ignored. */
  lemma TrailingFieldsIgnored(text: string, extra: string, parseIp: string -> Option<IpAddr>)
    requires '/' in text && MaskParses(text, parseIp)
    ensures MaskParses(text + "/" + extra, parseIp)
    ensures FromStr(text + "/" + extra, parseIp) == FromStr(text, parseIp)
  {
    Addresses.TrailingFieldsIgnored(text, extra, parseIp);
  }

  /** The text `format!("{}/{}", ip, mask)` parses back to the prefix. */
  lemma FromStrOfText(ipText: string, ip: IpAddr, mask: byte, parseIp: string -> Option<IpAddr>)
    requires '/' !in ipText && parseIp(ipText) == Some(ip)
    ensures MaskParses(ipText + "/" + DecimalText(mask), parseIp)
    ensures FromStr(ipText + "/" + DecimalText(mask), parseIp) == Ok(RoutingPrefix(ip, mask))
  {
    Addresses.FromStrOfText(ipText, ip, mask, "", parseIp);
    assert ipText + "/" + DecimalText(mask) + "" == ipText + "/" + DecimalText(mask);
  }

  /** `"127.0.0.1/23"` is the prefix 127.0.0.1 with mask 23. */
  lemma RoutingPrefixFromStrIpv4(text: string, parseIp: string -> Option<IpAddr>, ip: IpAddr)
    requires text == "127.0.0.1/23" && parseIp("127.0.0.1") == Some(ip)
    ensures MaskParses(text, parseIp)
    ensures FromStr(text, parseIp) == Ok(RoutingPrefix(ip, 23))
  {
    AddressFromStrExample(text, parseIp, ip);
  }

  /** `"2001::/32"` is the prefix 2001:: with mask 32. */
  lemma RoutingPrefixFromStrIpv6(text: string, parseIp: string -> Option<IpAddr>, ip: IpAddr)
    requires text == "2001::/32" && parseIp("2001::") == Some(ip)
    ensures MaskParses(text, parseIp)
    ensures FromStr(text, parseIp) == Ok(RoutingPrefix(ip, 32))
  {
    var ipText := "2001::";
    assert DecimalText(32) == "32" by {
      DecimalTwoDigits(32);
    }
    assert '/' !in ipText by {
      forall i | 0 <= i < |ipText| ensures ipText[i] != '/' {
      }
    }
    assert text == ipText + "/" + DecimalText(32);
    FromStrOfText(ipText, ip, 32, parseIp);
  }
}
