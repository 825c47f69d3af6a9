/**
 * `BGPPath`: one line of a Quagga-style dump, `"ip/mask|asn asn ..."`, as an
 * address and the AS path with adjacent duplicates collapsed.
 */
module BgpPaths {
  import opened Wrappers
  import opened Bytes
  import opened Text
  import opened Errors
  import opened Sequences
  import opened Addresses

  datatype BgpPath = BgpPath(addr: Address, asPath: seq<u32>)

  const U32Bound: nat := 0x1_0000_0000

  /** The index of the first token that is not a `u32`, or the number of tokens when all are. */
  function FirstUnparsed(tokens: seq<string>): (i: nat)
    ensures i <= |tokens|
    ensures forall j :: 0 <= j < i ==> ParseUnsigned(tokens[j], U32Bound).Some?
    ensures i < |tokens| ==> ParseUnsigned(tokens[i], U32Bound).None?
  {
    if tokens == [] then 0
    else if ParseUnsigned(tokens[0], U32Bound).None? then 0
    else
      var i := FirstUnparsed(tokens[1..]);
      assert forall j :: 0 <= j < |tokens| - 1 ==> tokens[1..][j] == tokens[j + 1];
      1 + i
  }

  /**
   * `tokens.map(str::parse::<u32>).collect::<Result<Vec<u32>>>()`: every
   * token as a number, or the error of the first token that is not one.
   */
  function ParseAsns(tokens: seq<string>): (r: Result<seq<u32>>)
    ensures r.Ok? ==> |r.value| == |tokens|
    ensures r.Ok? ==> forall i :: 0 <= i < |tokens| ==> ParseUnsigned(tokens[i], U32Bound) == Some(r.value[i] as nat)
    ensures r.Err? ==> FirstUnparsed(tokens) < |tokens| && r.error == ParseInt(tokens[FirstUnparsed(tokens)])
  {
    if tokens == [] then Ok([])
    else
      match ParseUnsigned(tokens[0], U32Bound)
      case None => Err(ParseInt(tokens[0]))
      case Some(v) =>
        match ParseAsns(tokens[1..])
        case Err(e) =>
          assert tokens[1..][FirstUnparsed(tokens[1..])] == tokens[FirstUnparsed(tokens)];
          Err(e)
        case Ok(vs) =>
          var r := [v as u32] + vs;
          assert forall i :: 0 < i < |tokens| ==> tokens[1..][i - 1] == tokens[i] && r[i] == vs[i - 1];
          Ok(r)
  }

  /** The line's required shape: at most one `|`, and an address whose mask is a byte. */
  predicate LineParses(text: string, parseIp: string -> Option<IpAddr>) {
    '|' in text ==> |Split(text, '|')| == 2 && MaskParses(Split(text, '|')[0], parseIp)
  }

  /** `BGPPath::from_str` */
  function FromStr(text: string, parseIp: string -> Option<IpAddr>): (r: Result<BgpPath>)
    requires LineParses(text, parseIp)
    ensures r == Err(NoPipe(text)) <==> '|' !in text
    ensures '|' in text && Addresses.FromStr(Split(text, '|')[0], parseIp).Err? ==>
      r == Err(Addresses.FromStr(Split(text, '|')[0], parseIp).error)
    ensures r.Ok? ==> Addresses.FromStr(Split(text, '|')[0], parseIp) == Ok(r.value.addr)
    ensures r.Ok? ==> r.value.asPath != [] && NoAdjacentDuplicates(r.value.asPath)
    ensures r.Ok? ==>
      '|' in text && ParseAsns(Split(Split(text, '|')[1], ' ')).Ok? &&
      r.value.asPath == Dedup(ParseAsns(Split(Split(text, '|')[1], ' ')).value)
    ensures ('|' in text && Addresses.FromStr(Split(text, '|')[0], parseIp).Ok? &&
             ParseAsns(Split(Split(text, '|')[1], ' ')).Err?) ==>
      r == Err(ParseInt(Split(Split(text, '|')[1], ' ')[FirstUnparsed(Split(Split(text, '|')[1], ' '))]))
  {
    match Find(text, '|')
    case None => Err(NoPipe(text))
    case Some(_) =>
      var recordVec := Split(text, '|');
      match Addresses.FromStr(recordVec[0], parseIp)
      case Err(e) => Err(e)
      case Ok(addr) =>
        match ParseAsns(Split(recordVec[1], ' '))
        case Err(e) => Err(e)
        case Ok(asPath) => Ok(BgpPath(addr, Dedup(asPath)))
  }

  /** The ASN list as a dump writes it: decimal numbers separated by single spaces. */
  function AsnText(asns: seq<u32>): string {
    Join(DecimalTexts(asns), ' ')
  }

  function DecimalTexts(asns: seq<u32>): (r: seq<string>)
    ensures |r| == |asns| && forall i :: 0 <= i < |asns| ==> r[i] == DecimalText(asns[i])
  {
    seq(|asns|, i requires 0 <= i < |asns| => DecimalText(asns[i]))
  }

  /** Parsing the decimal texts of numbers gives the numbers back. */
  lemma ParseAsnsOfTexts(asns: seq<u32>)
    ensures ParseAsns(DecimalTexts(asns)) == Ok(asns)
  {
    var tokens := DecimalTexts(asns);
    forall i | 0 <= i < |tokens| ensures ParseUnsigned(tokens[i], U32Bound) == Some(asns[i] as nat) {
      ParseDecimalText(asns[i], U32Bound);
    }
    var r := ParseAsns(tokens);
    assert r.value == asns;
  }

  /** `'|'`, `'/'` and `' '` are not decimal digits. */
  lemma AsnTextHasNo(asns: seq<u32>, c: char)
    requires c != ' ' && DigitValue(c, 10) == 10
    ensures c !in AsnText(asns)
  {
    var parts := DecimalTexts(asns);
    forall i | 0 <= i < |parts| ensures c !in parts[i] {
      NumeralHasNo(asns[i], 10, c);
    }
    JoinHasNo(parts, ' ', c);
  }

  /** Splitting the rendered ASN list on spaces gives back one token per number. */
  lemma SplitAsnText(asns: seq<u32>)
    requires asns != []
    ensures Split(AsnText(asns), ' ') == DecimalTexts(asns)
  {
    var parts := DecimalTexts(asns);
    forall i | 0 <= i < |parts| ensures ' ' !in parts[i] {
      NumeralHasNo(asns[i], 10, ' ');
    }
    SplitJoin(parts, ' ');
  }

  /** The two fields of `addrText|asnText`. */
  lemma SplitLine(addrText: string, asnText: string)
    requires '|' !in addrText && '|' !in asnText
    ensures Split(addrText + "|" + asnText, '|') == [addrText, asnText]
  {
    assert Join([addrText, asnText], '|') == addrText + "|" + asnText by {
      assert [addrText, asnText][1..] == [asnText];
    }
    SplitJoin([addrText, asnText], '|');
  }

  /**
   * A line written from an address text and a non-empty AS path parses to
   * that address and the path with its adjacent repeats collapsed.
   */
  lemma FromStrOfLine(addrText: string, addr: Address, asns: seq<u32>, parseIp: string -> Option<IpAddr>)
    requires '|' !in addrText && MaskParses(addrText, parseIp)
    requires Addresses.FromStr(addrText, parseIp) == Ok(addr)
    requires asns != []
    ensures LineParses(addrText + "|" + AsnText(asns), parseIp)
    ensures FromStr(addrText + "|" + AsnText(asns), parseIp) == Ok(BgpPath(addr, Dedup(asns)))
  {
    var asnText := AsnText(asns);
    AsnTextHasNo(asns, '|');
    SplitLine(addrText, asnText);
    SplitAsnText(asns);
    ParseAsnsOfTexts(asns);
  }

  /** `"223.255.245.0/24"` is 223.255.245.0 with mask 24. */
  lemma TestAddress(addrText: string, parseIp: string -> Option<IpAddr>, ip: IpAddr)
    requires addrText == "223.255.245.0/24" && parseIp("223.255.245.0") == Some(ip)
    ensures '|' !in addrText && MaskParses(addrText, parseIp)
    ensures Addresses.FromStr(addrText, parseIp) == Ok(Address(ip, 24))
  {
    assert DecimalText(24) == "24" by {
      DecimalTwoDigits(24);
    }
    assert '|' !in addrText by {
      forall i | 0 <= i < |addrText| ensures addrText[i] != '|' {
      }
    }
    assert addrText == "223.255.245.0" + "/" + DecimalText(24) + "";
    FromStrOfText("223.255.245.0", ip, 24, "", parseIp);
  }

  /**
   * The line with AS path `31742 174 6453 4755 45820 45954 45954 45954 45954`
   * parses with the trailing repeats of 45954 collapsed.
   */
  lemma BgpPathFromStrExample(addrText: string, distinct: seq<u32>, asns: seq<u32>, parseIp: string -> Option<IpAddr>, ip: IpAddr)
    requires addrText == "223.255.245.0/24" && parseIp("223.255.245.0") == Some(ip)
    requires distinct == [31742, 174, 6453, 4755, 45820, 45954]
    requires asns == distinct + [45954, 45954, 45954]
    ensures LineParses(addrText + "|" + AsnText(asns), parseIp)
    ensures FromStr(addrText + "|" + AsnText(asns), parseIp) == Ok(BgpPath(Address(ip, 24), distinct))
  {
    TestAddress(addrText, parseIp, ip);
    FromStrOfLine(addrText, Address(ip, 24), asns, parseIp);
    DedupExample(distinct, asns);
  }

  /** The trailing repeats of 45954 in the example path collapse into one. */
  lemma DedupExample(distinct: seq<u32>, asns: seq<u32>)
    requires distinct == [31742, 174, 6453, 4755, 45820, 45954]
    requires asns == distinct + [45954, 45954, 45954]
    ensures Dedup(asns) == distinct
  {
    var p := distinct[..5];
    assert distinct == p + [45954];
    assert asns == p + [45954] + [45954] + [45954] + [45954];
    DedupTrailingRun(p, 45954);
  }

  /** Repeats at the end of a sequence without other repeats collapse into one. */
  lemma DedupTrailingRun(p: seq<u32>, x: u32)
    requires NoAdjacentDuplicates(p + [x])
    ensures Dedup(p + [x] + [x] + [x] + [x]) == p + [x]
  {
    DedupSnoc(p + [x], x);
    DedupSnoc(p + [x] + [x], x);
    DedupSnoc(p + [x] + [x] + [x], x);
    DedupKeepsDistinctNeighbours(p + [x]);
  }

  /** The first token of numbers that is out of the `u32` range is the one reported. */
  lemma ParseAsnsOverflow(before: seq<u32>, big: nat, after: seq<string>)
    requires big >= U32Bound
    ensures ParseAsns(DecimalTexts(before) + [DecimalText(big)] + after) == Err(ParseInt(DecimalText(big)))
  {
    var tokens := DecimalTexts(before) + [DecimalText(big)] + after;
    forall j | 0 <= j < |before| ensures ParseUnsigned(tokens[j], U32Bound).Some? {
      ParseDecimalText(before[j], U32Bound);
    }
    ParseDecimalTextBound(big, U32Bound);
    assert tokens[|before|] == DecimalText(big);
    FirstUnparsedIs(tokens, |before|);
  }

  lemma FirstUnparsedIs(tokens: seq<string>, i: nat)
    requires i < |tokens| && ParseUnsigned(tokens[i], U32Bound).None?
    requires forall j :: 0 <= j < i ==> ParseUnsigned(tokens[j], U32Bound).Some?
    ensures FirstUnparsed(tokens) == i
  {
  }

  /** Decimal tokens hold neither a space nor a `|`. */
  lemma TokensHaveNoSeparator(before: seq<u32>, big: nat, after: seq<u32>)
    ensures var tokens := DecimalTexts(before) + [DecimalText(big)] + DecimalTexts(after);
      forall i :: 0 <= i < |tokens| ==> ' ' !in tokens[i] && '|' !in tokens[i]
  {
    var tokens := DecimalTexts(before) + [DecimalText(big)] + DecimalTexts(after);
    forall i | 0 <= i < |tokens| ensures ' ' !in tokens[i] && '|' !in tokens[i] {
      var n: nat := if i < |before| then before[i] else if i == |before| then big else after[i - |before| - 1];
      assert tokens[i] == DecimalText(n);
      NumeralHasNo(n, 10, ' ');
      NumeralHasNo(n, 10, '|');
    }
  }

  /** A line whose ASN list holds a number out of the `u32` range fails with `ParseInt` naming that number. */
  lemma FromStrOverflow(addrText: string, addr: Address, before: seq<u32>, big: nat, after: seq<u32>,
                        parseIp: string -> Option<IpAddr>)
    requires '|' !in addrText && MaskParses(addrText, parseIp)
    requires Addresses.FromStr(addrText, parseIp) == Ok(addr)
    requires big >= U32Bound
    ensures var line := addrText + "|" + Join(DecimalTexts(before) + [DecimalText(big)] + DecimalTexts(after), ' ');
      LineParses(line, parseIp) && FromStr(line, parseIp) == Err(ParseInt(DecimalText(big)))
  {
    var tokens := DecimalTexts(before) + [DecimalText(big)] + DecimalTexts(after);
    TokensHaveNoSeparator(before, big, after);
    var asnText := Join(tokens, ' ');
    JoinHasNo(tokens, ' ', '|');
    SplitLine(addrText, asnText);
    SplitJoin(tokens, ' ');
    ParseAsnsOverflow(before, big, DecimalTexts(after));
  }

  /**
   * The `parse_int` test: `4294967296` after `31742 174` in the line fails
   * `BGPPath::from_str` with `ParseInt` naming that token.
   */
  lemma ParseIntExample(addrText: string, asnText: string, parseIp: string -> Option<IpAddr>, ip: IpAddr)
    requires addrText == "223.255.245.0/24" && parseIp("223.255.245.0") == Some(ip)
    requires asnText == Join(DecimalTexts([31742, 174]) + [DecimalText(4294967296)] +
                             DecimalTexts([4755, 45820, 45954, 45954, 45954, 45954]), ' ')
    ensures LineParses(addrText + "|" + asnText, parseIp)
    ensures FromStr(addrText + "|" + asnText, parseIp) == Err(ParseInt("4294967296"))
  {
    TestAddress(addrText, parseIp, ip);
    FromStrOverflow(addrText, Address(ip, 24), [31742, 174], 4294967296, [4755, 45820, 45954, 45954, 45954, 45954], parseIp);
    OverflowText();
  }

  lemma OverflowText()
    ensures DecimalText(4294967296) == "4294967296"
  {
  }

  /** What reading one line gives: `None` where `from_str` would panic, else its result. */
  function ReadLine(text: string, parseIp: string -> Option<IpAddr>): Option<Result<BgpPath>> {
    if LineParses(text, parseIp) then Some(FromStr(text, parseIp)) else None
  }

  /** The line was read and parsed. */
  predicate LineOk(text: string, parseIp: string -> Option<IpAddr>) {
    ReadLine(text, parseIp).Some? && ReadLine(text, parseIp).value.Ok?
  }

  /** The line's precondition holds for every line that `load` reaches. */
  predicate LinesParse(lines: seq<string>, parseIp: string -> Option<IpAddr>) {
    forall i :: 0 <= i < |lines| ==>
      (forall j :: 0 <= j < i ==> LineOk(lines[j], parseIp)) ==> LineParses(lines[i], parseIp)
  }

  /** Line `i` is reached, fits the line shape and fails, all lines before it parsed. */
  predicate FirstFailure(lines: seq<string>, parseIp: string -> Option<IpAddr>, i: nat) {
    i < |lines| && ReadLine(lines[i], parseIp).Some? && ReadLine(lines[i], parseIp).value.Err? &&
    forall j :: 0 <= j < i ==> LineOk(lines[j], parseIp)
  }

  /** The first `|paths|` lines fit the line shape and parse to `paths`, in order. */
  predicate Parsed(lines: seq<string>, parseIp: string -> Option<IpAddr>, paths: seq<BgpPath>) {
    |paths| <= |lines| &&
    forall i :: 0 <= i < |paths| ==> ReadLine(lines[i], parseIp) == Some(Ok(paths[i]))
  }

  lemma ParsedNext(lines: seq<string>, parseIp: string -> Option<IpAddr>, paths: seq<BgpPath>, path: BgpPath)
    requires Parsed(lines, parseIp, paths) && |paths| < |lines|
    requires ReadLine(lines[|paths|], parseIp) == Some(Ok(path))
    ensures Parsed(lines, parseIp, paths + [path])
  {
    var next := paths + [path];
    forall i | 0 <= i < |next| ensures ReadLine(lines[i], parseIp) == Some(Ok(next[i])) {
      if i < |paths| {
        assert next[i] == paths[i];
        assert ReadLine(lines[i], parseIp) == Some(Ok(paths[i]));
      } else {
        assert i == |paths|;
        assert next[i] == path;
      }
    }
  }

  /** Every line before the next one to read parsed, so that line is reached and fits the shape. */
  lemma NextLineParses(lines: seq<string>, parseIp: string -> Option<IpAddr>, paths: seq<BgpPath>)
    requires LinesParse(lines, parseIp) && Parsed(lines, parseIp, paths) && |paths| < |lines|
    ensures LineParses(lines[|paths|], parseIp)
    ensures ReadLine(lines[|paths|], parseIp).value.Err? ==> FirstFailure(lines, parseIp, |paths|)
  {
    assert forall j :: 0 <= j < |paths| ==> LineOk(lines[j], parseIp);
  }

  /**
   * `BGPPath::load` over the lines of a reader: one path per line, in line
   * order, or the error of the first line that does not parse.
   */
  method Load(lines: seq<string>, parseIp: string -> Option<IpAddr>) returns (r: Result<seq<BgpPath>>)
    requires LinesParse(lines, parseIp)
    ensures r.Ok? ==> |r.value| == |lines| && Parsed(lines, parseIp, r.value)
    ensures r.Err? ==> exists i: nat :: FirstFailure(lines, parseIp, i) && ReadLine(lines[i], parseIp) == Some(Err(r.error))
  {
    var bgpPathVec: seq<BgpPath> := [];
    while |bgpPathVec| < |lines|
      invariant Parsed(lines, parseIp, bgpPathVec)
      decreases |lines| - |bgpPathVec|
    {
      NextLineParses(lines, parseIp, bgpPathVec);
      var bgpLine := FromStr(lines[|bgpPathVec|], parseIp);
      if bgpLine.Err? {
        return Err(bgpLine.error);
      }
      assert ReadLine(lines[|bgpPathVec|], parseIp) == Some(bgpLine);
      ParsedNext(lines, parseIp, bgpPathVec, bgpLine.value);
      bgpPathVec := bgpPathVec + [bgpLine.value];
    }
    return Ok(bgpPathVec);
  }
}
