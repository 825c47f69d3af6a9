/**
 * The one-shot bottleneck search of `bottleneck.rs`.
 *
 * It differs from the sharded search in three ways: a path whose origin
 * differs from the shortest path's is skipped instead of abandoning the
 * prefix, so every prefix gets a common vector; the prefix is rendered as
 * `"ip/mask"` text and parsed back with `Address::from_str`; and a parse
 * failure of that text aborts the whole search.
 */
module Bottlenecks {
  import opened Wrappers
  import opened Bytes
  import opened Text
  import opened Errors
  import opened Addresses
  import opened CommonSuffixes
  import opened RibTables
  import FindBottlenecks
  import BottleneckFixture

  // ----- the common vector of one prefix -----

  /**
   * The common vector when the scan starts from the path `s`: the paths of
   * another origin are skipped, the others shorten the candidate.
   */
  ghost function CommonSuffixFrom(asPaths: set<seq<u32>>, s: seq<u32>): seq<u32>
    requires s in asPaths
  {
    assert s in SameOrigin(asPaths, Origin(s));
    Lcp(RevSet(SameOrigin(asPaths, Origin(s))))
  }

  /** `c` is what the scan yields for some shortest path first (ties are broken by hash order). */
  ghost predicate IsCommonSuffixFromShortest(c: seq<u32>, asPaths: set<seq<u32>>) {
    exists s :: IsShortest(s, asPaths) && c == CommonSuffixFrom(asPaths, s)
  }

  lemma SameOriginInsert(paths: set<seq<u32>>, p: seq<u32>, o: Option<u32>)
    ensures Origin(p) == o ==> SameOrigin(paths + {p}, o) == SameOrigin(paths, o) + {p}
    ensures Origin(p) != o ==> SameOrigin(paths + {p}, o) == SameOrigin(paths, o)
  {
  }

  /**
   * The state of the scan: `seen` were compared (the shortest path `first`
   * among them), `rest` remain, and the candidate `c` is the longest common
   * prefix of the seen paths of `first`'s origin, reversed.
   */
  ghost predicate Scanned(asPaths: set<seq<u32>>, first: seq<u32>, seen: set<seq<u32>>, rest: set<seq<u32>>, c: seq<u32>) {
    IsShortest(first, asPaths) && first in seen && seen <= asPaths && rest == asPaths - seen &&
    First(c) == Origin(first) && |c| <= |first| &&
    IsLongestCommonPrefix(c, RevSet(SameOrigin(seen, Origin(first))))
  }

  lemma ScannedFirst(asPaths: set<seq<u32>>, first: seq<u32>)
    requires IsShortest(first, asPaths)
    ensures Scanned(asPaths, first, {first}, asPaths - {first}, Reverse(first))
  {
    FirstOfReverse(first);
    LongestCommonPrefixSingleton(Reverse(first));
    assert SameOrigin({first}, Origin(first)) == {first};
    assert RevSet({first}) == {Reverse(first)};
  }

  /** The candidate fits in every remaining path, and the first elements agree exactly when the origins do. */
  lemma ScannedNext(asPaths: set<seq<u32>>, first: seq<u32>, seen: set<seq<u32>>, rest: set<seq<u32>>, c: seq<u32>, asPath: seq<u32>)
    requires Scanned(asPaths, first, seen, rest, c) && asPath in rest
    ensures |c| <= |Reverse(asPath)|
    ensures First(c) == First(Reverse(asPath)) <==> Origin(asPath) == Origin(first)
  {
    FirstOfReverse(asPath);
  }

  /** The `continue` of an origin mismatch: the path is passed over. */
  lemma ScannedSkip(asPaths: set<seq<u32>>, first: seq<u32>, seen: set<seq<u32>>, rest: set<seq<u32>>, c: seq<u32>, asPath: seq<u32>)
    requires Scanned(asPaths, first, seen, rest, c) && asPath in rest
    requires Origin(asPath) != Origin(first)
    ensures Scanned(asPaths, first, seen + {asPath}, rest - {asPath}, c)
  {
    SameOriginInsert(seen, asPath, Origin(first));
  }

  lemma ScannedStep(asPaths: set<seq<u32>>, first: seq<u32>, seen: set<seq<u32>>, rest: set<seq<u32>>, c: seq<u32>, asPath: seq<u32>)
    requires Scanned(asPaths, first, seen, rest, c) && asPath in rest
    requires Origin(asPath) == Origin(first)
    ensures Scanned(asPaths, first, seen + {asPath}, rest - {asPath}, CommonPrefix(c, Reverse(asPath)))
  {
    var same := SameOrigin(seen, Origin(first));
    SameOriginInsert(seen, asPath, Origin(first));
    LongestCommonPrefixInsert(c, RevSet(same), Reverse(asPath));
    RevSetInsert(same, asPath);
  }

  lemma ScannedAll(asPaths: set<seq<u32>>, first: seq<u32>, seen: set<seq<u32>>, c: seq<u32>)
    requires Scanned(asPaths, first, seen, {}, c)
    ensures IsCommonSuffixFromShortest(c, asPaths)
  {
    assert seen == asPaths by {
      forall p | p in asPaths ensures p in seen {
        assert p !in asPaths - seen;
      }
    }
    LongestCommonPrefixUnique(c, CommonSuffixFrom(asPaths, first), RevSet(SameOrigin(asPaths, Origin(first))));
  }

  /**
   * The body of the loop over the prefixes: the paths in ascending length,
   * the shortest reversed as the candidate, then every further path of the
   * same origin reversed and compared with it; a path of another origin is
   * skipped by `continue`.
   */
  method CommonSuffixOfPrefix(asPaths: set<seq<u32>>) returns (revCommonSuffix: seq<u32>)
    requires asPaths != {}
    ensures IsCommonSuffixFromShortest(revCommonSuffix, asPaths)
  {
    ShortestExists(asPaths);
    var first :| first in asPaths && IsShortest(first, asPaths);
    revCommonSuffix := Reverse(first);
    var rest := asPaths - {first};
    ghost var seen := {first};
    ScannedFirst(asPaths, first);
    while rest != {}
      invariant Scanned(asPaths, first, seen, rest, revCommonSuffix)
      decreases |rest|
    {
      ShortestExists(rest);
      var asPath :| asPath in rest && IsShortest(asPath, rest);
      var revAsPath := Reverse(asPath);
      ScannedNext(asPaths, first, seen, rest, revCommonSuffix, asPath);
      if First(revCommonSuffix) != First(revAsPath) {
        ScannedSkip(asPaths, first, seen, rest, revCommonSuffix, asPath);
      } else {
        ScannedStep(asPaths, first, seen, rest, revCommonSuffix, asPath);
        revCommonSuffix := TruncateAtMismatch(revCommonSuffix, revAsPath);
      }
      seen := seen + {asPath};
      rest := rest - {asPath};
    }
    ScannedAll(asPaths, first, seen, revCommonSuffix);
  }

  /** When all origins agree, both searches give a prefix the same common vector, whichever path comes first. */
  lemma VariantsAgree(asPaths: set<seq<u32>>, c: seq<u32>)
    requires asPaths != {} && OriginsAgree(asPaths)
    ensures IsCommonSuffixFromShortest(c, asPaths) <==> c == Lcp(RevSet(asPaths))
  {
    ShortestExists(asPaths);
    var s :| IsShortest(s, asPaths);
    assert SameOrigin(asPaths, Origin(s)) == asPaths;
    if IsCommonSuffixFromShortest(c, asPaths) {
      var t :| IsShortest(t, asPaths) && c == CommonSuffixFrom(asPaths, t);
      assert SameOrigin(asPaths, Origin(t)) == asPaths;
    }
  }

  /** The common vector read backwards ends every path of the chosen origin, so its last element lies on each. */
  lemma CommonSuffixFromOnPaths(asPaths: set<seq<u32>>, s: seq<u32>, p: seq<u32>)
    requires PathsWellFormed(asPaths) && s in asPaths && p in asPaths && Origin(p) == Origin(s)
    ensures var c := CommonSuffixFrom(asPaths, s);
      1 <= |c| <= |p| && Reverse(c) == p[|p| - |c|..] && Last(c) in p
  {
    var same := SameOrigin(asPaths, Origin(s));
    assert p in same;
    CommonSuffixOfAgreeingPaths(same, p);
    var c := CommonSuffixFrom(asPaths, s);
    assert Reverse(c)[0] == Last(c);
    assert p[|p| - |c|] == Last(c);
  }

  /** Two shortest paths of different origins: which one comes first decides the vector. */
  lemma TieBreak(asPaths: set<seq<u32>>, x: seq<u32>, y: seq<u32>, c: seq<u32>)
    requires x == [1, 5] && y == [2, 6] && asPaths == {x, y}
    ensures IsCommonSuffixFromShortest(c, asPaths) <==> c == [5, 1] || c == [6, 2]
  {
    assert SameOrigin(asPaths, Origin(x)) == {x};
    assert SameOrigin(asPaths, Origin(y)) == {y};
    assert RevSet({x}) == {[5, 1]} by {
      assert Reverse(x) == [5, 1];
    }
    assert RevSet({y}) == {[6, 2]} by {
      assert Reverse(y) == [6, 2];
    }
    LongestCommonPrefixSingleton([5, 1]);
    LongestCommonPrefixUnique(CommonSuffixFrom(asPaths, x), [5, 1], {[5, 1]});
    LongestCommonPrefixSingleton([6, 2]);
    LongestCommonPrefixUnique(CommonSuffixFrom(asPaths, y), [6, 2], {[6, 2]});
    assert IsShortest(x, asPaths) && IsShortest(y, asPaths);
  }

  // ----- the table of common vectors -----

  /** What `find_common_suffix` may store: every prefix, each with the vector of some shortest path first. */
  ghost predicate IsSuffixTable(mrtHm: RibTable, table: map<Address, seq<u32>>) {
    table.Keys == mrtHm.Keys && forall a :: a in table ==> IsCommonSuffixFromShortest(table[a], mrtHm[a])
  }

  /** After the prefixes `done`: those not already in `acc` hold a vector, and `acc` is kept (`or_insert`). */
  ghost predicate Covered(mrtHm: RibTable, acc: map<Address, seq<u32>>, done: set<Address>, out: map<Address, seq<u32>>) {
    done <= mrtHm.Keys && out.Keys == done + acc.Keys &&
    (forall a :: a in acc ==> out[a] == acc[a]) &&
    (forall a :: a in done && a !in acc ==> IsCommonSuffixFromShortest(out[a], mrtHm[a]))
  }

  /** The loop so far: `done` and `remaining` split the prefixes of the table, and `out` covers `done`. */
  ghost predicate Progress(mrtHm: RibTable, acc: map<Address, seq<u32>>, remaining: set<Address>, done: set<Address>, out: map<Address, seq<u32>>) {
    remaining + done == mrtHm.Keys && remaining !! done && Covered(mrtHm, acc, done, out)
  }

  lemma ProgressStart(mrtHm: RibTable, acc: map<Address, seq<u32>>)
    ensures Progress(mrtHm, acc, mrtHm.Keys, {}, acc)
  {
  }

  lemma ProgressDone(mrtHm: RibTable, acc: map<Address, seq<u32>>, done: set<Address>, out: map<Address, seq<u32>>)
    requires Progress(mrtHm, acc, {}, done, out)
    ensures out.Keys == mrtHm.Keys + acc.Keys
    ensures forall a :: a in acc ==> out[a] == acc[a]
    ensures forall a :: a in mrtHm && a !in acc ==> IsCommonSuffixFromShortest(out[a], mrtHm[a])
  {
    assert done == mrtHm.Keys;
  }

  /** One turn of the loop: the vector of `prefix`, stored with `or_insert`. */
  method InsertCommonSuffix(mrtHm: RibTable, acc: map<Address, seq<u32>>, ghost remaining: set<Address>, ghost done: set<Address>,
                            prefix: Address, out: map<Address, seq<u32>>)
    returns (next: map<Address, seq<u32>>)
    requires forall a :: a in mrtHm ==> mrtHm[a] != {}
    requires Progress(mrtHm, acc, remaining, done, out) && prefix in remaining
    ensures Progress(mrtHm, acc, remaining - {prefix}, done + {prefix}, next)
  {
    var revCommonSuffix := CommonSuffixOfPrefix(mrtHm[prefix]);
    next := out;
    if prefix !in out {
      next := out[prefix := revCommonSuffix];
    }
  }

  /** `find_common_suffix`: every prefix of the table gets a vector unless `prefixToCommonSuffix` has one. */
  method FindCommonSuffix(mrtHm: RibTable, prefixToCommonSuffix: map<Address, seq<u32>>) returns (out: map<Address, seq<u32>>)
    requires forall a :: a in mrtHm ==> mrtHm[a] != {}
    ensures out.Keys == mrtHm.Keys + prefixToCommonSuffix.Keys
    ensures forall a :: a in prefixToCommonSuffix ==> out[a] == prefixToCommonSuffix[a]
    ensures forall a :: a in mrtHm && a !in prefixToCommonSuffix ==> IsCommonSuffixFromShortest(out[a], mrtHm[a])
  {
    out := prefixToCommonSuffix;
    var remaining := mrtHm.Keys;
    ghost var done: set<Address> := {};
    ProgressStart(mrtHm, prefixToCommonSuffix);
    while remaining != {}
      invariant Progress(mrtHm, prefixToCommonSuffix, remaining, done, out)
      decreases |remaining|
    {
      var prefix :| prefix in remaining;
      out := InsertCommonSuffix(mrtHm, prefixToCommonSuffix, remaining, done, prefix, out);
      remaining := remaining - {prefix};
      done := done + {prefix};
    }
    ProgressDone(mrtHm, prefixToCommonSuffix, done, out);
  }

  /** Every vector of a table built from non-empty paths is non-empty. */
  lemma SuffixTableNonEmpty(mrtHm: RibTable, table: map<Address, seq<u32>>)
    requires WellFormed(mrtHm) && IsSuffixTable(mrtHm, table)
    ensures forall a :: a in table ==> table[a] != []
  {
    forall a | a in table ensures table[a] != [] {
      var s :| IsShortest(s, mrtHm[a]) && table[a] == CommonSuffixFrom(mrtHm[a], s);
      CommonSuffixFromOnPaths(mrtHm[a], s, s);
    }
  }

  /** The bottleneck stored for a prefix lies on every path of the origin its vector was built from. */
  lemma BottleneckOnPaths(mrtHm: RibTable, table: map<Address, seq<u32>>, a: Address)
    requires WellFormed(mrtHm) && IsSuffixTable(mrtHm, table) && a in table
    ensures table[a] != []
    ensures exists s :: IsShortest(s, mrtHm[a]) && forall p :: p in mrtHm[a] && Origin(p) == Origin(s) ==> Last(table[a]) in p
  {
    var s :| IsShortest(s, mrtHm[a]) && table[a] == CommonSuffixFrom(mrtHm[a], s);
    CommonSuffixFromOnPaths(mrtHm[a], s, s);
    forall p | p in mrtHm[a] && Origin(p) == Origin(s) ensures Last(table[a]) in p {
      CommonSuffixFromOnPaths(mrtHm[a], s, p);
    }
  }

  /** Where the origins of a prefix agree, its vector is the one the sharded search stores. */
  lemma TablesAgree(mrtHm: RibTable, table: map<Address, seq<u32>>)
    requires WellFormed(mrtHm) && IsSuffixTable(mrtHm, table)
    ensures forall a :: a in FindBottlenecks.SuffixTable(mrtHm) ==> a in table && table[a] == FindBottlenecks.SuffixTable(mrtHm)[a]
  {
    forall a | a in FindBottlenecks.SuffixTable(mrtHm)
      ensures a in table && table[a] == FindBottlenecks.SuffixTable(mrtHm)[a]
    {
      VariantsAgree(mrtHm[a], table[a]);
    }
  }

  lemma MapsEqual(m: map<Address, seq<u32>>, n: map<Address, seq<u32>>)
    requires forall a :: a in m ==> a in n && m[a] == n[a]
    requires forall a :: a in n ==> a in m
    ensures m == n
  {
  }

  /** When every prefix's origins agree, the table is exactly the one of the sharded search. */
  lemma TableWhenOriginsAgree(mrtHm: RibTable, table: map<Address, seq<u32>>)
    requires WellFormed(mrtHm) && IsSuffixTable(mrtHm, table)
    requires forall a :: a in mrtHm ==> OriginsAgree(mrtHm[a])
    ensures table == FindBottlenecks.SuffixTable(mrtHm)
  {
    var other := FindBottlenecks.SuffixTable(mrtHm);
    forall a | a in table ensures a in other && table[a] == other[a] {
      FindBottlenecks.SuffixTableAt(mrtHm, a);
      VariantsAgree(mrtHm[a], table[a]);
    }
    forall a | a in other ensures a in table {
      FindBottlenecks.SuffixTableAt(mrtHm, a);
    }
    MapsEqual(table, other);
  }

  /** `FindBottleneck`: the bottleneck AS of every prefix. */
  class FindBottleneck {
    var prefixAsn: map<Address, u32>

    constructor ()
      ensures prefixAsn == map[]
    {
      prefixAsn := map[];
    }

    /** `find_as_bottleneck`: the last element of each vector of some table the scan may build. */
    method FindAsBottleneck(mrtHm: RibTable)
      requires WellFormed(mrtHm)
      modifies this
      ensures exists table :: (IsSuffixTable(mrtHm, table) && (forall a :: a in table ==> table[a] != []) &&
                               prefixAsn == old(prefixAsn) + FindBottlenecks.LastElements(table, table.Keys))
    {
      var prefixToCommonSuffix := FindCommonSuffix(mrtHm, map[]);
      assert IsSuffixTable(mrtHm, prefixToCommonSuffix);
      SuffixTableNonEmpty(mrtHm, prefixToCommonSuffix);
      StoreLastElements(prefixToCommonSuffix);
    }

    /** The `for (addr, mut as_path) in prefix_to_common_suffix` loop: `pop` and `insert`. */
    method StoreLastElements(prefixToCommonSuffix: map<Address, seq<u32>>)
      requires forall a :: a in prefixToCommonSuffix ==> prefixToCommonSuffix[a] != []
      modifies this
      ensures prefixAsn == old(prefixAsn) + FindBottlenecks.LastElements(prefixToCommonSuffix, prefixToCommonSuffix.Keys)
    {
      var stored := prefixAsn;
      var remaining := prefixToCommonSuffix.Keys;
      ghost var done: set<Address> := {};
      FindBottlenecks.StoredStart(prefixToCommonSuffix, prefixAsn);
      while remaining != {}
        invariant FindBottlenecks.Stored(prefixToCommonSuffix, old(prefixAsn), remaining, done, stored)
        decreases |remaining|
      {
        var addr :| addr in remaining;
        var asPath := prefixToCommonSuffix[addr];
        var asn := asPath[|asPath| - 1];
        FindBottlenecks.StoredStep(prefixToCommonSuffix, old(prefixAsn), remaining, done, stored, addr);
        stored := stored[addr := asn];
        remaining := remaining - {addr};
        done := done + {addr};
      }
      FindBottlenecks.StoredDone(prefixToCommonSuffix, old(prefixAsn), done, stored);
      prefixAsn := stored;
    }
  }

  /** `finds_common_suffix_from_mrt_hashmap` and `finds_as_bottleneck_from_mrt_hashmap`: every tie-break gives the expected tables. */
  lemma FixtureBottlenecks(mrtHm: RibTable, a139: Address, a204: Address, a6: Address, table: map<Address, seq<u32>>)
    requires FindBottlenecks.IsFixture(mrtHm, a139, a204, a6) && IsSuffixTable(mrtHm, table)
    ensures table == map[a139 := [23969, 38040], a204 := [23969, 38040], a6 := [56203, 38803, 4826]]
    ensures FindBottlenecks.LastElements(table, table.Keys) == map[a139 := 38040, a204 := 38040, a6 := 4826]
  {
    FindBottlenecks.FixtureBottlenecks(mrtHm, a139, a204, a6);
    forall a | a in mrtHm ensures OriginsAgree(mrtHm[a]) {
      assert a in FindBottlenecks.SuffixTable(mrtHm);
    }
    TableWhenOriginsAgree(mrtHm, table);
  }

  // ----- the prefix as text -----

  /** The prefix bytes padded with zeros to at least `n` bytes. */
  function ZeroPad(ip: seq<byte>, n: nat): (r: seq<byte>)
    ensures |r| == if |ip| < n then n else |ip|
    ensures forall i :: 0 <= i < |r| ==> r[i] == FindBottlenecks.ByteAt(ip, i)
  {
    if |ip| < n then ip + seq(n - |ip|, _ => 0) else ip
  }

  /** `while ip.len() < n { ip.push(0); }` */
  method PadWithZeros(prefix: seq<byte>, n: nat) returns (ip: seq<byte>)
    ensures ip == ZeroPad(prefix, n)
  {
    ip := prefix;
    while |ip| < n
      invariant |prefix| <= |ip| && (|ip| > |prefix| ==> |ip| <= n)
      invariant forall i :: 0 <= i < |ip| ==> ip[i] == FindBottlenecks.ByteAt(prefix, i)
      decreases n - |ip|
    {
      ip := ip + [0];
    }
  }

  /** The decimal numerals of the first four bytes. */
  function QuadFields(ip: seq<byte>): (r: seq<string>)
    requires |ip| >= 4
    ensures |r| == 4 && forall i :: 0 <= i < 4 ==> r[i] == DecimalText(ip[i])
  {
    [DecimalText(ip[0]), DecimalText(ip[1]), DecimalText(ip[2]), DecimalText(ip[3])]
  }

  /** `format!("{}.{}.{}.{}", ip[0], ip[1], ip[2], ip[3])` */
  function DottedQuad(ip: seq<byte>): string
    requires |ip| >= 4
  {
    Join(QuadFields(ip), '.')
  }

  /** The text the builder hands to `Address::from_str` for an IPv4 prefix. */
  function Ipv4PrefixText(prefix: seq<byte>, mask: byte): string {
    DottedQuad(ZeroPad(prefix, 4)) + "/" + DecimalText(mask)
  }

  /** The `RIB_IPV4_UNICAST` arm of `parse_mrt`: pad to four bytes, then `"a.b.c.d/mask"`. */
  method FormatIpv4Prefix(prefix: seq<byte>, mask: byte) returns (text: string)
    ensures text == Ipv4PrefixText(prefix, mask)
  {
    var ip := PadWithZeros(prefix, 4);
    text := DottedQuad(ip) + "/" + DecimalText(mask);
  }

  /** The dotted quad has no `/`, and its `.`-separated fields are the four decimal numerals. */
  lemma DottedQuadFields(ip: seq<byte>)
    requires |ip| >= 4
    ensures '/' !in DottedQuad(ip)
    ensures Split(DottedQuad(ip), '.') == QuadFields(ip)
  {
    var parts := QuadFields(ip);
    forall i | 0 <= i < 4 ensures '.' !in parts[i] && '/' !in parts[i] {
      NumeralHasNo(ip[i], 10, '.');
      NumeralHasNo(ip[i], 10, '/');
    }
    JoinHasNo(parts, '.', '/');
    SplitJoin(parts, '.');
  }

  /** The IPv4 text splits back into the dotted quad and the mask. */
  lemma Ipv4PrefixTextFields(prefix: seq<byte>, mask: byte)
    ensures '/' in Ipv4PrefixText(prefix, mask)
    ensures IpField(Ipv4PrefixText(prefix, mask)) == DottedQuad(ZeroPad(prefix, 4))
    ensures MaskField(Ipv4PrefixText(prefix, mask)) == DecimalText(mask)
  {
    var quad := DottedQuad(ZeroPad(prefix, 4));
    DottedQuadFields(ZeroPad(prefix, 4));
    NumeralHasNo(mask, 10, '/');
    FieldsOfText(quad, DecimalText(mask), "");
    assert quad + "/" + DecimalText(mask) + "" == Ipv4PrefixText(prefix, mask);
  }

  /** An IP parser that reads the dotted quad as `ip` makes the text the address `ip` with the prefix's mask. */
  lemma Ipv4PrefixTextParses(prefix: seq<byte>, mask: byte, parseIp: string -> Option<IpAddr>, ip: IpAddr)
    requires parseIp(DottedQuad(ZeroPad(prefix, 4))) == Some(ip)
    ensures MaskParses(Ipv4PrefixText(prefix, mask), parseIp)
    ensures FromStr(Ipv4PrefixText(prefix, mask), parseIp) == Ok(Address(ip, mask))
  {
    var quad := DottedQuad(ZeroPad(prefix, 4));
    DottedQuadFields(ZeroPad(prefix, 4));
    FromStrOfText(quad, ip, mask, "", parseIp);
    assert quad + "/" + DecimalText(mask) + "" == Ipv4PrefixText(prefix, mask);
  }

  lemma QuadFieldsInjective(a: seq<byte>, b: seq<byte>)
    requires |a| >= 4 && |b| >= 4 && QuadFields(a) == QuadFields(b)
    ensures a[..4] == b[..4]
  {
    forall i | 0 <= i < 4 ensures a[i] == b[i] {
      assert QuadFields(a)[i] == QuadFields(b)[i];
      NumeralInjective(a[i], b[i], 10);
    }
  }

  lemma DottedQuadInjective(a: seq<byte>, b: seq<byte>)
    requires |a| >= 4 && |b| >= 4 && DottedQuad(a) == DottedQuad(b)
    ensures a[..4] == b[..4]
  {
    DottedQuadFields(a);
    DottedQuadFields(b);
    QuadFieldsInjective(a, b);
  }

  /** Distinct padded prefixes or masks give distinct texts. */
  lemma Ipv4PrefixTextInjective(p: seq<byte>, m: byte, q: seq<byte>, n: byte)
    requires Ipv4PrefixText(p, m) == Ipv4PrefixText(q, n)
    ensures ZeroPad(p, 4)[..4] == ZeroPad(q, 4)[..4] && m == n
  {
    Ipv4PrefixTextFields(p, m);
    Ipv4PrefixTextFields(q, n);
    NumeralInjective(m, n, 10);
    DottedQuadInjective(ZeroPad(p, 4), ZeroPad(q, 4));
  }

  /** `Vec::reverse` on bytes. */
  function ReverseBytes(s: seq<byte>): (r: seq<byte>)
    ensures |r| == |s|
    ensures forall i :: 0 <= i < |s| ==> r[i] == s[|s| - 1 - i]
  {
    if s == [] then [] else [s[|s| - 1]] + ReverseBytes(s[..|s| - 1])
  }

  /** `ip.pop()` read as `Some(x) => x, None => 0`: the rest and the byte taken. */
  function Pop(s: seq<byte>): (seq<byte>, byte) {
    if s == [] then ([], 0) else (s[..|s| - 1], s[|s| - 1])
  }

  /**
   * The groups the IPv6 builder emits from group `k` on: the hex numeral of
   * each pair of bytes, until a pair of zeros, which emits `":"` and stops;
   * at most four groups.
   */
  function Ipv6Groups(ip: seq<byte>, k: nat): seq<string>
    requires |ip| >= 8
    decreases 4 - k
  {
    if k >= 4 then []
    else if ZeroPair(ip, k) then [":"]
    else [Group(ip, k)] + Ipv6Groups(ip, k + 1)
  }

  /** `a == 0 && b == 0` for the pair of bytes of group `k`. */
  predicate ZeroPair(ip: seq<byte>, k: nat)
    requires 2 * k + 1 < |ip|
  {
    ip[2 * k] == 0 && ip[2 * k + 1] == 0
  }

  /** `format!("{:x}", u16::from_be_bytes([a, b]))` for the pair of bytes of group `k`. */
  function Group(ip: seq<byte>, k: nat): string
    requires 2 * k + 1 < |ip|
  {
    HexText(BeU16(ip[2 * k], ip[2 * k + 1]))
  }

  /** A group is a non-empty numeral with neither separator in it. */
  lemma GroupHasNoSeparator(ip: seq<byte>, k: nat)
    requires 2 * k + 1 < |ip|
    ensures Group(ip, k) != [] && ':' !in Group(ip, k) && '/' !in Group(ip, k)
  {
    NumeralHasNo(BeU16(ip[2 * k], ip[2 * k + 1]), 16, ':');
    NumeralHasNo(BeU16(ip[2 * k], ip[2 * k + 1]), 16, '/');
  }

  /** A group that is not a zero pair adds its numeral and the loop goes on. */
  lemma GroupsOfNonZeroPair(ip: seq<byte>, k: nat)
    requires |ip| >= 8 && k < 4 && !ZeroPair(ip, k)
    ensures Ipv6Groups(ip, k) == [Group(ip, k)] + Ipv6Groups(ip, k + 1)
  {
  }

  /** The text the builder hands to `Address::from_str` for an IPv6 prefix. */
  function Ipv6PrefixText(prefix: seq<byte>, mask: byte): string {
    Join(Ipv6Groups(ZeroPad(prefix, 8), 0), ':') + "/" + DecimalText(mask)
  }

  /** One group: a pair of zeros ends the groups, any other pair adds its numeral. */
  lemma Ipv6GroupsStep(ip: seq<byte>, k: nat, done: seq<string>, a: byte, b: byte)
    requires |ip| >= 8 && k < 4 && a == ip[2 * k] && b == ip[2 * k + 1]
    requires done + Ipv6Groups(ip, k) == Ipv6Groups(ip, 0)
    ensures a == 0 && b == 0 ==> done + [":"] == Ipv6Groups(ip, 0)
    ensures !(a == 0 && b == 0) ==> (done + [HexText(BeU16(a, b))]) + Ipv6Groups(ip, k + 1) == Ipv6Groups(ip, 0)
  {
    if !(a == 0 && b == 0) {
      assert Ipv6Groups(ip, k) == [HexText(BeU16(a, b))] + Ipv6Groups(ip, k + 1);
      assert (done + [HexText(BeU16(a, b))]) + Ipv6Groups(ip, k + 1) == done + Ipv6Groups(ip, k);
    }
  }

  /** Popping twice from the reversed padding yields the bytes of group `k`, in order. */
  lemma PopGroup(padded: seq<byte>, ip: seq<byte>, k: nat)
    requires |padded| >= 8 && k < 4 && |ip| == |padded| - 2 * k
    requires forall i :: 0 <= i < |ip| ==> ip[i] == padded[|padded| - 1 - i]
    ensures var rest := Pop(Pop(ip).0).0;
      Pop(ip).1 == padded[2 * k] && Pop(Pop(ip).0).1 == padded[2 * k + 1] &&
      |rest| == |padded| - 2 * (k + 1) && forall i :: 0 <= i < |rest| ==> rest[i] == padded[|padded| - 1 - i]
  {
    assert ip[|ip| - 1] == padded[2 * k];
    assert ip[|ip| - 2] == padded[2 * k + 1];
  }

  /**
   * The state of the IPv6 loop after `ipv6` groups: what is left of the
   * reversed padding is its first bytes not yet popped, and the groups so far
   * followed by the groups still to come are all the groups.
   */
  ghost predicate Emitting(padded: seq<byte>, ip: seq<byte>, ipv6: seq<string>) {
    |padded| >= 8 && |ipv6| <= 4 && |ip| == |padded| - 2 * |ipv6| &&
    (forall i :: 0 <= i < |ip| ==> ip[i] == padded[|padded| - 1 - i]) &&
    ipv6 + Ipv6Groups(padded, |ipv6|) == Ipv6Groups(padded, 0)
  }

  lemma EmittingStart(padded: seq<byte>)
    requires |padded| >= 8
    ensures Emitting(padded, ReverseBytes(padded), [])
  {
  }

  /** Four groups emitted: there are no more. */
  lemma EmittingDone(padded: seq<byte>, ip: seq<byte>, ipv6: seq<string>)
    requires Emitting(padded, ip, ipv6) && |ipv6| == 4
    ensures ipv6 == Ipv6Groups(padded, 0)
  {
    assert ipv6 + Ipv6Groups(padded, 4) == ipv6;
  }

  /**
   * One turn of the loop: the two bytes popped are those of the next group; a
   * pair of zeros completes the groups with `":"`, any other pair adds its
   * numeral and the loop goes on.
   */
  lemma EmittingStep(padded: seq<byte>, ip: seq<byte>, ipv6: seq<string>)
    requires Emitting(padded, ip, ipv6) && |ipv6| < 4
    ensures var k := |ipv6|;
      Pop(ip).1 == padded[2 * k] && Pop(Pop(ip).0).1 == padded[2 * k + 1]
    ensures var a, b := Pop(ip).1, Pop(Pop(ip).0).1;
      a == 0 && b == 0 ==> ipv6 + [":"] == Ipv6Groups(padded, 0)
    ensures var a, b := Pop(ip).1, Pop(Pop(ip).0).1;
      !(a == 0 && b == 0) ==> Emitting(padded, Pop(Pop(ip).0).0, ipv6 + [HexText(BeU16(a, b))])
  {
    var k := |ipv6|;
    PopGroup(padded, ip, k);
    Ipv6GroupsStep(padded, k, ipv6, Pop(ip).1, Pop(Pop(ip).0).1);
  }

  /**
   * The `RIB_IPV6_UNICAST` arm of `parse_mrt`: pad to eight bytes, reverse,
   * then pop two bytes at a time into groups until four groups or a pair of
   * zeros, and join the groups with `:`.
   */
  method FormatIpv6Prefix(prefix: seq<byte>, mask: byte) returns (text: string)
    ensures text == Ipv6PrefixText(prefix, mask)
  {
    var ip := PadWithZeros(prefix, 8);
    ghost var padded := ip;
    var ipv6: seq<string> := [];
    ip := ReverseBytes(ip);
    EmittingStart(padded);
    while |ipv6| < 4
      invariant Emitting(padded, ip, ipv6)
      decreases 4 - |ipv6|
    {
      EmittingStep(padded, ip, ipv6);
      var popped := Pop(ip);
      ip := popped.0;
      var a := popped.1;
      popped := Pop(ip);
      ip := popped.0;
      var b := popped.1;
      if a == 0 && b == 0 {
        ipv6 := ipv6 + [":"];
        break;
      }
      ipv6 := ipv6 + [HexText(BeU16(a, b))];
    }
    if |ipv6| == 4 && Emitting(padded, ip, ipv6) {
      EmittingDone(padded, ip, ipv6);
    }
    text := Join(ipv6, ':') + "/" + DecimalText(mask);
  }

  // ----- what the IPv6 text loses -----

  /** The two paddings hold the same pair of bytes at group `j`. */
  predicate SamePair(x: seq<byte>, y: seq<byte>, j: nat)
    requires 2 * j + 1 < |x| && 2 * j + 1 < |y|
  {
    x[2 * j] == y[2 * j] && x[2 * j + 1] == y[2 * j + 1]
  }

  /** Two paddings with the same pair at group `j` and the same groups after it have the same groups from `j` on. */
  lemma GroupsAgreeFrom(x: seq<byte>, y: seq<byte>, j: nat)
    requires |x| >= 8 && |y| >= 8 && j < 4 && SamePair(x, y, j)
    requires !ZeroPair(x, j) ==> Ipv6Groups(x, j + 1) == Ipv6Groups(y, j + 1)
    ensures Ipv6Groups(x, j) == Ipv6Groups(y, j)
  {
    if ZeroPair(x, j) {
      assert ZeroPair(y, j);
      assert Ipv6Groups(x, j) == [":"];
      assert Ipv6Groups(y, j) == [":"];
    } else {
      var gx, gy := Group(x, j), Group(y, j);
      var rx, ry := Ipv6Groups(x, j + 1), Ipv6Groups(y, j + 1);
      GroupsOfNonZeroPair(x, j);
      GroupsOfNonZeroPair(y, j);
      assert gx == gy;
      assert [gx] + rx == [gy] + ry;
    }
  }

  /** Groups up to a zero pair that two paddings share give the same groups. */
  lemma {:induction false} GroupsUpToZeroPair(x: seq<byte>, y: seq<byte>, k: nat, j: nat)
    requires |x| >= 8 && |y| >= 8 && j <= k < 4
    requires forall i :: j <= i <= k ==> SamePair(x, y, i)
    requires ZeroPair(x, k)
    ensures Ipv6Groups(x, j) == Ipv6Groups(y, j)
    decreases k - j
  {
    assert SamePair(x, y, j);
    if j < k {
      GroupsUpToZeroPair(x, y, k, j + 1);
    }
    GroupsAgreeFrom(x, y, j);
  }

  /**
   * The text stops at the first zero pair: prefixes that agree up to it give
   * the same text, whatever their bytes after it.
   */
  lemma Ipv6PrefixTextStopsAtZeroPair(p: seq<byte>, q: seq<byte>, mask: byte, k: nat)
    requires k < 4
    requires forall i :: 0 <= i < 2 * k + 2 ==> FindBottlenecks.ByteAt(p, i) == FindBottlenecks.ByteAt(q, i)
    requires FindBottlenecks.ByteAt(p, 2 * k) == 0 && FindBottlenecks.ByteAt(p, 2 * k + 1) == 0
    ensures Ipv6PrefixText(p, mask) == Ipv6PrefixText(q, mask)
  {
    var x, y := ZeroPad(p, 8), ZeroPad(q, 8);
    assert ZeroPair(x, k);
    forall i | 0 <= i <= k ensures SamePair(x, y, i) {
      assert FindBottlenecks.ByteAt(p, 2 * i) == FindBottlenecks.ByteAt(q, 2 * i);
      assert FindBottlenecks.ByteAt(p, 2 * i + 1) == FindBottlenecks.ByteAt(q, 2 * i + 1);
    }
    GroupsUpToZeroPair(x, y, k, 0);
  }

  /** 2001:0:1::/48 and 2001::/48 get the same text, though their bytes differ. */
  lemma Ipv6DistinctPrefixesOneText(p: seq<byte>, q: seq<byte>)
    requires p == [0x20, 0x01, 0, 0, 0, 0x01] && q == [0x20, 0x01]
    ensures Ipv6PrefixText(p, 48) == Ipv6PrefixText(q, 48)
    ensures ZeroPad(p, 8) != ZeroPad(q, 8)
  {
    Ipv6PrefixTextStopsAtZeroPair(p, q, 48, 1);
    assert ZeroPad(p, 8)[5] != ZeroPad(q, 8)[5];
  }

  /** Non-empty fields with neither separator in them. */
  predicate NumeralFields(parts: seq<string>) {
    forall i :: 0 <= i < |parts| ==> parts[i] != [] && ':' !in parts[i] && '/' !in parts[i]
  }

  lemma NumeralFieldsCons(g: string, rest: seq<string>)
    requires g != [] && ':' !in g && '/' !in g && NumeralFields(rest)
    ensures NumeralFields([g] + rest)
  {
    forall i | 0 <= i < |[g] + rest| ensures ([g] + rest)[i] != [] && ':' !in ([g] + rest)[i] && '/' !in ([g] + rest)[i] {
      if i > 0 {
        assert ([g] + rest)[i] == rest[i - 1];
      }
    }
  }

  /** With no zero pair from group `k` on, the groups are the remaining numerals, one per group. */
  lemma {:induction false} GroupsWithoutZeroPair(ip: seq<byte>, k: nat)
    requires |ip| >= 8 && k <= 4
    requires forall j :: k <= j < 4 ==> !ZeroPair(ip, j)
    ensures |Ipv6Groups(ip, k)| == 4 - k && NumeralFields(Ipv6Groups(ip, k))
    decreases 4 - k
  {
    if k < 4 {
      GroupsWithoutZeroPair(ip, k + 1);
      GroupsOfNonZeroPair(ip, k);
      GroupHasNoSeparator(ip, k);
      NumeralFieldsCons(Group(ip, k), Ipv6Groups(ip, k + 1));
    }
  }

  /**
   * A prefix with no zero pair in its first eight bytes gets four groups and
   * no `::`: its IP field has four non-empty `:`-separated fields, where the
   * text forms of section 2.2 of RFC 4291 have eight fields or an empty one.
   */
  lemma Ipv6FourGroups(prefix: seq<byte>, mask: byte)
    requires forall j :: 0 <= j < 4 ==> !ZeroPair(ZeroPad(prefix, 8), j)
    ensures '/' in Ipv6PrefixText(prefix, mask)
    ensures var fields := Split(IpField(Ipv6PrefixText(prefix, mask)), ':');
      |fields| == 4 && forall i :: 0 <= i < 4 ==> fields[i] != []
  {
    var padded := ZeroPad(prefix, 8);
    var groups := Ipv6Groups(padded, 0);
    GroupsWithoutZeroPair(padded, 0);
    JoinHasNo(groups, ':', '/');
    NumeralHasNo(mask, 10, '/');
    FieldsOfText(Join(groups, ':'), DecimalText(mask), "");
    assert Join(groups, ':') + "/" + DecimalText(mask) + "" == Ipv6PrefixText(prefix, mask);
    SplitJoin(groups, ':');
  }

  /** The /64 prefix 2001:db8:1:2:: gets the four-field IP field `2001:db8:1:2`. */
  lemma Ipv6FourGroupsExample(prefix: seq<byte>)
    requires prefix == [0x20, 0x01, 0x0d, 0xb8, 0x00, 0x01, 0x00, 0x02]
    ensures '/' in Ipv6PrefixText(prefix, 64)
    ensures |Split(IpField(Ipv6PrefixText(prefix, 64)), ':')| == 4
  {
    assert ZeroPad(prefix, 8) == prefix;
    forall j | 0 <= j < 4 ensures !ZeroPair(ZeroPad(prefix, 8), j) {
      assert prefix[2 * j + 1] != 0;
    }
    Ipv6FourGroups(prefix, 64);
  }

  /** A prefix whose first pair is zero, the default route `::/0` among them, gets the IP field `":"`. */
  lemma Ipv6LeadingZeroPair(prefix: seq<byte>, mask: byte)
    requires ZeroPad(prefix, 8)[0] == 0 && ZeroPad(prefix, 8)[1] == 0
    ensures '/' in Ipv6PrefixText(prefix, mask)
    ensures IpField(Ipv6PrefixText(prefix, mask)) == ":"
  {
    assert Ipv6Groups(ZeroPad(prefix, 8), 0) == [":"];
    NumeralHasNo(mask, 10, '/');
    FieldsOfText(":", DecimalText(mask), "");
    assert ":" + "/" + DecimalText(mask) + "" == Ipv6PrefixText(prefix, mask);
  }

  // ----- the IPv6 text, corrected -----

  /** All eight groups of a sixteen-byte address. */
  function FullGroups(ip: seq<byte>): (r: seq<string>)
    requires |ip| >= 16
    ensures |r| == 8 && forall k :: 0 <= k < 8 ==> r[k] == Group(ip, k)
  {
    seq(8, k requires 0 <= k < 8 => Group(ip, k))
  }

  /**
   * The text the IPv6 builder evidently means: the prefix padded to the
   * sixteen bytes of an IPv6 address, as eight hex groups (the first form of
   * section 2.2 of RFC 4291), then `/` and the mask.
   */
  function Ipv6PrefixTextCorrected(prefix: seq<byte>, mask: byte): string {
    Join(FullGroups(ZeroPad(prefix, 16)), ':') + "/" + DecimalText(mask)
  }

  /** The corrected builder: pad to sixteen bytes and emit every pair as a group. */
  method FormatIpv6PrefixCorrected(prefix: seq<byte>, mask: byte) returns (text: string)
    ensures text == Ipv6PrefixTextCorrected(prefix, mask)
  {
    var ip := PadWithZeros(prefix, 16);
    var ipv6: seq<string> := [];
    while |ipv6| < 8
      invariant |ipv6| <= 8 && forall i :: 0 <= i < |ipv6| ==> ipv6[i] == Group(ip, i)
      decreases 8 - |ipv6|
    {
      var k := |ipv6|;
      ipv6 := ipv6 + [HexText(BeU16(ip[2 * k], ip[2 * k + 1]))];
    }
    assert ipv6 == FullGroups(ip);
    text := Join(ipv6, ':') + "/" + DecimalText(mask);
  }

  /** The corrected text has the eight groups as the IP field, split by `:`, and the mask as the mask field. */
  lemma Ipv6CorrectedFields(prefix: seq<byte>, mask: byte)
    ensures '/' in Ipv6PrefixTextCorrected(prefix, mask)
    ensures IpField(Ipv6PrefixTextCorrected(prefix, mask)) == Join(FullGroups(ZeroPad(prefix, 16)), ':')
    ensures Split(IpField(Ipv6PrefixTextCorrected(prefix, mask)), ':') == FullGroups(ZeroPad(prefix, 16))
    ensures MaskField(Ipv6PrefixTextCorrected(prefix, mask)) == DecimalText(mask)
  {
    var groups := FullGroups(ZeroPad(prefix, 16));
    forall k | 0 <= k < 8 ensures ':' !in groups[k] && '/' !in groups[k] {
      GroupHasNoSeparator(ZeroPad(prefix, 16), k);
    }
    JoinHasNo(groups, ':', '/');
    NumeralHasNo(mask, 10, '/');
    FieldsOfText(Join(groups, ':'), DecimalText(mask), "");
    assert Join(groups, ':') + "/" + DecimalText(mask) + "" == Ipv6PrefixTextCorrected(prefix, mask);
    SplitJoin(groups, ':');
  }

  /** Equal groups come from equal addresses. */
  lemma FullGroupsInjective(a: seq<byte>, b: seq<byte>)
    requires |a| >= 16 && |b| >= 16 && FullGroups(a) == FullGroups(b)
    ensures a[..16] == b[..16]
  {
    forall k | 0 <= k < 8 ensures a[2 * k] == b[2 * k] && a[2 * k + 1] == b[2 * k + 1] {
      assert FullGroups(a)[k] == FullGroups(b)[k];
      NumeralInjective(BeU16(a[2 * k], a[2 * k + 1]), BeU16(b[2 * k], b[2 * k + 1]), 16);
      U16ToBeOfBeU16(a[2 * k], a[2 * k + 1]);
      U16ToBeOfBeU16(b[2 * k], b[2 * k + 1]);
    }
    forall i | 0 <= i < 16 ensures a[i] == b[i] {
      var k := i / 2;
      assert i == 2 * k || i == 2 * k + 1;
    }
  }

  /** Distinct sixteen-byte prefixes or masks give distinct corrected texts. */
  lemma Ipv6CorrectedInjective(p: seq<byte>, m: byte, q: seq<byte>, n: byte)
    requires Ipv6PrefixTextCorrected(p, m) == Ipv6PrefixTextCorrected(q, n)
    ensures ZeroPad(p, 16)[..16] == ZeroPad(q, 16)[..16] && m == n
  {
    Ipv6CorrectedFields(p, m);
    Ipv6CorrectedFields(q, n);
    NumeralInjective(m, n, 10);
    FullGroupsInjective(ZeroPad(p, 16), ZeroPad(q, 16));
  }

  /** An IP parser that reads the eight groups as `ip` makes the corrected text the address `ip` with the prefix's mask. */
  lemma Ipv6CorrectedParses(prefix: seq<byte>, mask: byte, parseIp: string -> Option<IpAddr>, ip: IpAddr)
    requires parseIp(Join(FullGroups(ZeroPad(prefix, 16)), ':')) == Some(ip)
    ensures MaskParses(Ipv6PrefixTextCorrected(prefix, mask), parseIp)
    ensures FromStr(Ipv6PrefixTextCorrected(prefix, mask), parseIp) == Ok(Address(ip, mask))
  {
    Ipv6CorrectedFields(prefix, mask);
    ParseDecimalText(mask, 0x100);
  }

  // ----- one RIB record -----

  /** The two `TABLE_DUMP_V2` records `parse_mrt` reads; every other record is skipped. */
  datatype Family = Ipv4Unicast | Ipv6Unicast

  /** The text of a record's prefix, IPv6 prefixes through the corrected builder. */
  function PrefixText(family: Family, prefix: seq<byte>, mask: byte): string {
    match family
    case Ipv4Unicast => Ipv4PrefixText(prefix, mask)
    case Ipv6Unicast => Ipv6PrefixTextCorrected(prefix, mask)
  }

  /** Either text has a `/` and the mask after it, so `from_str` reads the mask back once the IP field parses. */
  lemma PrefixTextMask(family: Family, prefix: seq<byte>, mask: byte, parseIp: string -> Option<IpAddr>)
    ensures '/' in PrefixText(family, prefix, mask)
    ensures ParseUnsigned(MaskField(PrefixText(family, prefix, mask)), 0x100) == Some(mask as nat)
    ensures MaskParses(PrefixText(family, prefix, mask), parseIp)
  {
    match family
    case Ipv4Unicast => Ipv4PrefixTextFields(prefix, mask);
    case Ipv6Unicast => Ipv6CorrectedFields(prefix, mask);
    ParseDecimalText(mask, 0x100);
  }

  /**
   * `match_rib_entry`: `Address::from_str(text)?` fails the call with the
   * parse error; otherwise every RIB entry whose attributes decode adds its
   * deduplicated path to the address's set.
   */
  method MatchRibEntry(entries: seq<seq<byte>>, text: string, parseIp: string -> Option<IpAddr>, mrtHm: RibTable)
    returns (r: Result<RibTable>)
    requires MaskParses(text, parseIp)
    ensures FromStr(text, parseIp).Err? ==> r == Err(FromStr(text, parseIp).error)
    ensures FromStr(text, parseIp).Ok? ==> r == Ok(Ingest(mrtHm, FromStr(text, parseIp).value, ParsedPaths(entries)))
  {
    var addr := FromStr(text, parseIp);
    if addr.Err? {
      return Err(addr.error);
    }
    var out := InsertParsedPaths(entries, addr.value, mrtHm);
    r := Ok(out);
  }

  /**
   * One `RIB_IPV4_UNICAST` or `RIB_IPV6_UNICAST` record of `parse_mrt`: the
   * prefix as text, then `match_rib_entry`.  The record fails exactly when
   * the IP parser rejects the text's IP field; otherwise its paths join the
   * set of the prefix's address and mask.
   */
  method ParseRibRecord(family: Family, prefix: seq<byte>, mask: byte, entries: seq<seq<byte>>,
                        parseIp: string -> Option<IpAddr>, mrtHm: RibTable)
    returns (r: Result<RibTable>)
    ensures var text := PrefixText(family, prefix, mask);
      '/' in text && (parseIp(IpField(text)).None? ==> r == Err(AddrParse(IpField(text))))
    ensures var text := PrefixText(family, prefix, mask);
      '/' in text && (parseIp(IpField(text)).Some? ==>
        r == Ok(Ingest(mrtHm, Address(parseIp(IpField(text)).value, mask), ParsedPaths(entries))))
  {
    var text: string;
    match family {
      case Ipv4Unicast =>
        text := FormatIpv4Prefix(prefix, mask);
      case Ipv6Unicast =>
        text := FormatIpv6PrefixCorrected(prefix, mask);
    }
    PrefixTextMask(family, prefix, mask, parseIp);
    r := MatchRibEntry(entries, text, parseIp, mrtHm);
  }
}
