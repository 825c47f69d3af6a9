/**
 * `find_bottleneck.rs`: the bottleneck search that drops a whole prefix as
 * soon as one of its paths has a different origin (`continue 'outer`).
 *
 * Hash-map and hash-set iteration orders are not part of the model: the
 * methods pick the next key or path with `:|`, so every order the source may
 * use is covered, and the contracts hold for all of them.
 */
module FindBottlenecks {
  import opened Wrappers
  import opened Bytes
  import opened Addresses
  import opened CommonSuffixes
  import opened RibTables
  import opened BottleneckFixture

  /**
   * The state of the scan over one prefix's paths: `seen` were compared (the
   * shortest path `first` among them), `rest` remain, all seen paths share
   * the origin of `first`, and the candidate `c` is the longest common prefix
   * of the seen paths reversed.
   */
  ghost predicate Scanned(asPaths: set<seq<u32>>, first: seq<u32>, seen: set<seq<u32>>, rest: set<seq<u32>>, c: seq<u32>) {
    IsShortest(first, asPaths) && first in seen && seen <= asPaths && rest == asPaths - seen &&
    (forall p :: p in seen ==> Origin(p) == Origin(first)) &&
    First(c) == Origin(first) && |c| <= |first| &&
    IsLongestCommonPrefix(c, RevSet(seen))
  }

  lemma ScannedFirst(asPaths: set<seq<u32>>, first: seq<u32>)
    requires IsShortest(first, asPaths)
    ensures Scanned(asPaths, first, {first}, asPaths - {first}, Reverse(first))
  {
    FirstOfReverse(first);
    LongestCommonPrefixSingleton(Reverse(first));
    assert RevSet({first}) == {Reverse(first)};
  }

  /** The candidate fits in every remaining path, and a first-element mismatch is an origin mismatch. */
  lemma ScannedNext(asPaths: set<seq<u32>>, first: seq<u32>, seen: set<seq<u32>>, rest: set<seq<u32>>, c: seq<u32>, asPath: seq<u32>)
    requires Scanned(asPaths, first, seen, rest, c) && asPath in rest
    ensures |c| <= |Reverse(asPath)|
    ensures First(c) == First(Reverse(asPath)) <==> Origin(asPath) == Origin(first)
    ensures First(c) != First(Reverse(asPath)) ==> !OriginsAgree(asPaths)
  {
    FirstOfReverse(asPath);
  }

  lemma ScannedStep(asPaths: set<seq<u32>>, first: seq<u32>, seen: set<seq<u32>>, rest: set<seq<u32>>, c: seq<u32>, asPath: seq<u32>)
    requires Scanned(asPaths, first, seen, rest, c) && asPath in rest
    requires Origin(asPath) == Origin(first)
    ensures Scanned(asPaths, first, seen + {asPath}, rest - {asPath}, CommonPrefix(c, Reverse(asPath)))
  {
    LongestCommonPrefixInsert(c, RevSet(seen), Reverse(asPath));
    RevSetInsert(seen, asPath);
  }

  lemma ScannedAll(asPaths: set<seq<u32>>, first: seq<u32>, seen: set<seq<u32>>, c: seq<u32>)
    requires Scanned(asPaths, first, seen, {}, c)
    ensures OriginsAgree(asPaths) && c == Lcp(RevSet(asPaths))
  {
    assert seen == asPaths by {
      forall p | p in asPaths ensures p in seen {
        assert p !in asPaths - seen;
      }
    }
    LongestCommonPrefixUnique(c, Lcp(RevSet(asPaths)), RevSet(asPaths));
  }

  /**
   * The body of the `'outer` loop for one prefix: the paths in ascending
   * length (`sort_by` on `len`, ties in any order), the shortest reversed as
   * the candidate, then every further path reversed and compared with it.
   * `None` is the `continue 'outer` of an origin mismatch.
   */
  method CommonSuffixOfPrefix(asPaths: set<seq<u32>>) returns (r: Option<seq<u32>>)
    requires asPaths != {}
    ensures r == if OriginsAgree(asPaths) then Some(Lcp(RevSet(asPaths))) else None
  {
    ShortestExists(asPaths);
    var first :| first in asPaths && IsShortest(first, asPaths);
    var revCommonSuffix := Reverse(first);
    var rest := asPaths - {first};
    ghost var seen := {first};
    ScannedFirst(asPaths, first);
    while rest != {}
      invariant Scanned(asPaths, first, seen, rest, revCommonSuffix)
      decreases |rest|
    {
      ShortestExists(rest);
      var asPath :| asPath in rest && IsShortest(asPath, rest);
      var revAsPath := Reverse(asPath);
      ScannedNext(asPaths, first, seen, rest, revCommonSuffix, asPath);
      if First(revCommonSuffix) != First(revAsPath) {
        return None;
      }
      var truncated := TruncateAtMismatch(revCommonSuffix, revAsPath);
      ScannedStep(asPaths, first, seen, rest, revCommonSuffix, asPath);
      revCommonSuffix := truncated;
      seen := seen + {asPath};
      rest := rest - {asPath};
    }
    ScannedAll(asPaths, first, seen, revCommonSuffix);
    return Some(revCommonSuffix);
  }

  /** The common vector of every prefix among `keys` whose origins agree. */
  ghost function SuffixTableOf(mrtHm: RibTable, keys: set<Address>): map<Address, seq<u32>>
    requires forall a :: a in mrtHm ==> mrtHm[a] != {}
  {
    map a | a in keys && a in mrtHm && OriginsAgree(mrtHm[a]) :: Lcp(RevSet(mrtHm[a]))
  }

  /** What `find_common_suffix` stores: the common vector of every prefix whose origins agree. */
  ghost function SuffixTable(mrtHm: RibTable): map<Address, seq<u32>>
    requires forall a :: a in mrtHm ==> mrtHm[a] != {}
  {
    SuffixTableOf(mrtHm, mrtHm.Keys)
  }

  /** The table holds a prefix exactly when its origins agree, with the vector of its paths. */
  lemma SuffixTableAt(mrtHm: RibTable, a: Address)
    requires forall a :: a in mrtHm ==> mrtHm[a] != {}
    ensures a in SuffixTable(mrtHm) <==> a in mrtHm && OriginsAgree(mrtHm[a])
    ensures a in SuffixTable(mrtHm) ==> SuffixTable(mrtHm)[a] == Lcp(RevSet(mrtHm[a]))
  {
  }

  /**
   * One more prefix of the table: its vector, if any, is added unless the
   * key is already there (`or_insert`), which is the table for one more key.
   */
  lemma SuffixTableStep(mrtHm: RibTable, acc: map<Address, seq<u32>>, done: set<Address>, prefix: Address, out: map<Address, seq<u32>>)
    requires forall a :: a in mrtHm ==> mrtHm[a] != {}
    requires prefix in mrtHm && prefix !in done
    requires out == SuffixTableOf(mrtHm, done) + acc
    ensures OriginsAgree(mrtHm[prefix]) && prefix !in out ==>
      out[prefix := Lcp(RevSet(mrtHm[prefix]))] == SuffixTableOf(mrtHm, done + {prefix}) + acc
    ensures !(OriginsAgree(mrtHm[prefix]) && prefix !in out) ==> out == SuffixTableOf(mrtHm, done + {prefix}) + acc
  {
    var next := SuffixTableOf(mrtHm, done + {prefix});
    if OriginsAgree(mrtHm[prefix]) {
      assert next == SuffixTableOf(mrtHm, done)[prefix := Lcp(RevSet(mrtHm[prefix]))];
    } else {
      assert next == SuffixTableOf(mrtHm, done);
    }
  }

  /** The loop over the table so far: `done` and `remaining` split its prefixes, and `out` holds the vectors of `done`. */
  ghost predicate Progress(mrtHm: RibTable, acc: map<Address, seq<u32>>, remaining: set<Address>, done: set<Address>, out: map<Address, seq<u32>>)
    requires forall a :: a in mrtHm ==> mrtHm[a] != {}
  {
    remaining + done == mrtHm.Keys && remaining !! done && out == SuffixTableOf(mrtHm, done) + acc
  }

  lemma ProgressStart(mrtHm: RibTable, acc: map<Address, seq<u32>>)
    requires forall a :: a in mrtHm ==> mrtHm[a] != {}
    ensures Progress(mrtHm, acc, mrtHm.Keys, {}, acc)
  {
    assert SuffixTableOf(mrtHm, {}) == map[];
  }

  lemma ProgressDone(mrtHm: RibTable, acc: map<Address, seq<u32>>, done: set<Address>, out: map<Address, seq<u32>>)
    requires forall a :: a in mrtHm ==> mrtHm[a] != {}
    requires Progress(mrtHm, acc, {}, done, out)
    ensures out == SuffixTable(mrtHm) + acc
  {
    assert done == mrtHm.Keys;
  }

  /**
   * One turn of the `'outer` loop: the common vector of `prefix`, stored with
   * `entry(*prefix).or_insert(rev_common_suffix)` unless the loop skipped it.
   */
  method InsertCommonSuffix(mrtHm: RibTable, acc: map<Address, seq<u32>>, ghost remaining: set<Address>, ghost done: set<Address>,
                            prefix: Address, out: map<Address, seq<u32>>)
    returns (next: map<Address, seq<u32>>)
    requires forall a :: a in mrtHm ==> mrtHm[a] != {}
    requires Progress(mrtHm, acc, remaining, done, out) && prefix in remaining
    ensures Progress(mrtHm, acc, remaining - {prefix}, done + {prefix}, next)
  {
    SuffixTableStep(mrtHm, acc, done, prefix, out);
    var revCommonSuffix := CommonSuffixOfPrefix(mrtHm[prefix]);
    next := out;
    if revCommonSuffix.Some? && prefix !in out {
      next := out[prefix := revCommonSuffix.value];
    }
  }

  /**
   * `find_common_suffix`: every prefix of the table, in any order, added with
   * `or_insert`, so that entries already in `prefixToCommonSuffix` stay.
   */
  method FindCommonSuffix(mrtHm: RibTable, prefixToCommonSuffix: map<Address, seq<u32>>) returns (out: map<Address, seq<u32>>)
    requires forall a :: a in mrtHm ==> mrtHm[a] != {}
    ensures out == SuffixTable(mrtHm) + prefixToCommonSuffix
  {
    out := prefixToCommonSuffix;
    var remaining := mrtHm.Keys;
    ghost var done: set<Address> := {};
    ProgressStart(mrtHm, prefixToCommonSuffix);
    while remaining != {}
      invariant Progress(mrtHm, prefixToCommonSuffix, remaining, done, out)
      decreases |remaining|
    {
      var prefix :| prefix in remaining;
      out := InsertCommonSuffix(mrtHm, prefixToCommonSuffix, remaining, done, prefix, out);
      remaining := remaining - {prefix};
      done := done + {prefix};
    }
    ProgressDone(mrtHm, prefixToCommonSuffix, done, out);
  }

  /** The common vector of a prefix whose paths are all non-empty is never empty. */
  lemma SuffixTableNonEmpty(mrtHm: RibTable)
    requires WellFormed(mrtHm)
    ensures forall a :: a in SuffixTable(mrtHm) ==> SuffixTable(mrtHm)[a] != []
  {
    forall a | a in SuffixTable(mrtHm) ensures SuffixTable(mrtHm)[a] != [] {
      var p :| p in mrtHm[a];
      CommonSuffixOfAgreeingPaths(mrtHm[a], p);
    }
  }

  /** The last element of the vector of every prefix among `keys`. */
  function LastElements(table: map<Address, seq<u32>>, keys: set<Address>): (r: map<Address, u32>)
    requires forall a :: a in table ==> table[a] != []
  {
    map a | a in keys && a in table :: Last(table[a])
  }

  /** What `find_as_bottleneck` stores: the last element of each common vector. */
  ghost function Bottlenecks(mrtHm: RibTable): map<Address, u32>
    requires WellFormed(mrtHm)
  {
    SuffixTableNonEmpty(mrtHm);
    var table := SuffixTable(mrtHm);
    LastElements(table, table.Keys)
  }

  /** The store loop so far: `done` and `remaining` split the keys, and `stored` holds the bottlenecks of `done` over `before`. */
  predicate Stored(table: map<Address, seq<u32>>, before: map<Address, u32>, remaining: set<Address>, done: set<Address>, stored: map<Address, u32>)
    requires forall a :: a in table ==> table[a] != []
  {
    remaining + done == table.Keys && remaining !! done && stored == before + LastElements(table, done)
  }

  lemma StoredStart(table: map<Address, seq<u32>>, before: map<Address, u32>)
    requires forall a :: a in table ==> table[a] != []
    ensures Stored(table, before, table.Keys, {}, before)
  {
    assert LastElements(table, {}) == map[];
  }

  /** Storing the bottleneck of one more prefix over what was there before. */
  lemma StoredStep(table: map<Address, seq<u32>>, before: map<Address, u32>, remaining: set<Address>, done: set<Address>, stored: map<Address, u32>, addr: Address)
    requires forall a :: a in table ==> table[a] != []
    requires Stored(table, before, remaining, done, stored) && addr in remaining
    ensures Stored(table, before, remaining - {addr}, done + {addr}, stored[addr := Last(table[addr])])
  {
    assert LastElements(table, done + {addr}) == LastElements(table, done)[addr := Last(table[addr])];
  }

  lemma StoredDone(table: map<Address, seq<u32>>, before: map<Address, u32>, done: set<Address>, stored: map<Address, u32>)
    requires forall a :: a in table ==> table[a] != []
    requires Stored(table, before, {}, done, stored)
    ensures stored == before + LastElements(table, table.Keys)
  {
    assert done == table.Keys;
  }

  /**
   * A prefix is in the table exactly when its origins agree; its vector then
   * is the longest prefix the reversed paths share, starts with the origin,
   * and read backwards ends every path.
   */
  lemma SuffixTableEntry(mrtHm: RibTable, a: Address, p: seq<u32>)
    requires WellFormed(mrtHm) && a in mrtHm && p in mrtHm[a]
    ensures a in SuffixTable(mrtHm) <==> OriginsAgree(mrtHm[a])
    ensures a in SuffixTable(mrtHm) ==>
      var c := SuffixTable(mrtHm)[a];
      IsLongestCommonPrefix(c, RevSet(mrtHm[a])) &&
      1 <= |c| <= |p| && Some(c[0]) == Origin(p) && Reverse(c) == p[|p| - |c|..]
  {
    if OriginsAgree(mrtHm[a]) {
      CommonSuffixOfAgreeingPaths(mrtHm[a], p);
    }
  }

  /** The bottleneck of a prefix lies on every one of its paths. */
  lemma BottleneckOnEveryPath(mrtHm: RibTable, a: Address, p: seq<u32>)
    requires WellFormed(mrtHm) && a in Bottlenecks(mrtHm) && p in mrtHm[a]
    ensures Bottlenecks(mrtHm)[a] in p
  {
    SuffixTableEntry(mrtHm, a, p);
    var c := SuffixTable(mrtHm)[a];
    assert Reverse(c)[0] == Last(c);
    assert p[|p| - |c|] == Last(c);
  }

  /** `FindBottleneck`: the bottleneck AS of every prefix. */
  class FindBottleneck {
    var prefixAsn: map<Address, u32>

    constructor ()
      ensures prefixAsn == map[]
    {
      prefixAsn := map[];
    }

    /**
     * `find_as_bottleneck`: `pop` the last element of each common vector and
     * `insert` it, overwriting what was stored for the prefix.  The vectors
     * are never empty, so the `pop` panic cannot happen.
     */
    method FindAsBottleneck(mrtHm: RibTable)
      requires WellFormed(mrtHm)
      modifies this
      ensures prefixAsn == old(prefixAsn) + Bottlenecks(mrtHm)
    {
      var prefixToCommonSuffix := FindCommonSuffix(mrtHm, map[]);
      SuffixTableNonEmpty(mrtHm);
      assert prefixToCommonSuffix == SuffixTable(mrtHm);
      StoreLastElements(prefixToCommonSuffix);
    }

    /** The `for (addr, mut as_path) in prefix_to_common_suffix` loop: `pop` and `insert`. */
    method StoreLastElements(prefixToCommonSuffix: map<Address, seq<u32>>)
      requires forall a :: a in prefixToCommonSuffix ==> prefixToCommonSuffix[a] != []
      modifies this
      ensures prefixAsn == old(prefixAsn) + LastElements(prefixToCommonSuffix, prefixToCommonSuffix.Keys)
    {
      var stored := prefixAsn;
      var remaining := prefixToCommonSuffix.Keys;
      ghost var done: set<Address> := {};
      StoredStart(prefixToCommonSuffix, prefixAsn);
      while remaining != {}
        invariant Stored(prefixToCommonSuffix, old(prefixAsn), remaining, done, stored)
        decreases |remaining|
      {
        var addr :| addr in remaining;
        var asPath := prefixToCommonSuffix[addr];
        var asn := asPath[|asPath| - 1];
        StoredStep(prefixToCommonSuffix, old(prefixAsn), remaining, done, stored, addr);
        stored := stored[addr := asn];
        remaining := remaining - {addr};
        done := done + {addr};
      }
      StoredDone(prefixToCommonSuffix, old(prefixAsn), done, stored);
      prefixAsn := stored;
    }
  }

  /** `format_ip`'s zero padding: byte `i` of the prefix, or 0 past its end. */
  function ByteAt(ip: seq<byte>, i: nat): byte {
    if i < |ip| then ip[i] else 0
  }

  /**
   * `format_ip`: the prefix bytes padded with 17 zeros, as an IPv4 address of
   * bytes 0..3, or as an IPv6 address of the big-endian pairs (0,1), (2,3),
   * (4,5), (7,8), (9,10), (11,12), (13,14), (15,16).
   */
  function FormatIp(ip: seq<byte>, isIpv4: bool): (r: IpAddr)
    ensures isIpv4 ==> r.V4? && |r.octets| == 4 && forall i :: 0 <= i < 4 ==> r.octets[i] == ByteAt(ip, i)
    ensures !isIpv4 ==> r.V6? && |r.segments| == 8
    ensures !isIpv4 ==> forall j :: 0 <= j < 3 ==> r.segments[j] == BeU16(ByteAt(ip, 2 * j), ByteAt(ip, 2 * j + 1))
    ensures !isIpv4 ==> forall j :: 3 <= j < 8 ==> r.segments[j] == BeU16(ByteAt(ip, 2 * j + 1), ByteAt(ip, 2 * j + 2))
  {
    var pad := ip + seq(17, _ => 0);
    assert forall i :: 0 <= i < |pad| ==> pad[i] == ByteAt(ip, i);
    if isIpv4 then
      V4([pad[0], pad[1], pad[2], pad[3]])
    else
      V6([BeU16(pad[0], pad[1]), BeU16(pad[2], pad[3]), BeU16(pad[4], pad[5]), BeU16(pad[7], pad[8]),
          BeU16(pad[9], pad[10]), BeU16(pad[11], pad[12]), BeU16(pad[13], pad[14]), BeU16(pad[15], pad[16])])
  }

  /** The 16 octets of an IPv6 address (`Ipv6Addr::octets`): each segment big-endian. */
  function Octets(segments: seq<u16>): (r: seq<byte>)
    ensures |r| == 2 * |segments|
    ensures forall j :: 0 <= j < |segments| ==> r[2 * j] == segments[j] / 0x100 && r[2 * j + 1] == segments[j] % 0x100
  {
    if segments == [] then []
    else
      var r := U16ToBe(segments[0]) + Octets(segments[1..]);
      assert forall j :: 1 <= j < |segments| ==> segments[1..][j - 1] == segments[j];
      r
  }

  /** Byte 6 of the prefix never reaches the IPv6 address. */
  lemma FormatIpIgnoresByteSix(ip: seq<byte>, x: byte)
    requires |ip| > 6
    ensures FormatIp(ip[6 := x], false) == FormatIp(ip, false)
  {
    var a, b := FormatIp(ip[6 := x], false), FormatIp(ip, false);
    assert a.segments == b.segments;
  }

  /**
   * An 8-byte (/64) prefix: segment 3 takes byte 7 as its high byte, so the
   * address's octets differ from the prefix whenever bytes 6 and 7 do.
   */
  lemma FormatIpOfEightBytes(ip: seq<byte>)
    requires |ip| == 8
    ensures FormatIp(ip, false).segments == [BeU16(ip[0], ip[1]), BeU16(ip[2], ip[3]), BeU16(ip[4], ip[5]), BeU16(ip[7], 0), 0, 0, 0, 0]
    ensures ip[6] != ip[7] ==> Octets(FormatIp(ip, false).segments)[..8] != ip
  {
    var segments := FormatIp(ip, false).segments;
    assert Octets(segments)[6] == segments[3] / 0x100 == ip[7];
  }

  /** 2001:db8:1234:5678::/64 becomes 2001:db8:1234:7800::, byte 0x56 lost and 0x78 moved up. */
  lemma FormatIpDropsByte(ip: seq<byte>)
    requires |ip| == 8
    requires ip[0] == 0x20 && ip[1] == 0x01 && ip[2] == 0x0d && ip[3] == 0xb8
    requires ip[4] == 0x12 && ip[5] == 0x34 && ip[6] == 0x56 && ip[7] == 0x78
    ensures FormatIp(ip, false) == V6([0x2001, 0x0db8, 0x1234, 0x7800, 0, 0, 0, 0])
  {
    FormatIpOfEightBytes(ip);
    ExampleSegments(ip, FormatIp(ip, false).segments);
  }

  lemma ExampleSegments(ip: seq<byte>, segments: seq<u16>)
    requires |ip| == 8
    requires ip[0] == 0x20 && ip[1] == 0x01 && ip[2] == 0x0d && ip[3] == 0xb8
    requires ip[4] == 0x12 && ip[5] == 0x34 && ip[7] == 0x78
    requires segments == [BeU16(ip[0], ip[1]), BeU16(ip[2], ip[3]), BeU16(ip[4], ip[5]), BeU16(ip[7], 0), 0, 0, 0, 0]
    ensures segments == [0x2001, 0x0db8, 0x1234, 0x7800, 0, 0, 0, 0]
  {
  }

  /** `format_ip` with every IPv6 segment the pair (2j, 2j+1). */
  function FormatIpCorrected(ip: seq<byte>, isIpv4: bool): (r: IpAddr)
    ensures isIpv4 ==> r == FormatIp(ip, true)
    ensures !isIpv4 ==> r.V6? && |r.segments| == 8
  {
    if isIpv4 then FormatIp(ip, true)
    else V6(seq(8, j requires 0 <= j < 8 => BeU16(ByteAt(ip, 2 * j), ByteAt(ip, 2 * j + 1))))
  }

  /** The corrected address's octets are the prefix bytes, zero-padded to 16. */
  lemma FormatIpCorrectedOctets(ip: seq<byte>)
    requires |ip| <= 16
    ensures Octets(FormatIpCorrected(ip, false).segments) == ip + seq(16 - |ip|, _ => 0)
  {
    var segments := FormatIpCorrected(ip, false).segments;
    var want := ip + seq(16 - |ip|, _ => 0);
    var have := Octets(segments);
    forall i | 0 <= i < 16 ensures have[i] == want[i] {
      var j := i / 2;
      U16ToBeOfBeU16(ByteAt(ip, 2 * j), ByteAt(ip, 2 * j + 1));
      assert segments[j] == BeU16(ByteAt(ip, 2 * j), ByteAt(ip, 2 * j + 1));
    }
  }

  /** The first three segments, all the test prefixes reach, are the same in both. */
  lemma FormatIpAgreesUpToSixBytes(ip: seq<byte>)
    requires |ip| <= 6
    ensures FormatIp(ip, false) == FormatIpCorrected(ip, false)
  {
    assert FormatIp(ip, false).segments == FormatIpCorrected(ip, false).segments;
  }

  /** `[32, 1, 3, 24]` is 2001:318::. */
  lemma Ipv6Short(ip: seq<byte>)
    requires ip == [32, 1, 3, 24]
    ensures FormatIp(ip, false) == V6([0x2001, 0x318, 0, 0, 0, 0, 0, 0])
  {
    assert FormatIp(ip, false).segments == [0x2001, 0x318, 0, 0, 0, 0, 0, 0];
  }

  /** `[32, 1, 2, 248, 16, 8]` is 2001:2f8:1008::. */
  lemma Ipv6Long(ip: seq<byte>)
    requires ip == [32, 1, 2, 248, 16, 8]
    ensures FormatIp(ip, false) == V6([0x2001, 0x2f8, 0x1008, 0, 0, 0, 0, 0])
  {
    assert FormatIp(ip, false).segments == [0x2001, 0x2f8, 0x1008, 0, 0, 0, 0, 0];
  }

  /**
   * `match_rib_entry`: the address of the prefix, then every RIB entry whose
   * attributes decode adds its deduplicated path to that address's set.
   */
  method MatchRibEntry(entries: seq<seq<byte>>, ip: IpAddr, mask: byte, mrtHm: RibTable) returns (out: RibTable)
    ensures out == Ingest(mrtHm, Address(ip, mask), ParsedPaths(entries))
  {
    var addr := Address(ip, mask);
    out := InsertParsedPaths(entries, addr, mrtHm);
  }

  /** The test table: prefix `a139` with its three paths, `a204` and `a6` likewise. */
  predicate IsFixture(mrtHm: RibTable, a139: Address, a204: Address, a6: Address) {
    a139 != a204 && a139 != a6 && a204 != a6 &&
    mrtHm == map[
      a139 := {[2497, 38040, 23969], [25152, 6939, 4766, 38040, 23969], [4777, 6939, 4766, 38040, 23969]},
      a204 := {[2497, 38040, 23969], [4777, 6939, 4766, 38040, 23969], [25152, 2914, 38040, 23969]},
      a6 := {[2497, 4826, 38803, 56203], [25152, 6939, 4826, 38803, 56203], [4777, 6939, 4826, 38803, 56203]}]
  }

  /** A table of three prefixes whose origins agree maps each to its common vector. */
  lemma SuffixTableOfThree(mrtHm: RibTable, a: Address, b: Address, c: Address, pa: set<seq<u32>>, pb: set<seq<u32>>, pc: set<seq<u32>>)
    requires a != b && a != c && b != c
    requires mrtHm == map[a := pa, b := pb, c := pc]
    requires PathsWellFormed(pa) && PathsWellFormed(pb) && PathsWellFormed(pc)
    requires OriginsAgree(pa) && OriginsAgree(pb) && OriginsAgree(pc)
    ensures WellFormed(mrtHm)
    ensures SuffixTable(mrtHm) == map[a := Lcp(RevSet(pa)), b := Lcp(RevSet(pb)), c := Lcp(RevSet(pc))]
  {
    assert mrtHm.Keys == {a, b, c};
  }

  /** Its bottlenecks are the last elements of the three vectors. */
  lemma BottlenecksOfThree(mrtHm: RibTable, a: Address, b: Address, c: Address, x: seq<u32>, y: seq<u32>, z: seq<u32>)
    requires a != b && a != c && b != c
    requires WellFormed(mrtHm) && SuffixTable(mrtHm) == map[a := x, b := y, c := z]
    ensures x != [] && y != [] && z != []
    ensures Bottlenecks(mrtHm) == map[a := Last(x), b := Last(y), c := Last(z)]
  {
    SuffixTableNonEmpty(mrtHm);
    assert SuffixTable(mrtHm).Keys == {a, b, c};
  }

  /** `finds_common_suffix_from_mrt_hashmap` and `finds_as_bottleneck_from_mrt_hashmap`. */
  lemma FixtureBottlenecks(mrtHm: RibTable, a139: Address, a204: Address, a6: Address)
    requires IsFixture(mrtHm, a139, a204, a6)
    ensures WellFormed(mrtHm)
    ensures SuffixTable(mrtHm) == map[a139 := [23969, 38040], a204 := [23969, 38040], a6 := [56203, 38803, 4826]]
    ensures Bottlenecks(mrtHm) == map[a139 := 38040, a204 := 38040, a6 := 4826]
  {
    Prefix139(mrtHm[a139], [2497, 38040, 23969], [25152, 6939, 4766, 38040, 23969], [4777, 6939, 4766, 38040, 23969]);
    Prefix204(mrtHm[a204], [2497, 38040, 23969], [4777, 6939, 4766, 38040, 23969], [25152, 2914, 38040, 23969]);
    Prefix6(mrtHm[a6], [2497, 4826, 38803, 56203], [25152, 6939, 4826, 38803, 56203], [4777, 6939, 4826, 38803, 56203]);
    SuffixTableOfThree(mrtHm, a139, a204, a6, mrtHm[a139], mrtHm[a204], mrtHm[a6]);
    BottlenecksOfThree(mrtHm, a139, a204, a6, [23969, 38040], [23969, 38040], [56203, 38803, 4826]);
  }
}
