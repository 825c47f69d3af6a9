/**
 * The table both bottleneck variants build from the RIB entries of a dump:
 * each prefix maps to the set of AS paths seen for it.  `match_rib_entry`
 * decodes the attributes of every RIB entry of one prefix, collapses
 * adjacent repeats in the AS path (`Vec::dedup`) and adds the path to the
 * prefix's set, creating the set on the first path that decodes.  Entries
 * that do not decode are skipped (the source only logs them).
 */
module RibTables {
  import opened Wrappers
  import opened Bytes
  import opened Errors
  import opened Sequences
  import opened Addresses
  import opened AsPathParsing
  import opened AsPathProperties
  import opened CommonSuffixes

  /** `HashMap<Address, HashSet<Vec<u32>>>` */
  type RibTable = map<Address, set<seq<u32>>>

  /** Every prefix has at least one path, and no path is empty. */
  predicate WellFormed(hm: RibTable) {
    forall a :: a in hm ==> PathsWellFormed(hm[a])
  }

  /** The set of `addr`, or the empty set `or_insert_with(HashSet::new)` would create. */
  function Lookup(hm: RibTable, addr: Address): set<seq<u32>> {
    if addr in hm then hm[addr] else {}
  }

  /** The path one RIB entry contributes, if its attributes decode. */
  function EntryPath(attributes: seq<byte>): (r: Option<seq<u32>>)
    ensures r.Some? <==> DecodeAsPath(attributes).Ok?
    ensures r.Some? ==> r.value != [] && NoAdjacentDuplicates(r.value)
  {
    match DecodeAsPath(attributes)
    case Err(_) => None
    case Ok(asPath) =>
      DecodedPathNonEmpty(attributes);
      Some(Dedup(asPath))
  }

  /** The paths the entries contribute, one per entry that decodes. */
  function ParsedPaths(entries: seq<seq<byte>>): (r: set<seq<u32>>)
    ensures forall p :: p in r ==> p != [] && NoAdjacentDuplicates(p)
    ensures forall p :: p in r <==> exists i :: 0 <= i < |entries| && EntryPath(entries[i]) == Some(p)
  {
    if entries == [] then {}
    else
      var init := entries[..|entries| - 1];
      var last := entries[|entries| - 1];
      var r := ParsedPaths(init) + (match EntryPath(last) case None => {} case Some(p) => {p});
      assert forall i :: 0 <= i < |init| ==> init[i] == entries[i];
      r
  }

  /** Adds `paths` to the set of `addr`; with nothing to add the table stays as it is. */
  function Ingest(hm: RibTable, addr: Address, paths: set<seq<u32>>): RibTable {
    if paths == {} then hm else hm[addr := Lookup(hm, addr) + paths]
  }

  /** Sets only grow, the prefix's set gains exactly the paths, and no other prefix changes. */
  lemma IngestOnlyGrows(hm: RibTable, addr: Address, paths: set<seq<u32>>)
    ensures var r := Ingest(hm, addr, paths);
      (forall a :: a in hm ==> a in r && hm[a] <= r[a]) &&
      (forall a :: a in r && a != addr ==> a in hm && r[a] == hm[a]) &&
      Lookup(r, addr) == Lookup(hm, addr) + paths
  {
  }

  lemma IngestKeepsWellFormed(hm: RibTable, addr: Address, entries: seq<seq<byte>>)
    requires WellFormed(hm)
    ensures WellFormed(Ingest(hm, addr, ParsedPaths(entries)))
  {
  }

  /** An entry whose attributes do not decode leaves the paths, and so the table, as they were. */
  lemma FailedEntryIgnored(entries: seq<seq<byte>>, attributes: seq<byte>)
    requires DecodeAsPath(attributes).Err?
    ensures ParsedPaths(entries + [attributes]) == ParsedPaths(entries)
  {
    assert (entries + [attributes])[..|entries|] == entries;
  }

  /** An entry that decodes adds its path with adjacent repeats collapsed. */
  lemma DecodedEntryAdded(entries: seq<seq<byte>>, attributes: seq<byte>)
    requires DecodeAsPath(attributes).Ok?
    ensures ParsedPaths(entries + [attributes]) == ParsedPaths(entries) + {Dedup(DecodeAsPath(attributes).value)}
  {
    assert (entries + [attributes])[..|entries|] == entries;
  }

  /** Ingesting in two steps is ingesting the union. */
  lemma IngestTwice(hm: RibTable, addr: Address, paths: set<seq<u32>>, more: set<seq<u32>>)
    ensures Ingest(Ingest(hm, addr, paths), addr, more) == Ingest(hm, addr, paths + more)
  {
    if paths == {} {
      assert paths + more == more;
    } else if more == {} {
      assert paths + more == paths;
    } else {
      var once := Ingest(hm, addr, paths);
      assert Lookup(once, addr) + more == Lookup(hm, addr) + (paths + more);
      assert once[addr := Lookup(once, addr) + more] == hm[addr := Lookup(hm, addr) + (paths + more)];
    }
  }

  /** One more entry: its path, if it decodes, joins the set of `addr`. */
  lemma IngestNextEntry(mrtHm: RibTable, addr: Address, done: seq<seq<byte>>, attributes: seq<byte>, out: RibTable)
    requires out == Ingest(mrtHm, addr, ParsedPaths(done))
    ensures EntryPath(attributes).Some? ==>
      out[addr := Lookup(out, addr) + {EntryPath(attributes).value}] == Ingest(mrtHm, addr, ParsedPaths(done + [attributes]))
    ensures EntryPath(attributes).None? ==> out == Ingest(mrtHm, addr, ParsedPaths(done + [attributes]))
  {
    if DecodeAsPath(attributes).Ok? {
      DecodedEntryAdded(done, attributes);
      IngestTwice(mrtHm, addr, ParsedPaths(done), {EntryPath(attributes).value});
    } else {
      FailedEntryIgnored(done, attributes);
    }
  }

  /**
   * The `for rib_entry in entries` loop of `match_rib_entry`: decode each
   * entry's attributes, `dedup` the path and insert it into the set of
   * `addr` (`entry(addr).or_insert_with(HashSet::new).insert(as_path)`).
   */
  method InsertParsedPaths(entries: seq<seq<byte>>, addr: Address, mrtHm: RibTable) returns (out: RibTable)
    ensures out == Ingest(mrtHm, addr, ParsedPaths(entries))
  {
    out := mrtHm;
    var k := 0;
    while k < |entries|
      invariant 0 <= k <= |entries|
      invariant out == Ingest(mrtHm, addr, ParsedPaths(entries[..k]))
    {
      IngestNextEntry(mrtHm, addr, entries[..k], entries[k], out);
      assert entries[..k + 1] == entries[..k] + [entries[k]];
      var parsed := Parse(entries[k]);
      match parsed {
        case Ok(asPath) =>
          var deduped := Dedup(asPath);
          out := out[addr := Lookup(out, addr) + {deduped}];
        case Err(_) =>
      }
      k := k + 1;
    }
    assert entries[..k] == entries;
  }
}
