# asmap-rs core, modelled in Dafny

asmap-rs reads BGP routing-table dumps (MRT `TABLE_DUMP_V2` RIB records) and
finds, for every announced prefix, the *bottleneck* AS: the AS farthest from
the origin that every route to that prefix passes through.  This project
models the core of that computation and proves properties of it:

- **AS_PATH decoder** (`AsPathParsing`, `AsPathProperties`, `AsPathVectors`,
  `AsPathEncoding`).  A forward-only byte cursor `AsPathParser` with
  `advance`, `parse_u32` and `done`.  A walker over BGP path attributes: a flag
  byte, a type code, and a 1- or 2-byte length chosen by the Extended Length
  bit (section 4.3 of RFC 4271).  AS_PATH segments are AS_SET (1) and
  AS_SEQUENCE (2), with 4-byte ASNs as in RFC 6793.  Each method of the class
  is proved against a pure specification function (`SegmentAt`,
  `AttributeAt`, `CollectPaths`, `DecodeAsPath`).  The decoder's partner is an
  encoder (`AsPathEncoding`); the round trip is proved for every block of
  well-formed attributes.
- **The bottleneck engine**, in its two variants:
  - `FindBottlenecks` models `src/find_bottleneck.rs`.  A prefix whose paths
    disagree on their origin is dropped.
  - `Bottlenecks` models `src/bottleneck.rs`.  Only the path whose origin
    disagrees is dropped.

  Both reverse the paths so the origin comes first.  Both start from a
  shortest path and truncate the candidate at the first mismatch.  Both
  store the candidate with `or_insert` and then `pop` its last element.
  The reference definition is `CommonSuffixes.Lcp`, the longest common prefix
  of the reversed paths.  `RibTables` models the table of path sets that
  `match_rib_entry` builds.  `Bottlenecks` also models the IPv4/IPv6
  prefix-text builder of `parse_mrt`; `FindBottlenecks` models `format_ip`.
- **Small text parsers**: `Address::from_str` and `RoutingPrefix::from_str`
  (`Addresses`, `RoutingPrefixes`), `BGPPath::from_str` and `BGPPath::load`
  (`BgpPaths`), and the `Vec::dedup` they rely on (`Sequences`).
- **Big-endian reads** `read_be_u16` and `read_be_u32` (`Helper`, over `Bytes`).
- **The error type** and the `Display` messages of the variants built from
  their own fields (`Errors`).  `Text` models the standard-library string
  operations the core uses (`find`, `split`, `join`, `parse`, `format!` of
  numbers).

The standard library's IP-literal parser `IpAddr::from_str` is foreign.  It is
a parameter `parseIp: string -> Option<IpAddr>` of every parser that calls it.
Hash-map and hash-set iteration order is modelled by nondeterministic choice
(`:|`), so every property proved holds for every iteration order.

## Model

| member | source | states |
|---|---|---|
| Bytes.BeU16OfU16ToBe | src/helper.rs:8-12 | reading back the two big-endian bytes of a u16 gives the u16 |
| Bytes.U32ToBeOfBeU32 | src/helper.rs:22-26 | the big-endian value of four bytes, written back, gives those four bytes |
| Helper.ReadBeU16 | src/helper.rs:4-15 | the value read followed by the slice left over is exactly the input: the first two bytes, big-endian, and the rest |
| Helper.ReadBeU32 | src/helper.rs:18-29 | the value read followed by the slice left over is exactly the input: the first four bytes, big-endian, and the rest |
| Helper.ReadBackU32 | src/helper.rs:18-29 | reading a u32 off its own big-endian bytes gives the value and leaves exactly the bytes after them |
| Helper.ConvertBytesToU16 | src/helper.rs:35-45 | `[0, 10]` reads as 10 with nothing left |
| Helper.ConvertBytesToU32 | src/helper.rs:47-56 | `[0, 0, 0, 10]` reads as 10 with nothing left |
| Text.Find | src/address.rs:13 | `find` gives None exactly when the character is absent; otherwise it gives the index of its first occurrence |
| Text.Split | src/address.rs:22 | `split` gives at least one field, and no field contains the separator; a text without the separator is its own single field; one with it has at least two fields |
| Text.JoinSplit | src/bgp_path.rs:40 | joining the fields of a split gives back the text |
| Text.SplitJoin | src/bottleneck.rs:158 | splitting fields joined by a separator they do not contain gives back the fields |
| Text.Numeral | src/bottleneck.rs:154 | `format!` of a number gives a non-empty digit string, without leading zeros, whose value is the number |
| Text.ParseUnsigned | src/address.rs:30 | a successful `parse::<uN>()` gives a value below the type's bound |
| Text.ParseDecimalTextBound | src/address.rs:30 | parsing a number's decimal text gives it back exactly when it fits the type, and fails otherwise |
| Text.NumeralInjective | src/bottleneck.rs:130 | distinct numbers have distinct numerals |
| Errors.Message | src/error.rs:51-72 | `Display` of the variants built from their own fields: the variant's fixed head, then exactly the field (or the number in decimal), which can be read back out, then the fixed tail; `MessageInjective` is its partner |
| Errors.NoSlashDisplay | src/error.rs:93-103 | the source test: `NoSlash` of `INVALID_IP_AND_MASK` renders as "Invalid IP and mask: INVALID_IP_AND_MASK. Missing \`/\`, expected format \`IP/mask\`" |
| Errors.MessageNamesVariant | src/error.rs:35-75 | equal messages come from the same variant: the fixed heads and tails agree |
| Errors.MessageInjective | src/error.rs:35-75 | equal messages come from equal errors: rendering loses nothing |
| Errors.MessageNumberParses | src/error.rs:60-64 | the decimal number inside an `UnknownTypeCode` or `UnknownASValue` message parses back to the byte |
| AsPathParsing.SegmentAt | src/as_path_parser.rs:94-122 | a segment that decodes consumes at least its type and count bytes and stays inside the buffer |
| AsPathParsing.HeaderAt | src/as_path_parser.rs:69-77 | a header that decodes takes at least three bytes and stays inside the buffer |
| AsPathParsing.AttributeAt | src/as_path_parser.rs:69-91 | an attribute that decodes consumes at least its header and stays inside the buffer |
| AsPathParsing.AsPathParser.constructor | src/as_path_parser.rs:17-19 | a new cursor holds the buffer and stands at 0 |
| AsPathParsing.AsPathParser.Done | src/as_path_parser.rs:42-44 | `done` holds exactly when no byte is left under the cursor |
| AsPathParsing.AsPathParser.Advance | src/as_path_parser.rs:22-30 | at the end: `UnexpectedEndOfBuffer` and no move; otherwise the byte under the cursor and a move of exactly one |
| AsPathParsing.AsPathParser.ParseU32 | src/as_path_parser.rs:33-39 | with four bytes left: their big-endian value and a move of exactly four; with fewer: `UnexpectedEndOfBuffer` after consuming them all |
| AsPathParsing.AsPathParser.ParseAsPath | src/as_path_parser.rs:94-122 | the result and the new cursor are those of `SegmentAt`: AS_SET skips its ASNs and yields None, AS_SEQUENCE yields its ASNs in order, any other type byte is `UnknownAsValue` of that byte |
| AsPathParsing.AsPathParser.ParseAttribute | src/as_path_parser.rs:69-91 | the result and the new cursor are those of `AttributeAt`: the Extended Length bit chooses a 2-byte big-endian length, codes 1 and 3 to 16 skip exactly that length, code 2 decodes one segment without consulting it |
| AsPathParsing.AsPathParser.ParseAttributes | src/as_path_parser.rs:46-66 | the walk to the end of the buffer: one path found gives that path, several give `MultipleAsPaths`, none or an empty AS_SEQUENCE gives `NoAsPathInAttributePath`, the first error wins |
| AsPathParsing.CollectPaths | src/as_path_parser.rs:46-56 | the reference for the `while !self.done()` walk: every attribute to the end of the buffer, the first error or empty AS_SEQUENCE stopping it; `CollectPathsWalks` ties it to the encoder |
| AsPathParsing.SinglePath | src/as_path_parser.rs:58-65 | the check after the walk: several paths give `MultipleAsPaths`, one gives that path, none gives `NoAsPathInAttributePath` |
| AsPathParsing.DecodeAsPath | src/as_path_parser.rs:12-14 | the reference for `parse`: `SinglePath` of the walk from the start; `DecodeEncodedBlock` is its round trip |
| AsPathParsing.AsPathParser.Parse | src/as_path_parser.rs:12-14 | a fresh cursor over the buffer decodes exactly `DecodeAsPath` of it |
| AsPathProperties.CollectStep | src/as_path_parser.rs:48-55 | one attribute of the walk: the path, if any, is appended and the walk goes on from where the attribute ends |
| AsPathProperties.EmptyBlockHasNoPath | src/as_path_parser.rs:58-65 | an empty attribute block is `NoAsPathInAttributePath` |
| AsPathProperties.CollectedPathsNonEmpty | src/as_path_parser.rs:49-54 | the walk only ever keeps non-empty AS_SEQUENCEs |
| AsPathProperties.DecodedPathNonEmpty | src/as_path_parser.rs:46-66 | a block that decodes names at least one AS and was not empty |
| AsPathProperties.AttributeAtPrefix | src/as_path_parser.rs:69-122 | the decoder reads no byte at or after where an attribute ends |
| AsPathProperties.LastAttributeTruncated | src/as_path_parser.rs:22-30 | the attribute that ends the buffer fails with `UnexpectedEndOfBuffer` once its last byte is gone |
| AsPathProperties.TruncatedBlockFails | src/as_path_parser.rs:46-66 | dropping the last byte of a block that decodes makes it `UnexpectedEndOfBuffer` |
| AsPathVectors.DecodeBlock0 | src/as_path_parser.rs:209-218 | the first test block decodes to `[64271, 62240]` |
| AsPathVectors.DecodeBlock1 | src/as_path_parser.rs:221-232 | the second test block decodes to `[3303, 12874, 209182]` |
| AsPathVectors.DecodeBlock2 | src/as_path_parser.rs:235-246 | the third test block decodes to `[42473, 1299]` |
| AsPathVectors.DeclaredAsPathLengthIgnored | src/as_path_parser.rs:87 | an AS_PATH whose declared length disagrees with its segment still yields the segment |
| AsPathVectors.SecondSegmentReadAsHeaders | src/as_path_parser.rs:87-89 | after an AS_PATH's first segment the walker reads the second segment's bytes as an attribute header |
| AsPathVectors.CursorExample | src/as_path_parser.rs:191-206 | `parse_u32` on `[0, 1, 2, 3, 4]` gives 66051, stops at 4, and the cursor is not done |
| AsPathEncoding.AsnsAtEncoded | src/as_path_parser.rs:108-116 | the ASNs read back from their big-endian encoding are the ASNs, in order |
| AsPathEncoding.AttributeAtEncoded | src/as_path_parser.rs:69-91 | one encoded well-formed attribute decodes to its path, and the cursor lands just after it |
| AsPathEncoding.CollectPathsWalks | src/as_path_parser.rs:48-56 | the walk over an encoded block collects exactly the block's AS_SEQUENCEs, in order |
| AsPathEncoding.DecodeEncodedBlock | src/as_path_parser.rs:46-66 | round trip: an encoded block decodes to its one AS_SEQUENCE, and to `MultipleAsPaths` or `NoAsPathInAttributePath` when it has several or none |
| Addresses.SplitFields | src/address.rs:22-30 | the first two `/`-separated fields are the IP field and the mask field |
| Addresses.FromStr | src/address.rs:12-32 | no `/`: `NoSlash` of the whole text; otherwise it fails exactly when the IP parser rejects the text before the first `/`, with `AddrParse` of that text; on success the IP is the parser's and the mask is the second field parsed as a byte |
| Addresses.FromStrOfText | src/address.rs:12-32 | round trip: `ip/mask` written in decimal parses back to the IP and the mask, also when `/`-separated fields follow |
| Addresses.TrailingFieldsIgnored | src/address.rs:22-30 | fields after the second `/` do not change the result |
| Addresses.AddressFromStrExample | src/address.rs:39-54 | `"127.0.0.1/23"` is 127.0.0.1 with mask 23 |
| RoutingPrefixes.FromStr | src/routing_prefix.rs:12-32 | the same outcomes as `Address::from_str`: `NoSlash` without `/`, `AddrParse` exactly when the IP is rejected, else the IP and the byte mask |
| RoutingPrefixes.TrailingFieldsIgnored | src/routing_prefix.rs:22-30 | fields after the second `/` do not change the result |
| RoutingPrefixes.FromStrOfText | src/routing_prefix.rs:12-32 | round trip: `ip/mask` parses back to the prefix |
| RoutingPrefixes.RoutingPrefixFromStrIpv4 | src/routing_prefix.rs:38-53 | `"127.0.0.1/23"` is the prefix 127.0.0.1 with mask 23 |
| RoutingPrefixes.RoutingPrefixFromStrIpv6 | src/routing_prefix.rs:55-70 | `"2001::/32"` is the prefix 2001:: with mask 32 |
| Sequences.Dedup | src/bgp_path.rs:58 | `dedup` keeps the first and last elements and the same set of elements, never lengthens, and leaves no equal neighbours |
| Sequences.DedupKeepsDistinctNeighbours | src/bgp_path.rs:58 | a sequence without equal neighbours is left as it is |
| Sequences.DedupIdempotent | src/bgp_path.rs:58 | deduplicating twice is deduplicating once |
| Sequences.DedupSnoc | src/bgp_path.rs:58 | scanning left to right, an element is kept exactly when it differs from the last one kept |
| BgpPaths.FirstUnparsed | src/bgp_path.rs:49-57 | every token before the index parses as u32, and the token at the index does not |
| BgpPaths.ParseAsns | src/bgp_path.rs:48-57 | on success, one number per token, each the token's value; on failure, `ParseInt` naming the first token that is not a u32 |
| BgpPaths.FromStr | src/bgp_path.rs:26-61 | `NoPipe` of the text exactly when it has no `\|`; the address's error propagates; with the address parsed, a token that is not a `u32` gives `ParseInt` naming the first such token; on success the address is the first field's and the path is `Dedup` of the parsed space-separated tokens, non-empty without equal neighbours |
| BgpPaths.ParseAsnsOfTexts | src/bgp_path.rs:48-57 | round trip: the decimal texts of numbers parse back to the numbers |
| BgpPaths.SplitAsnText | src/bgp_path.rs:48 | splitting a space-separated ASN list gives one token per number |
| BgpPaths.SplitLine | src/bgp_path.rs:40 | a line `addr\|asns` splits into exactly its two fields |
| BgpPaths.FromStrOfLine | src/bgp_path.rs:26-61 | round trip: a line written from an address and a path parses to that address and the path with adjacent repeats collapsed |
| BgpPaths.BgpPathFromStrExample | src/bgp_path.rs:69-92 | the test line parses with the trailing repeats of 45954 collapsed |
| BgpPaths.DedupExample | src/bgp_path.rs:83 | the test path deduplicates to `[31742, 174, 6453, 4755, 45820, 45954]` |
| BgpPaths.ParseAsnsOverflow | src/bgp_path.rs:48-57 | a number too big for u32 fails the list with `ParseInt` naming its text |
| BgpPaths.FromStrOverflow | src/bgp_path.rs:48-57 | a line whose address parses and whose ASN list holds a number out of the `u32` range fails with `ParseInt` naming that number |
| BgpPaths.ParseIntExample | src/bgp_path.rs:94-103 | the source test: the line `223.255.245.0/24\|31742 174 4294967296 4755 45820 45954 45954 45954 45954` fails `from_str` with `ParseInt("4294967296")` |
| BgpPaths.Load | src/bgp_path.rs:11-20 | one path per line, in line order; or the error of the first line that fails, every line before it having parsed |
| CommonSuffixes.Reverse | src/find_bottleneck.rs:99-100 | `reverse` keeps the length and puts element `i` at `n - 1 - i` |
| CommonSuffixes.CommonPrefix | src/find_bottleneck.rs:116-122 | the result is a prefix of both sequences that cannot be extended: they differ right after it |
| CommonSuffixes.CommonPrefixAt | src/find_bottleneck.rs:116-122 | the common prefix is the first `k` elements when the sequences agree up to `k` and not at `k` |
| CommonSuffixes.LongestCommonPrefixUnique | src/find_bottleneck.rs:99-127 | the longest common prefix of a set is unique |
| CommonSuffixes.LongestCommonPrefixInsert | src/find_bottleneck.rs:116-122 | adding a path shortens the longest common prefix to its common prefix with that path |
| CommonSuffixes.Lcp | src/find_bottleneck.rs:99-127 | the reference: a prefix of every reversed path that every other common prefix is a prefix of |
| CommonSuffixes.RevSetInsert | src/find_bottleneck.rs:104-105 | reversing a set of paths with one more path adds that path reversed |
| CommonSuffixes.ShortestExists | src/find_bottleneck.rs:97-99 | a non-empty set of paths has a shortest one, which the sort puts first |
| CommonSuffixes.CommonSuffixOfAgreeingPaths | src/find_bottleneck.rs:99-127 | for agreeing origins the vector starts with the origin, is no longer than any path, and read backwards ends every path |
| CommonSuffixes.TruncateAtMismatch | src/find_bottleneck.rs:116-122 | the `for i in 1..len` truncation loop yields the common prefix of the candidate and the reversed path |
| RibTables.EntryPath | src/find_bottleneck.rs:220-228 | an entry contributes a path exactly when its attributes decode; the path is non-empty without equal neighbours |
| RibTables.ParsedPaths | src/find_bottleneck.rs:219-230 | the paths are exactly those of the entries that decode |
| RibTables.Ingest | src/find_bottleneck.rs:223-226 | the reference for `entry(addr).or_insert_with(HashSet::new)` and the inserts: the address's set gains the paths; `IngestOnlyGrows` and `IngestTwice` are its properties |
| RibTables.IngestOnlyGrows | src/find_bottleneck.rs:223-226 | sets only grow, the prefix's set gains exactly the new paths, and no other prefix changes |
| RibTables.IngestKeepsWellFormed | src/find_bottleneck.rs:223-226 | a table of non-empty sets of non-empty paths stays so |
| RibTables.FailedEntryIgnored | src/find_bottleneck.rs:228 | an entry that does not decode leaves the paths as they were |
| RibTables.DecodedEntryAdded | src/find_bottleneck.rs:221-226 | an entry that decodes adds its path with adjacent repeats collapsed |
| RibTables.IngestTwice | src/find_bottleneck.rs:219-230 | ingesting in two steps is ingesting the union |
| RibTables.InsertParsedPaths | src/find_bottleneck.rs:219-230 | the loop over the entries adds exactly their decoded, deduplicated paths to the prefix's set |
| BottleneckFixture.LcpOfThree | src/find_bottleneck.rs:284-330 | the longest common prefix of three sequences is their pairwise common prefix |
| BottleneckFixture.Prefix139 | src/find_bottleneck.rs:284-330 | the test paths of 1.0.139.0/24 agree on their origin and share `[23969, 38040]` |
| BottleneckFixture.Prefix204 | src/find_bottleneck.rs:284-330 | the test paths of 1.0.204.0/22 agree on their origin and share `[23969, 38040]` |
| BottleneckFixture.Prefix6 | src/find_bottleneck.rs:284-330 | the test paths of 1.0.6.0/24 agree on their origin and share `[56203, 38803, 4826]` |
| FindBottlenecks.ScannedNext | src/find_bottleneck.rs:108-114 | the candidate fits in every remaining path, its first element differs exactly when the origin does, and then the prefix's origins disagree |
| FindBottlenecks.CommonSuffixOfPrefix | src/find_bottleneck.rs:95-123 | the scan of one prefix gives its longest common reversed prefix when all origins agree, and nothing otherwise, whatever the order and tie-break |
| FindBottlenecks.SuffixTableAt | src/find_bottleneck.rs:94-128 | the table holds a prefix exactly when its origins agree, with the longest common prefix of its reversed paths |
| FindBottlenecks.InsertCommonSuffix | src/find_bottleneck.rs:125-127 | one turn of the `'outer` loop keeps the loop's invariant, storing with `or_insert` |
| FindBottlenecks.SuffixTable | src/find_bottleneck.rs:90-131 | the reference table: each prefix whose origins agree maps to the `Lcp` of its reversed paths; `SuffixTableAt` states it per prefix |
| FindBottlenecks.Bottlenecks | src/find_bottleneck.rs:66-86 | the reference for what `find_as_bottleneck` stores: the last element of every vector of `SuffixTable`; `BottleneckOnEveryPath` is its property |
| FindBottlenecks.FindCommonSuffix | src/find_bottleneck.rs:90-131 | the output is the table of agreeing prefixes, with entries already present kept (`or_insert`) and no other key changed |
| FindBottlenecks.SuffixTableNonEmpty | src/find_bottleneck.rs:77-81 | every stored vector is non-empty, so the `pop` panic cannot happen |
| FindBottlenecks.FindBottleneck.constructor | src/find_bottleneck.rs:363-365 | a new finder has an empty `prefix_asn` |
| FindBottlenecks.FindBottleneck.FindAsBottleneck | src/find_bottleneck.rs:66-86 | `prefix_asn` gains, overwriting, the last element of each prefix's common vector |
| FindBottlenecks.FindBottleneck.StoreLastElements | src/find_bottleneck.rs:77-83 | the `pop` and `insert` loop stores the last element of every vector |
| FindBottlenecks.SuffixTableEntry | src/find_bottleneck.rs:94-128 | a stored vector is the longest common prefix of the reversed paths, starts with the origin, is no longer than any path, and read backwards ends every path |
| FindBottlenecks.BottleneckOnEveryPath | src/find_bottleneck.rs:63-86 | the bottleneck of a prefix lies on every one of its paths |
| FindBottlenecks.FormatIp | src/find_bottleneck.rs:189-208 | IPv4 takes bytes 0 to 3 of the zero-padded prefix; IPv6 takes the big-endian pairs (0,1), (2,3), (4,5), then (7,8) to (15,16) |
| FindBottlenecks.Octets | src/find_bottleneck.rs:160 | the octets of an IPv6 address are its segments, big-endian |
| FindBottlenecks.FormatIpIgnoresByteSix | src/find_bottleneck.rs:197-206 | byte 6 of the prefix never reaches the IPv6 address |
| FindBottlenecks.FormatIpOfEightBytes | src/find_bottleneck.rs:197-206 | for a /64 prefix, segment 3 is byte 7 followed by zero, so the address's octets differ from the prefix when bytes 6 and 7 do |
| FindBottlenecks.FormatIpDropsByte | src/find_bottleneck.rs:197-206 | 2001:db8:1234:5678::/64 becomes 2001:db8:1234:7800:: |
| FindBottlenecks.FormatIpCorrected | src/find_bottleneck.rs:189-208 | the IPv4 case is unchanged; IPv6 gives eight segments |
| FindBottlenecks.FormatIpCorrectedOctets | src/find_bottleneck.rs:197-206 | the corrected address's octets are the prefix bytes, zero-padded to 16 |
| FindBottlenecks.FormatIpAgreesUpToSixBytes | src/find_bottleneck.rs:197-206 | for prefixes of at most six bytes both versions agree |
| FindBottlenecks.Ipv6Short | src/find_bottleneck.rs:374-380 | `[32, 1, 3, 24]` is 2001:318:: |
| FindBottlenecks.Ipv6Long | src/find_bottleneck.rs:382-388 | `[32, 1, 2, 248, 16, 8]` is 2001:2f8:1008:: |
| FindBottlenecks.MatchRibEntry | src/find_bottleneck.rs:211-232 | the address's set gains exactly the decoded, deduplicated paths of the entries |
| FindBottlenecks.SuffixTableOfThree | src/find_bottleneck.rs:284-330 | a table of three agreeing prefixes maps each to its common vector |
| FindBottlenecks.BottlenecksOfThree | src/find_bottleneck.rs:352-372 | its bottlenecks are the last elements of the three vectors |
| FindBottlenecks.FixtureBottlenecks | src/find_bottleneck.rs:332-372 | the test table's vectors are `[23969, 38040]`, `[23969, 38040]`, `[56203, 38803, 4826]`, and its bottlenecks 38040, 38040, 4826 |
| Bottlenecks.SameOriginInsert | src/bottleneck.rs:77-91 | adding a path adds it to its own origin's paths and to no other |
| Bottlenecks.ScannedFirst | src/bottleneck.rs:64-69 | the reversed shortest path starts the scan |
| Bottlenecks.ScannedNext | src/bottleneck.rs:77 | the candidate fits in every remaining path, and the first elements agree exactly when the origins do |
| Bottlenecks.ScannedSkip | src/bottleneck.rs:77-91 | a path of another origin is passed over and the candidate stays as it was |
| Bottlenecks.ScannedStep | src/bottleneck.rs:93-99 | a path of the same origin shortens the candidate to its common prefix with that path |
| Bottlenecks.ScannedAll | src/bottleneck.rs:71-100 | once every path is seen, the candidate is the scan's vector for a shortest first path |
| Bottlenecks.CommonSuffixOfPrefix | src/bottleneck.rs:63-105 | the scan of one prefix gives the longest common reversed prefix of the paths sharing the origin of some shortest path |
| Bottlenecks.VariantsAgree | src/bottleneck.rs:63-105 | when all origins agree, both variants give the same vector, whichever path comes first |
| Bottlenecks.CommonSuffixFromOnPaths | src/bottleneck.rs:63-105 | the vector read backwards ends every path of the chosen origin, so its last element lies on each |
| Bottlenecks.TieBreak | src/bottleneck.rs:64-66 | with two shortest paths of different origins, the one sorted first decides the vector |
| Bottlenecks.ProgressDone | src/bottleneck.rs:63-105 | after every prefix, the output keeps earlier entries and holds a vector for every other prefix |
| Bottlenecks.InsertCommonSuffix | src/bottleneck.rs:102-104 | one turn of the loop over the prefixes keeps the loop's invariant, storing with `or_insert` |
| Bottlenecks.FindCommonSuffix | src/bottleneck.rs:59-108 | every prefix gets a vector unless already present; entries already present are kept; no other key appears |
| Bottlenecks.SuffixTableNonEmpty | src/bottleneck.rs:46-50 | every stored vector is non-empty, so the `pop` panic cannot happen |
| Bottlenecks.BottleneckOnPaths | src/bottleneck.rs:32-55 | the bottleneck of a prefix lies on every path of the origin its vector was built from |
| Bottlenecks.TablesAgree | src/bottleneck.rs:59-108 | wherever a prefix's origins agree, its vector is the one the other variant stores |
| Bottlenecks.TableWhenOriginsAgree | src/bottleneck.rs:59-108 | when every prefix's origins agree, the two variants build the same table |
| Bottlenecks.FindBottleneck.constructor | src/bottleneck.rs:308-310 | a new finder has an empty `prefix_asn` |
| Bottlenecks.FindBottleneck.FindAsBottleneck | src/bottleneck.rs:35-55 | `prefix_asn` gains, overwriting, the last element of each vector of a table the scan may build |
| Bottlenecks.FindBottleneck.StoreLastElements | src/bottleneck.rs:46-52 | the `pop` and `insert` loop stores the last element of every vector |
| Bottlenecks.FixtureBottlenecks | src/bottleneck.rs:278-317 | with the test table, every tie-break gives vectors `[23969, 38040]`, `[23969, 38040]`, `[56203, 38803, 4826]` and bottlenecks 38040, 38040, 4826 |
| Bottlenecks.ZeroPad | src/bottleneck.rs:127-129 | the prefix bytes, then zeros up to the length asked for |
| Bottlenecks.PadWithZeros | src/bottleneck.rs:136-138 | the `while ... push(0)` loop gives the zero-padded prefix |
| Bottlenecks.QuadFields | src/bottleneck.rs:130 | four fields, each the decimal numeral of its byte |
| Bottlenecks.Ipv4PrefixText | src/bottleneck.rs:124-130 | the reference for the IPv4 text: the dotted quad of the padded prefix, `/` and the mask; `Ipv4PrefixTextParses` and `Ipv4PrefixTextInjective` are its partners |
| Bottlenecks.FormatIpv4Prefix | src/bottleneck.rs:124-130 | the IPv4 arm's text is the padded prefix as a dotted quad, `/` and the mask |
| Bottlenecks.DottedQuadFields | src/bottleneck.rs:130 | the dotted quad has no `/`, and its `.`-separated fields are the four decimal numerals |
| Bottlenecks.Ipv4PrefixTextFields | src/bottleneck.rs:124-131 | the IPv4 text's IP field is the dotted quad and its mask field the mask in decimal |
| Bottlenecks.Ipv4PrefixTextParses | src/bottleneck.rs:124-131 | an IP parser that reads the dotted quad as `ip` makes the text the address `ip` with the prefix's mask |
| Bottlenecks.QuadFieldsInjective | src/bottleneck.rs:130 | equal fields come from equal bytes |
| Bottlenecks.DottedQuadInjective | src/bottleneck.rs:130 | equal dotted quads come from equal first four bytes |
| Bottlenecks.Ipv4PrefixTextInjective | src/bottleneck.rs:124-131 | distinct padded prefixes or masks give distinct texts |
| Bottlenecks.ReverseBytes | src/bottleneck.rs:140 | `reverse` keeps the length and puts byte `i` at `n - 1 - i` |
| Bottlenecks.GroupHasNoSeparator | src/bottleneck.rs:154 | a hex group is non-empty and has neither `:` nor `/` |
| Bottlenecks.GroupsOfNonZeroPair | src/bottleneck.rs:150-156 | a non-zero pair adds its numeral and the loop goes on |
| Bottlenecks.Ipv6GroupsStep | src/bottleneck.rs:150-156 | a zero pair ends the groups with `":"`; any other pair adds its numeral |
| Bottlenecks.PopGroup | src/bottleneck.rs:142-149 | two pops from the reversed padding give the bytes of the next group, in order |
| Bottlenecks.EmittingStart | src/bottleneck.rs:139-140 | the reversed padding with no groups emitted starts the loop |
| Bottlenecks.EmittingDone | src/bottleneck.rs:141 | with four groups emitted there are no more |
| Bottlenecks.EmittingStep | src/bottleneck.rs:141-157 | one turn of the `pop` loop emits the next group, or `":"` on a zero pair |
| Bottlenecks.Ipv6Groups | src/bottleneck.rs:141-157 | the reference for the groups the pop loop emits: one hex numeral per non-zero pair, `":"` in place of the first zero pair, at most four |
| Bottlenecks.Ipv6PrefixText | src/bottleneck.rs:133-159 | the reference for the IPv6 text: the groups joined by `:`, `/` and the mask; `Ipv6PrefixTextStopsAtZeroPair` and `Ipv6FourGroups` are its properties |
| Bottlenecks.FormatIpv6Prefix | src/bottleneck.rs:133-159 | the IPv6 arm's text is at most four hex groups of the padded prefix, cut at the first zero pair by `":"`, joined by `:`, then `/` and the mask |
| Bottlenecks.GroupsAgreeFrom | src/bottleneck.rs:141-157 | paddings with the same pair at a group and the same groups after it have the same groups from there on |
| Bottlenecks.GroupsUpToZeroPair | src/bottleneck.rs:141-157 | paddings that agree up to a zero pair give the same groups |
| Bottlenecks.Ipv6PrefixTextStopsAtZeroPair | src/bottleneck.rs:133-159 | prefixes that agree up to a zero pair get the same text, whatever their later bytes |
| Bottlenecks.Ipv6DistinctPrefixesOneText | src/bottleneck.rs:133-159 | 2001:0:1::/48 and 2001::/48 get the same text, though their bytes differ |
| Bottlenecks.GroupsWithoutZeroPair | src/bottleneck.rs:141-157 | with no zero pair, each remaining group gives one separator-free numeral |
| Bottlenecks.Ipv6FourGroups | src/bottleneck.rs:133-159 | a prefix with no zero pair in its first eight bytes gets an IP field of four non-empty `:`-separated fields and no `::` |
| Bottlenecks.Ipv6FourGroupsExample | src/bottleneck.rs:133-159 | the /64 prefix 2001:db8:1:2:: gets the four-field IP field `2001:db8:1:2` |
| Bottlenecks.Ipv6LeadingZeroPair | src/bottleneck.rs:150-152 | a prefix whose first pair is zero, the default route among them, gets the IP field `":"` |
| Bottlenecks.FullGroups | src/bottleneck.rs:154 | eight groups, each the hex numeral of its pair |
| Bottlenecks.FormatIpv6PrefixCorrected | src/bottleneck.rs:133-159 | the corrected builder's text is the prefix padded to sixteen bytes as eight hex groups, then `/` and the mask |
| Bottlenecks.Ipv6CorrectedFields | src/bottleneck.rs:133-159 | the corrected text's IP field splits into the eight groups, and its mask field is the mask |
| Bottlenecks.FullGroupsInjective | src/bottleneck.rs:154 | equal groups come from equal sixteen-byte addresses |
| Bottlenecks.Ipv6CorrectedInjective | src/bottleneck.rs:133-159 | distinct padded prefixes or masks give distinct corrected texts |
| Bottlenecks.Ipv6CorrectedParses | src/bottleneck.rs:133-160 | an IP parser that reads the eight groups as `ip` makes the corrected text the address `ip` with the prefix's mask |
| Bottlenecks.PrefixTextMask | src/bottleneck.rs:124-160 | either family's text has a `/` and reads back the exact mask |
| Bottlenecks.MatchRibEntry | src/bottleneck.rs:172-192 | the `from_str` error of the text fails the call; otherwise the address's set gains exactly the decoded, deduplicated paths of the entries |
| Bottlenecks.ParseRibRecord | src/bottleneck.rs:124-160 | one RIB record fails exactly when the IP parser rejects its IP field, with `AddrParse`; otherwise the address with the record's mask gains the record's paths |

## Left out

- `locate` in both bottleneck files, and the record loop of `parse_mrt` (`src/bottleneck.rs:112-169`, `src/find_bottleneck.rs:135-186`): directory walking, file opening, gzip and the MRT record stream come from foreign code.  Only the per-record work is modelled: the prefix text or `format_ip`, then `match_rib_entry`.
- The shard arithmetic of `src/find_bottleneck.rs:43-44`, where `240 + 16` overflows a `u8`, is not modelled, because it lives in `locate`.  The same goes for the IPv4 `>` against IPv6 `>=` break of `src/find_bottleneck.rs:150` and `:160`, which consumes the record that stops the loop; it lives in the record loop.
- `write`, `write_intermediate`, `write_result` and `write_bottleneck`: file output, timestamps and `IpAddr` `Display` are I/O.
- The CLI, the HTTP download and temporary files (`subcommand.rs`, `opt.rs`), the stubs of `mrt_parse.rs` and `lib.rs`, and the re-exports of `common.rs` and `main.rs`: none of them is core logic.
- `IpAddr::from_str` is foreign: it is the parameter `parseIp`.  An `IpAddr` is its four octets or eight segments.
- Logging (`warn!`, `error!`, `info!`, `debug!`, `dbg!`, `println!`) has no effect on results.
- Hash-map and hash-set order: the loops pick their next element with `:|`, so every proved property holds for every order.
- The `Display` cases of `IoError`, `Reqwest`, `AddrParse` and `TryFromSlice` wrap foreign errors, whose text is not available.
- Helper.ReadBeU16 and Helper.ReadBeU32 require enough bytes, because `split_at` panics on a shorter slice.  The `TryFromSlice` branch can never be taken after a split of exactly the right size, so it has no counterpart.
- Addresses.FromStr, RoutingPrefixes.FromStr and BgpPaths.FromStr require a mask field that parses as a byte once the IP field has parsed (`MaskParses`), because `unwrap` panics otherwise.  BgpPaths.FromStr also requires at most one `|`, because more panic.
- BgpPaths.Load takes the lines as a sequence.  The reader's `line.unwrap()` I/O failure is not modelled.
- `find_common_suffix` and `match_rib_entry` return a `Result` that is always `Ok` in `src/find_bottleneck.rs`; the model returns the table alone.  `src/bottleneck.rs`'s `match_rib_entry` can fail, and its `Result` is modelled.
- AsPathParsing.AttributeAt: type codes 0 and above 16 reach `todo!()` and panic.  The model returns `UnknownTypeCode` of the code instead, the error variant the crate has for it.
- AsPathParsing.AttributeAt follows the code for type code 2: it decodes one segment and does not realign to the declared attribute length.  An AS_PATH with several segments therefore leaves its later segments to be read as attribute headers (`AsPathVectors.SecondSegmentReadAsHeaders`), unlike section 4.3 of RFC 4271.
- The error enum of `src/error.rs` is older than the decoder.  Here one datatype `Errors.Error` holds every variant the modelled files use: `UnexpectedEndOfBuffer`, `NoAsPathInAttributePath`, `MultipleAsPaths`, `NoPipe` and `ParseInt` are added.  `RoutingPrefix::from_str` names its `NoSlash` field `bad_prefix`; the model uses the single `NoSlash` variant.
- The sort of `find_common_suffix` (commented "descending") is ascending by length, as the code sorts.  The model picks any shortest path first.  The `src/find_bottleneck.rs` result does not depend on that choice (`FindBottlenecks.CommonSuffixOfPrefix`).  The `src/bottleneck.rs` result can depend on it (`Bottlenecks.TieBreak`).
- Bottlenecks.ParseRibRecord builds the IPv6 text with the corrected builder (see Findings), not the as-written one that `Bottlenecks.FormatIpv6Prefix` models.

## Findings

| source | as written | input that shows it | evidently intended | confidence | as-written member | corrected member |
|---|---|---|---|---|---|---|
| src/find_bottleneck.rs:197-206 | the fourth IPv6 segment is built from bytes 7 and 8, so byte 6 is skipped and every later segment is one byte off | the /64 prefix `[0x20,0x01,0x0d,0xb8,0x12,0x34,0x56,0x78]` becomes 2001:db8:1234:7800:: | segment `j` is bytes `2j` and `2j+1`, so the address's octets are the prefix zero-padded | high, not executed | FindBottlenecks.FormatIpDropsByte | FindBottlenecks.FormatIpCorrectedOctets |
| src/bottleneck.rs:141-157 | the IPv6 text stops at the first all-zero byte pair, so prefixes that differ after it get the same text and the same table key | `[0x20,0x01,0,0,0,0x01]` and `[0x20,0x01]` at /48 both give `2001::/48` | every pair of the address is a group, so distinct prefixes keep distinct texts | high, not executed | Bottlenecks.Ipv6DistinctPrefixesOneText | Bottlenecks.Ipv6CorrectedInjective |
| src/bottleneck.rs:136-141 | with no zero pair in the first eight bytes, four groups are emitted with no `::`, which is not an IPv6 text form of section 2.2 of RFC 4291, and bytes 8 and later are never read | the /64 prefix `[0x20,0x01,0x0d,0xb8,0,1,0,2]` gives the IP field `2001:db8:1:2` | eight groups, padded to the sixteen bytes of an address | high, not executed | Bottlenecks.Ipv6FourGroupsExample | Bottlenecks.Ipv6CorrectedFields |
