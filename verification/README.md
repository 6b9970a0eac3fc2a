# Verified core of a Tailscale node in Rust

A Dafny 4.11 model of the parts of the repository that hold a hard invariant, with proofs. `dafny verify
dfyconfig.toml` checks the whole project.

- **Routing table.** The prefixes inside one octet are numbered as a binary heap (`BaseIndex`). `Lpm` and `Allot`
  give the ancestor and descendant sets, the latter by a worklist in a 512-slot array, and `Array256` is the
  rank-compressed array below them. `Trie`, `TrieInsert`, `TrieRemove` and `TrieModify` are the path-compressed
  trie of strides; it refines a map from prefixes to values, and it is *canonical*: the same routes give the same
  trie, whatever the history. `TrieMatches`, `TrieLookup`, `TrieNet` and `Nets` are its lookups by address and by
  prefix, `Table` is the table object.
- **Packet filter.** `CapLookup` (ids, free list, tail compaction), `PortPrefix` and `PortTrie` (port ranges as
  aligned blocks), `DstLookup` (pairs of a rule and a destination), `FilterTables` and `BartFilter` (rulesets under
  a free list of rule ids), compared with the reference `Rule::matches` of `Rules`. `FilterTrie` ties the filter's
  prefix tables to the trie's lookups; `IdIndex` and `Slots` are what the filter's tables share.
- **Calendar.** `Calendar` proves `civil_from_days` against a day-by-day Gregorian calendar; `Decimal` and
  `Timestamp` are the strings made of it.
- **Graph walks of `checks`.** `DepGraph` (breadth-first search with a parent map) and `Closure`.
- **State file and key file.** `StateFile` is a disk whose every intermediate state is kept, and `write_atomic` on
  it; `KeyFile` is the load, migrate and mint loop, over any run of loads with failures and kills.
- **Session recording.** `Chunked` (framing against a decoder of section 7.1 of RFC 9112) and `OutputPump`.
- **Byte-stream protocols.** `Socks` (sections 3 to 6 of RFC 1928 and section 2 of RFC 1929), and the LocalAPI's
  HTTP in `Search`, `HttpHead`, `HttpResponse`, `HttpMessage` (a field reader written from RFC 9112, which must
  find in a printed response what it was printed from) and `HttpParse`.

## What turned out not to hold

Each is kept as the code has it, shown on an input, and given its exact condition.

- `lookup_prefix_lpm` promises the matching prefix but hands out the *query's* address with the match's length
  (`AnswerKeepsHostBits`). The prefix is the route's own exactly when the route is alone in its branch of the trie,
  which depends on the stored routes only (`LeafIsAlone`), or the query has no bit set past the route's length
  (`LpmIsLongest`). It is right on every trie if and only if the query's address is all zeros (`LpmNeedsZeros`).
- `lookup_prefix_exact` does not truncate; it is right on every trie if and only if the prefix is truncated or at
  most eight bits long (`ExactNeedsTruncation`).
- The port range iterator takes a range of 65535 ports for all 65536 (`PortZeroSlipsIn`); it tiles its range if and
  only if the range is not `0..=65534` or `1..=65535` (`TilesExactly`). The comment at
  ts_bart_packetfilter/src/dst_port.rs:180-184 says only the full range answers at both ends of the port space;
  `AllPortsIds` says which do.
- The packet filter is meant to agree with `Rule::matches` (comment at ts_bart_packetfilter/src/lib.rs:218-222). The
  source table answers with its longest match only. A rule that matches is missed exactly when, with none of its
  capabilities offered, some rule's prefix containing the source is longer than all of its own that do
  (`LongerPrefixHides`, an instance in `NarrowHidesWide`). A rule that does not match is found exactly through a port
  range one port short (`ShortRangeLetsIn`, `PortZeroIsLetIn`). `DifferExactly` puts the two together for a rule,
  `FilterDecides` for a packet.
- `basic_date_t_time` is fifteen characters exactly for years -999 to 9999 (`FifteenCharacters`). It does
  not always sort by time (`NegativeYearsDoNotSort`). Over all times of the years `a` to `b` it does if and only if
  `a == b`, or both are from -1 to 9999, or both are positive with the same number of digits, at least five, or `a`
  is -1000, -10000 and so on and `b` is the next year (`SortsExactly`).
- A LocalAPI head that ends after `MAX_HEAD + 1` bytes but within `MAX_HEAD + 1024` is refused or framed as the
  bytes happen to arrive (`CanBeRefused`, `CanBeFramed`, and in numbers `HeadLimits`).
- `parse_response` gives a printed response's body back exactly when the head's first blank line is its last
  (`ParsedIs`); a reason that is a blank line loses the body (`BlankReasonLosesBody`).

Where the code and its comments disagree the model follows the code: ts_bart/src/allot.rs:13-15 speaks of strictly
more specific prefixes, while the code and its test include the index itself.

## Model

| member | source | states |
|---|---|---|
| `BaseIndex.FromPrefix` | ts_bart/src/base_index.rs:71-77 | the index of a prefix lies on the tree level that is its length, host bits dropped |
| `BaseIndex.PrefixOfFromPrefix` | ts_bart/src/base_index.rs:91-100 | reading an index back gives the truncated octet and the length |
| `BaseIndex.FromPrefixOfPrefix` | ts_bart/src/base_index.rs:71-100 | the other round trip: every index is the number of the prefix it stands for |
| `BaseIndex.RangeIsDescent` | ts_bart/src/base_index.rs:118-123 | `range` runs over exactly the octets whose fringe index descends from the index |
| `BaseIndex.ContainmentIsAncestry` | ts_bart/src/base_index.rs:118-123 | one range contains another if and only if its index is an ancestor |
| `BaseIndex.FringeAncestors` | ts_bart/src/base_index.rs:83-87 | starting the walk at the octet's /7 loses no prefix up to /7 |
| `BaseIndex.AncestorsAreAChain` | ts_bart/src/base_index.rs:167-174 | the ancestors of an index are totally ordered and have distinct lengths |
| `Lpm.LpmEntry` | ts_bart/src/lpm.rs:35-46 | the halving loop collects exactly the ancestors |
| `Lpm.BuildTable` | ts_bart/src/lpm.rs:49-60 | the filled table holds at every index its ancestor set |
| `Lpm.TopIsLongestMatch` | ts_bart/src/lpm.rs:35-46 | for any start index the common members of stored set and ancestor set are the stored ancestors, and the largest is the longest of them |
| `Lpm.LookupIndex` | ts_bart/src/node/mod.rs:219-222 | on the rank-compressed array and for any start index: the value of the longest stored ancestor, none exactly when no stored index is an ancestor |
| `Lpm.StrideLookup` | ts_bart/src/node/mod.rs:219-222 | for an octet: the value of the longest stored prefix whose range holds the octet, none exactly when no stored range does |
| `Allot.RunReachable` | ts_bart/src/allot.rs:85-116 | in every state of the worklist each listed index is a descendant listed once, in breadth-first position |
| `Allot.RunBound` | ts_bart/src/allot.rs:85-116 | the worklist never needs more than 511 of its 512 slots |
| `Allot.Entry` | ts_bart/src/allot.rs:85-116 | the array worklist ends with exactly the descendants below 256 and the octets of the fringe descendants, each visited once |
| `Allot.AllotInvertsLpm` | ts_bart/src/allot.rs:30-38 | j is in the descendant set of i if and only if i is in the ancestor set of j |
| `Allot.FringeIsRange` | ts_bart/src/allot.rs:46-54 | the fringe set of i is exactly the octet range of i |
| `Allot.Overlaps` | ts_bart/src/allot.rs:17-38 | the intersection with the descendant set is non-empty if and only if some stored prefix lies inside the range |
| `Array256.OpenSlot` | ts_array256/src/lib.rs:126-144 | inserting at the rank changes the map at one key and moves no other value |
| `Array256.CloseSlot` | ts_array256/src/lib.rs:147-163 | removing at the rank takes one key from the map and moves no other value |
| `Array256.StructuralEqualityIsMapEquality` | ts_array256/src/lib.rs:20-24 | equal fields if and only if equal maps |
| `Array256.EntriesFollowStorage` | ts_array256/src/lib.rs:189-194 | storage is the values in ascending key order |
| `Array256.EntriesSplit` | ts_array256/src/lib.rs:198-208 | iterating after a key is the rest of the whole iteration |
| `Array256.RankIsCardinality` | ts_array256/src/lib.rs:183-185 | the rank counts the members up to the key |
| `Array256.Array256.Get` | ts_array256/src/lib.rs:99-108 | the map's value, or none exactly where the map has none |
| `Array256.Array256.Len` | ts_array256/src/lib.rs:91-96 | the number of keys of the map |
| `Array256.Array256.Insert` | ts_array256/src/lib.rs:126-144 | the map updated at the key, and the previous occupant returned |
| `Array256.Array256.Remove` | ts_array256/src/lib.rs:147-163 | the map without the key, and the previous occupant returned |
| `Array256.Array256.Clear` | ts_array256/src/lib.rs:166-169 | the empty map |
| `Array256.Array256.IterFrom` | ts_array256/src/lib.rs:198-208 | the entries from a key on, ascending |
| `Nets.KeyOfNetOf` | ts_bart/src/iptrie/util.rs:23-63 | a stored position, written out as a prefix and taken apart again, is the same position |
| `Nets.NetOfKeyOf` | ts_bart/src/iptrie/util.rs:75-82 | the trie forgets exactly the host bits of a prefix |
| `Nets.ContainsIsCovers` | ts_bart/src/iptrie/lookup/mod.rs:75-82 | bitwise containment of an address is the covering relation of the trie |
| `Nets.LeafTestIsCovers` | ts_bart/src/iptrie/lookup/mod.rs:171-191 | the length and address tests on a leaf amount to the leaf covering the query |
| `TrieInsert.InsertKeepsShape` | ts_bart/src/iptrie/insert.rs:17-109 | insertion keeps the trie well formed: leaves and fringes only where they belong, no node that compression would remove |
| `TrieInsert.FindAfterInsert` | ts_bart/src/iptrie/insert.rs:17-109 | after an insertion every prefix is found with its map value, through the push-down of leaves and fringes |
| `TrieRemove.RemoveInnerOk` | ts_bart/src/iptrie/remove.rs:25-93 | the removal walk keeps shape and routes at every level, with what it hands to compression |
| `TrieRemove.RemoveIsMapRemoval` | ts_bart/src/iptrie/remove.rs:8-23 | removal with path compression is removal from the map, returns the old value, and keeps the trie well formed |
| `TrieRemove.Canonical` | ts_bart/src/iptrie/remove.rs:101-202 | two well-formed tries with the same routes are equal, so compression is complete |
| `TrieModify.ModifyIsMapEdit` | ts_bart/src/iptrie/modify.rs:39-197 | one walk that inserts, removes or edits in place is the same edit of the map, and keeps the trie well formed |
| `TrieModify.RemoveUndoesInsert` | ts_bart/src/iptrie/remove.rs:8-23 | inserting a new prefix and removing it gives back the very same trie |
| `TrieModify.InsertsCommute` | ts_bart/src/iptrie/insert.rs:9-15 | insertions of different prefixes commute as tries |
| `TrieMatches.MatchesAre` | ts_bart/src/iptrie/lookup/iter.rs:43-66 | the match list holds exactly the stored prefixes that contain the query |
| `TrieMatches.MatchesSorted` | ts_bart/src/iptrie/lookup/mod.rs:89-105 | it is strictly descending in length, so each appears once |
| `TrieLookup.LookupAddressAll` | ts_bart/src/iptrie/lookup/mod.rs:106-135 | the stack walk yields that list's values, longest prefix first |
| `TrieLookup.FirstIsLongest` | ts_bart/src/iptrie/lookup/mod.rs:52-87 | the head of the list is the longest match, and the list is empty exactly when nothing matches |
| `TrieLookup.LookupAddress` | ts_bart/src/iptrie/lookup/mod.rs:52-87 | the value of the longest stored prefix that contains the address, or none exactly when none does |
| `TrieLookup.Contains` | ts_bart/src/iptrie/mod.rs:45-68 | true exactly when some stored prefix contains the address |
| `TrieLookup.NodeIter` | ts_bart/src/node/stride_ops/prefix.rs:184-213 | the per-node iterator yields the matching prefixes from the deepest up |
| `TrieNet.LpmAnswerIs` | ts_bart/src/iptrie/lookup/mod.rs:138-225 | the answer is the first match with its exact host-bit behaviour |
| `TrieNet.LookupPrefixLpm` | ts_bart/src/iptrie/lookup/mod.rs:138-225 | the loop with its stack computes that answer |
| `TrieNet.LeafIsAlone` | ts_bart/src/iptrie/insert.rs:31-109 | a stored route is held as a leaf if and only if it has octets before its last stride and no other stored route starts with them, whatever the history |
| `TrieNet.LpmIsLongest` | ts_bart/src/table/mod.rs:150-168 | longest stored prefix containing the query, none exactly when none does; the returned prefix is the stored one exactly when that route is alone or the query has no bit past its length |
| `TrieNet.AnswerKeepsHostBits` | ts_bart/src/iptrie/lookup/mod.rs:205-225 | with only the default route stored, every query is answered with its own address and length 0 |
| `TrieNet.LpmNeedsZeros` | ts_bart/src/iptrie/lookup/mod.rs:205-225 | the returned prefix is right on every trie if and only if the truncated query address is all zeros |
| `TrieNet.FindNetIs` | ts_bart/src/iptrie/lookup/mod.rs:14-49 | an exact lookup finds the truncated prefix's route unless the query has host bits and the route is a leaf |
| `TrieNet.ExactNeedsTruncation` | ts_bart/src/iptrie/lookup/mod.rs:14-49 | it is right on every trie if and only if the prefix is truncated or at most eight bits long |
| `TrieNet.LookupPrefixExact` | ts_bart/src/iptrie/lookup/mod.rs:14-49 | the loop computes what `FindNetIs` describes |
| `Table.InsertRepresents` | ts_bart/src/table/simple.rs:48-56 | the root stands for the updated map and the replaced value is returned |
| `Table.RemoveRepresents` | ts_bart/src/table/simple.rs:59-63 | the root stands for the map without the prefix and the removed value is returned |
| `Table.ModifyRepresents` | ts_bart/src/table/simple.rs:66-101 | the root stands for the edited map |
| `Table.SameRoutesSameTrie` | ts_bart/src/table/simple.rs:12-15 | two histories with the same outcome build the same table |
| `Table.SimpleTable.Insert` | ts_bart/src/table/simple.rs:48-56 | map update, previous value returned, size kept equal to the number of routes |
| `Table.SimpleTable.Remove` | ts_bart/src/table/simple.rs:59-63 | map removal, removed value returned, size kept |
| `Table.SimpleTable.Modify` | ts_bart/src/table/simple.rs:66-101 | map edit, the touched old value returned unless the edit is a no-op, size kept whichever way the edit went |
| `Table.SimpleTable.Clear` | ts_bart/src/table/simple.rs:104-107 | the empty map |
| `Table.SimpleTable.Lookup` | ts_bart/src/table/simple.rs:110-112 | longest match over the map |
| `CapLookup.RunRefinesMap` | ts_bart_packetfilter/src/cap_lookup.rs:32-100 | after any sequence of operations the table stands for what they do to a plain map from name to non-empty rule set, ids are injective and name live slots, the free list is the set of empty slots, and the table ends in a live slot |
| `CapLookup.RunStaysShort` | ts_bart_packetfilter/src/cap_lookup.rs:94-100 | in every run the table is no longer than the largest number of names live at one time since the last clear |
| `CapLookup.InsertedGrows` | ts_bart_packetfilter/src/cap_lookup.rs:32-50 | an insertion moves no live id, and lengthens the table only when every slot is live |
| `CapLookup.RemovedIs` | ts_bart_packetfilter/src/cap_lookup.rs:53-75 | a removal takes the rule, and the name with its last rule, moves no live id and leaves a compact table |
| `CapLookup.UnionIs` | ts_bart_packetfilter/src/cap_lookup.rs:85-92 | a lookup is exactly the union over the queried names |
| `CapLookup.CapLookup.Insert` | ts_bart_packetfilter/src/cap_lookup.rs:32-50 | the fields take the specified next state and the name's id is returned |
| `CapLookup.CapLookup.Remove` | ts_bart_packetfilter/src/cap_lookup.rs:53-75 | the fields take the specified next state |
| `CapLookup.CapLookup.Compact` | ts_bart_packetfilter/src/cap_lookup.rs:94-100 | empty slots go from the end with their free ids, and nothing else changes |
| `CapLookup.CapLookup.Clear` | ts_bart_packetfilter/src/cap_lookup.rs:78-82 | the empty table |
| `CapLookup.CapLookup.Lookup` | ts_bart_packetfilter/src/cap_lookup.rs:85-92 | the fold computes the union over the map |
| `Slots.FillIs` | ts_bart_packetfilter/src/lib.rs:56-66 | the id taken is free and the lowest, and the free list stays the set of empty slots |
| `Slots.PopFree` | ts_bart_packetfilter/src/lib.rs:56-66 | the lowest free id leaves the list, or none exactly when the list is empty |
| `Slots.TrimmedFree` | ts_bart_packetfilter/src/lib.rs:235-243 | dropping empty slots at the end keeps every slot's contents and the free list exact |
| `IdIndex.Added` | ts_bart_packetfilter/src/lib.rs:115-132 | setting a bit under each key of an item keeps the index exact, with no empty entries |
| `IdIndex.Taken` | ts_bart_packetfilter/src/lib.rs:155-188 | clearing the bits and dropping emptied entries keeps the index exact |
| `IdIndex.MarkEach` | ts_bart_packetfilter/src/lib.rs:122-131 | the loop sets the bit under every listed key and nowhere else |
| `IdIndex.UnmarkEach` | ts_bart_packetfilter/src/lib.rs:177-188 | the loop clears the bit under every listed key and drops emptied keys |
| `PortPrefix.FormOf` | ts_bart_packetfilter/src/port_trie/port_prefix.rs:28-58 | a port prefix reads back as the port with its host bits cleared, and its length |
| `PortPrefix.PrefixOfIs` | ts_bart_packetfilter/src/port_trie/port_prefix.rs:61-75 | `start` and `end` are the ends of an aligned power-of-two block; `end` never saturates |
| `PortPrefix.NeverStopsShort` | ts_bart_packetfilter/src/port_trie/port_prefix.rs:127-131 | no block ends at 65534, so the check for a saturated step is never met by accident |
| `PortPrefix.BlocksTile` | ts_bart_packetfilter/src/port_trie/port_prefix.rs:105-150 | the greedy blocks cover a range end to end in order |
| `PortPrefix.TilesOnce` | ts_bart_packetfilter/src/port_trie/port_prefix.rs:105-150 | no port lies in two blocks |
| `PortPrefix.StepIs` | ts_bart_packetfilter/src/port_trie/port_prefix.rs:105-150 | each call yields the next block and leaves the rest, until none is left, saturating step included |
| `PortPrefix.IterPrefixes` | ts_bart_packetfilter/src/port_trie/port_prefix.rs:90-95 | collecting the iterator gives the decomposition |
| `PortPrefix.PortPrefixIter.Next` | ts_bart_packetfilter/src/port_trie/port_prefix.rs:105-150 | the fields and the result are those of one specified step |
| `PortPrefix.DecomposeCovers` | ts_bart_packetfilter/src/port_trie/port_prefix.rs:105-150 | the ports covered: the range, or all ports when the range has 65535 |
| `PortPrefix.TilesExactly` | ts_bart_packetfilter/src/port_trie/port_prefix.rs:112-118 | the decomposition tiles its range if and only if the range is not `0..=65534` or `1..=65535` |
| `PortPrefix.PortZeroSlipsIn` | ts_bart_packetfilter/src/port_trie/port_prefix.rs:112-118 | `1..=65535` takes in port 0 |
| `PortTrie.ModifiedIs` | ts_bart_packetfilter/src/port_trie/mod.rs:65-123 | an idempotent edit over any list of blocks changes exactly the listed entries, children made on demand |
| `PortTrie.VisitsIsHolds` | ts_bart_packetfilter/src/port_trie/mod.rs:127-214 | the entries a lookup visits are exactly the blocks that hold the port |
| `PortTrie.MarkRepresents` | ts_bart_packetfilter/src/dst_port.rs:79-86 | entering an id keeps every id under exactly the blocks of its range |
| `PortTrie.UnmarkRepresents` | ts_bart_packetfilter/src/dst_port.rs:110-121 | taking an id out keeps every other id, and no empty entry stays |
| `PortTrie.FoundIs` | ts_bart_packetfilter/src/dst_port.rs:193-200 | a lookup finds exactly the ids whose range holds the port or has 65535 ports |
| `PortTrie.AllPortsIds` | ts_bart_packetfilter/src/dst_port.rs:180-190 | the ids found at both ends of the port space are those of the full range and of the two ranges one port short of it |
| `PortTrie.Ports.Modify` | ts_bart_packetfilter/src/port_trie/mod.rs:65-123 | the loop over the iterator edits the entries of the decomposition |
| `PortTrie.Ports.Insert` | ts_bart_packetfilter/src/dst_port.rs:79-86 | the stored ranges gain the id |
| `PortTrie.Ports.Remove` | ts_bart_packetfilter/src/dst_port.rs:110-121 | the stored ranges lose the id |
| `PortTrie.Ports.Lookup` | ts_bart_packetfilter/src/dst_port.rs:193-200 | the union over the visited entries is the set of ids that answer to the port |
| `DstLookup.NewIsEntered` | ts_bart_packetfilter/src/dst_port.rs:45-89 | a new pair takes a free id and all five tables agree on it |
| `DstLookup.KnownIsKept` | ts_bart_packetfilter/src/dst_port.rs:46-51 | inserting a known pair leaves all five tables as they were |
| `DstLookup.KnownIsLeft` | ts_bart_packetfilter/src/dst_port.rs:91-136 | removing a pair clears its id everywhere, and the tables agree after compaction |
| `DstLookup.DstMatchLookup.FindId` | ts_bart_packetfilter/src/dst_port.rs:156-161 | the id of the pair, or none exactly when the pair is not stored |
| `DstLookup.DstMatchLookup.Insert` | ts_bart_packetfilter/src/dst_port.rs:45-89 | the set of pairs gains the pair |
| `DstLookup.DstMatchLookup.Remove` | ts_bart_packetfilter/src/dst_port.rs:91-136 | the set of pairs loses the pair |
| `DstLookup.DstMatchLookup.Lookup` | ts_bart_packetfilter/src/dst_port.rs:163-218 | the rules with a stored destination that contains the address and answers to the port, in each of the three port modes |
| `Rules.AnyContainsIsRoute` | ts_packetfilter/src/rule.rs:91-129 | a list of prefixes contains an address exactly when one of their table keys covers it, families apart |
| `Rules.DstMatchesIs` | ts_packetfilter/src/rule.rs:59-67 | by protocol number: 6, 17 and 132 need the port in the range, 1 and 58 the address only, all others a destination open on ports 0 to 65535 |
| `FilterTables.AddRuleHolds` | ts_bart_packetfilter/src/lib.rs:103-136 | a rule taken apart under a fresh id leaves tables that hold exactly the live rules |
| `FilterTables.RemoveRuleHolds` | ts_bart_packetfilter/src/lib.rs:154-189 | undoing it leaves exactly the others, so no emptied prefix goes on hiding shorter ones |
| `FilterTables.SourceTableIs` | ts_bart_packetfilter/src/lib.rs:195-200 | the source table finds exactly the rules that own the longest stored prefix containing the source |
| `FilterTables.LongestLen` | ts_bart_packetfilter/src/lib.rs:198-200 | the scan from the full length down stops at the longest stored prefix of the address; `FilterTrie` ties it to the trie |
| `FilterTables.Lookup` | ts_bart_packetfilter/src/lib.rs:194-233 | with its early exits and its choice of a destination lookup by protocol, the intersection of the three components |
| `FilterTables.LookupFinds` | ts_bart_packetfilter/src/lib.rs:194-233 | which live rules a lookup finds, rule by rule |
| `FilterTables.DispatchAgrees` | ts_bart_packetfilter/src/lib.rs:218-229 | the filter's own choice among its three destination lookups is the reference's port mode, for every protocol |
| `FilterTables.ShadowedIs` | ts_bart_packetfilter/src/lib.rs:197-200 | a rule owns the longest stored match if and only if one of its prefixes contains the source and no live rule has a containing prefix longer than all of those |
| `FilterTables.FoundExactly` | ts_bart_packetfilter/src/lib.rs:194-233 | the rules found, from rules, packet and protocol numbers alone: protocol listed, capability offered or unoutranked prefix, and a destination whose ports admit the packet, up to the ranges one port short |
| `FilterTables.SourceAgrees` | ts_packetfilter/src/rule.rs:91-100 | the source side finds a rule if and only if the reference does and the rule has an offered capability or is not outranked by a longer prefix |
| `FilterTables.PortsAgree` | ts_packetfilter/src/rule.rs:120-129 | the port side answers if and only if the reference does or, apart from that, the range is one port short and the packet past it or without ports |
| `FilterTables.DestinationAgrees` | ts_packetfilter/src/rule.rs:120-129 | the destination side finds a rule if and only if the reference does or a destination that contains the address has such a range |
| `FilterTables.DifferExactly` | ts_bart_packetfilter/src/lib.rs:194-233 | for every rule and packet, filter and reference agree if and only if neither of these two conditions on rules and packet holds |
| `FilterTables.FilterAgrees` | ts_packetfilter/src/rule.rs:29-43 | the corollary for rules that are not outranked and have no range one port short: exactly the matching rules are found |
| `FilterTables.NarrowHidesWide` | ts_bart_packetfilter/src/lib.rs:197-200 | rules for 10.0.0.0/8 and 10.1.0.0/16 and a packet from 10.1.2.3: the first matches and is not found |
| `FilterTables.PortZeroIsLetIn` | ts_bart_packetfilter/src/dst_port.rs:163-170 | a rule for ports 1 to 65535 and a packet to port 0: it does not match and is found |
| `FilterTables.UdpPortIsChecked` | ts_bart_packetfilter/src/lib.rs:223-229 | a rule for UDP port 80 finds a packet if and only if it goes to port 80 |
| `FilterTrie.LookupIsLongestIds` | ts_bart_packetfilter/src/lib.rs:198-200 | on a trie that stands for the table, the first match is what the source lookup takes |
| `FilterTrie.LookupAllIsCovering` | ts_bart_packetfilter/src/dst_port.rs:203-210 | on such a trie, the union over all matches is what the destination lookup takes |
| `FilterTables.LongerPrefixHides` | ts_bart_packetfilter/src/lib.rs:197-200 | for every rule, packet and capability list: the rule matches and is not found if and only if its protocol and destination match, no capability does, and a longer stored prefix outranks all its own |
| `FilterTables.ShortRangeLetsIn` | ts_bart_packetfilter/src/dst_port.rs:163-190 | a rule is found and does not match if and only if its source is found, no destination matches and a range one port short lets the packet in |
| `BartFilter.RemovedIsValid` | ts_bart_packetfilter/src/lib.rs:143-192 | pairing a ruleset's ids in ascending order with its rules in turn removes exactly what its insertion stored |
| `BartFilter.InsertedIsValid` | ts_bart_packetfilter/src/lib.rs:95-141 | ids handed out lowest first are ascending over the ruleset, which is what that pairing relies on |
| `BartFilter.BartFilter.Insert` | ts_bart_packetfilter/src/lib.rs:95-141 | the ruleset is replaced, the others are as they were, and tables, names, free list and entries agree |
| `BartFilter.BartFilter.Remove` | ts_bart_packetfilter/src/lib.rs:143-192 | the ruleset is gone, the others are as they were, and everything agrees |
| `BartFilter.BartFilter.Clear` | ts_bart_packetfilter/src/lib.rs:255-263 | no rulesets |
| `BartFilter.BartFilter.MatchFor` | ts_bart_packetfilter/src/lib.rs:267-274 | the name of the ruleset that owns the lowest found rule, or none exactly when no rule is found |
| `BartFilter.FilterDecides` | ts_packetfilter/src/rule.rs:29-43 | in every reachable state and for every packet: one that some rule matches is refused if and only if all matching rules are hidden and none is let in, and one that no rule matches is accepted if and only if some rule is let in |
| `BartFilter.FilterDecidesWhen` | ts_packetfilter/src/rule.rs:29-43 | the corollary for states without outranked rules and ranges one port short: exactly the packets some rule of some ruleset matches |
| `Calendar.CivilIsInverse` | src/ssh/mod.rs:129-141 | for every integer day the result is a valid Gregorian date whose independent day count is that day |
| `Calendar.CivilOfCount` | src/ssh/mod.rs:129-141 | and every valid date comes back from its day count |
| `Calendar.CivilSucceeds` | src/ssh/mod.rs:129-141 | the next day's date is the calendar successor |
| `Calendar.CivilEpoch` | src/ssh/mod.rs:129-141 | day 0 is 1 January 1970 |
| `Calendar.CivilIsMonotone` | src/ssh/mod.rs:129-141 | later days have later dates |
| `Timestamp.NothingOverflows` | src/ssh/mod.rs:116-141 | no intermediate value leaves i64 for any i64 number of seconds |
| `Timestamp.FifteenCharacters` | src/ssh/mod.rs:116-126 | the string has fifteen characters if and only if the year is from -999 to 9999 |
| `Timestamp.TimestampRoundTrip` | src/ssh/mod.rs:116-126 | for every number of seconds, the string read field by field and counted with the day-by-day calendar gives that number back |
| `Decimal.PaddedReads` | src/ssh/mod.rs:116-126 | a zero-padded signed numeral of any width reads back as its number |
| `Timestamp.StringsFollowTime` | src/ssh/mod.rs:116-126 | for years in one of the sorting ranges, earlier times give lexicographically smaller, so different, strings |
| `Timestamp.SortsExactly` | src/ssh/mod.rs:116-126 | all times of the years a to b sort as strings if and only if a and b are in one of the four sorting ranges |
| `Timestamp.NegativeYearsDoNotSort` | src/ssh/mod.rs:116-126 | two numbers of seconds, one in year -2 and a later one in year -1, whose strings are in the wrong order |
| `DepGraph.ShortestChain` | checks/src/no_std_honest.rs:71-131 | for every finite graph the search ends, reports a chain exactly when a wanted package is reachable, and the chain is the names of a path from the root with none shorter |
| `DepGraph.Chain` | checks/src/no_std_honest.rs:115-121 | the parent walk reaches the root and gives a path as long as the distance |
| `DepGraph.Report` | checks/src/no_std_honest.rs:111-122 | a wanted package at the head of the queue: the names of a shortest violating path are reported |
| `DepGraph.NoShorter` | checks/src/no_std_honest.rs:109-131 | when the first wanted package is met, no path to any wanted one is shorter |
| `DepGraph.NothingLeft` | checks/src/no_std_honest.rs:109-131 | when the queue runs dry nothing wanted is reachable |
| `Closure.Closure` | checks/src/portmapper_lan_only.rs:208-219 | exactly the nodes at the end of a non-empty walk over edges one of whose listed kinds is wanted, the start included when it lies on a cycle |
| `Closure.ReachesIsLeads` | checks/src/portmapper_lan_only.rs:213 | the paths of the restricted graph are the walks over edges with a wanted kind |
| `Closure.ControlReaches` | checks/src/portmapper_lan_only.rs:238-249 | control is reported exactly when some first edge of any kind followed by normal or build edges reaches the port mapper |
| `StateFile.Machine.CreateTemp` | src/state_file.rs:377-412 | a new owner-only file under a name that was free next to the target, or nothing at all, and why |
| `StateFile.FollowIsLinks` | src/state_file.rs:340-347 | a path stands for where its chain of links leads, if that is something other than a link within the bound |
| `StateFile.Machine.WriteAll` | src/state_file.rs:368-368 | any split of the write and any failure leaves the other files alone and the temporary owner-only |
| `StateFile.Machine.FillAndRename` | src/state_file.rs:357-372 | in every state passed through the target is old or wholly new; success exactly when no call failed |
| `StateFile.Machine.SyncAndRename` | src/state_file.rs:369-371 | from a full temporary: the target is replaced exactly when no call failed, and is old or wholly new in every state |
| `StateFile.Machine.FillOrRemove` | src/state_file.rs:349-354 | after a failure the temporary is gone, unless the removing call failed as well |
| `StateFile.Machine.WriteAtomic` | src/state_file.rs:339-355 | every state passed through is the old disk, the old disk with one owner-only temporary, or the disk with the target replaced, mode 0600; an error leaves the disk as it was unless the removal of the temporary failed too; success exactly when what the path stands for is a file or nothing, it has a name, a name was free within 10000 tries and no call failed |
| `StateFile.CrashIsSafe` | src/state_file.rs:332-338 | power loss in any of those states, with unsynced data turned to anything, leaves the target old or new and whole, every other synced file untouched, and only owner-only files added |
| `KeyFile.OldOrNewBytes` | src/config.rs:1190-1211 | at every moment of a write over a readable file, through links too, a reader sees the old bytes or the new ones |
| `KeyFile.MissingIsLinks` | src/config.rs:1178 | reading reports nothing there exactly when the chain of links leads to no entry |
| `KeyFile.OldFormatKeepsKeys` | ts_keys/src/keystate.rs:75-88 | converting between the two formats loses nothing but the disco key, both ways |
| `KeyFile.Restrict` | src/config.rs:1102-1119 | the exact new disk: whatever is at the path, a directory included, becomes owner-only if it was not and no call failed, and nothing else changes |
| `KeyFile.Migrate` | src/config.rs:1150-1163 | whether or not the rewrite works, the keys on the disk stay the same at every moment; it works exactly with a name, a free temporary name and no failed call |
| `KeyFile.Load` | src/config.rs:1124-1188 | what is returned is what the disk then holds; stored keys are returned exactly when directory and read calls work, whatever becomes of the mode change and the migration; with no failed call the file is then owner-only and an old-format file rewritten in the new one; a new-format file is not touched; stored keys are never changed; keys are minted only for a missing file or an unparsable one under Overwrite, for a missing one exactly when every call works and a temporary name is free; under Error an unparsable file is not touched |
| `KeyFile.ReadOrMint` | src/config.rs:1147-1187 | the same from the read call on |
| `KeyFile.Mint` | src/config.rs:1185-1188 | minted keys are returned only when they are on the disk, and refused only for a failed call, a nameless path or no free temporary name |
| `KeyFile.Run` | src/config.rs:611-633 | over any run of loads, each failing or killed at any moment, all that return keys return the same keys, and those first stored if any were |
| `Chunked.RoundTrip` | src/ssh/recording.rs:876-907 | what is sent for any chunks, empty ones included, decodes to their concatenation with nothing left over, whatever follows |
| `Chunked.PrefixIsIncomplete` | src/ssh/recording.rs:876-907 | no proper prefix of it decodes as a complete body |
| `Chunked.DecodeExtends` | src/ssh/recording.rs:1288-1308 | more input never changes what a decoder has decoded |
| `Chunked.Pump` | src/ssh/recording.rs:867-907 | everything is sent, or the body is cut exactly where the connection broke |
| `Chunked.RecorderSeesWholeOrNothing` | src/ssh/recording.rs:867-907 | the recorder decodes a body exactly when everything was sent, and then it is the recording |
| `OutputPump.RunIsLawful` | src/ssh/shell.rs:530-570 | at every moment of every run, recorded output is a prefix of terminal output, and under fail-closed (or before a failure) delivered output is a prefix of recorded output |
| `OutputPump.NeverResumes` | src/ssh/recording.rs:529-545 | in every run nothing is recorded after a failed send |
| `OutputPump.FailureEndsSession` | src/ssh/shell.rs:551-560 | under fail-closed a failed send is followed by the end of the session with the policy's message, and by nothing else |
| `OutputPump.VerdictEnds` | src/ssh/shell.rs:531-543 | the upload's first verdict with a message ends the run at once with that message, whatever comes later |
| `OutputPump.OtherVerdictsAreSilent` | src/ssh/shell.rs:531-546 | a verdict without a message, a second one, and any without a recording leave trace and run as they were |
| `OutputPump.RunEndsExactly` | src/ssh/shell.rs:530-570 | a running pump stops if and only if the read failed or was empty, the delivery was refused, the first verdict has a message, or a send failed under fail-closed |
| `OutputPump.LastEventTraces` | src/ssh/shell.rs:549-568 | a read error and the end of output do nothing more, and a refused delivery delivers nothing |
| `OutputPump.EndedIsLast` | src/ssh/shell.rs:537-560 | nothing follows the end of a session, and the run is over |
| `OutputPump.EndedBecause` | src/ssh/shell.rs:537-560 | a session is ended only with the policy's message after a failed send, or with a verdict's |
| `OutputPump.RunReads` | src/ssh/shell.rs:530-570 | the pump reads the terminal's output from its start, in order |
| `OutputPump.SmoothIsComplete` | src/ssh/shell.rs:530-570 | when nothing fails everything is recorded and delivered |
| `OutputPump.Recording.RecordOutput` | src/ssh/recording.rs:529-545 | sent, ignored once stopped, or failed as the policy says |
| `OutputPump.Forward` | src/ssh/shell.rs:548-564 | the loop body for one read is the specified step |
| `OutputPump.Pump` | src/ssh/shell.rs:524-571 | the loop computes the specified run |
| `Socks.BufferIsExact` | src/loopback.rs:398-430 | the buffer handed to the parser has the length its address type demands, so parsing fails exactly on version, command or a name that is not UTF-8 |
| `Socks.ParseConnect` | src/loopback.rs:90-129 | an encoded target parses to itself |
| `Socks.WellFormedIsDialed` | src/loopback.rs:356-455 | a well-formed greeting, login and request are answered 05 02, 01 00 and, by whether the encoded target can be dialled, code 0 or 5, and leave exactly the suffix unread |
| `Socks.NoMethodIsRefused` | src/loopback.rs:367-374 | a greeting without method 2 is answered 05 FF and nothing more is read |
| `Socks.WrongLoginIsRefused` | src/loopback.rs:391-396 | any user name but `tsnet` or another password is answered 01 01 and the request is not read |
| `Socks.WrongVersionIsDropped` | src/loopback.rs:362-366 | another protocol version gets no answer |
| `Socks.WrongLoginVersionIsDropped` | src/loopback.rs:378-382 | another login version gets no answer after the method |
| `Socks.RequestReplies` | src/loopback.rs:399-461 | every whole request gets one reply of ten bytes: code 8 exactly for an address type other than 1 and 3, 7 exactly for a wrong version, command or name, 5 exactly for a failed dial, 0 exactly for a dialled target; the exact rest; a stream that ends early gets none |
| `Socks.UnreachableIsRefused` | src/loopback.rs:442-447 | 100.64.0.5:8080, unreachable, is answered with code 5 |
| `Socks.DialedIsWellFormed` | src/loopback.rs:356-455 | and nothing is dialled for any other input |
| `Socks.RepliesAre` | src/loopback.rs:356-461 | in bytes: the success reply comes once, last, and only after method selection and an accepted login; all other reply sequences are listed |
| `Socks.MoreInputGoesOn` | src/loopback.rs:356-455 | what has been replied never depends on what the client sends later, nor does the end of a negotiation that did not break off |
| `Socks.Sock.ReadExact` | src/loopback.rs:362-363 | so many bytes, or failure with the stream drained |
| `Socks.Sock.Phase1` | src/loopback.rs:361-375 | the greeting phase |
| `Socks.Sock.Phase2` | src/loopback.rs:377-397 | the login phase |
| `Socks.Sock.Phase3` | src/loopback.rs:399-430 | the request phase, with the IPv6 drain |
| `Socks.Sock.Negotiate` | src/loopback.rs:356-455 | replies, result and unread bytes are those of the specification |
| `Search.FindIsFirst` | src/tsnet.rs:1392-1397 | the first occurrence, or none exactly when there is none |
| `Search.FindInPrefix` | src/tsnet.rs:1392-1397 | in a prefix the first occurrence is the same one, or not there yet |
| `HttpHead.ReadHead` | src/tsnet.rs:1502-1526 | the loop's outcome, with the buffer at most MAX_HEAD + 1024 bytes and a prefix of the stream |
| `HttpHead.FramedAtFirst` | src/tsnet.rs:1506-1526 | for every segmentation a framed head ends at the stream's first blank line |
| `HttpHead.ShortHeadIsFramed` | src/tsnet.rs:1506-1526 | for every segmentation a head whose terminator ends within MAX_HEAD + 1 bytes is framed, never refused |
| `HttpHead.LongHeadIsRefused` | src/tsnet.rs:1506-1526 | for every segmentation a head not ended within MAX_HEAD + 1024 bytes is refused |
| `HttpHead.CanBeRefused` | src/tsnet.rs:1506-1526 | in between, some segmentation is refused |
| `HttpHead.CanBeFramed` | src/tsnet.rs:1506-1526 | and some segmentation is framed |
| `HttpHead.HeadLimits` | src/tsnet.rs:1506-1526 | a head is framed for every segmentation if and only if it ends within 8193 bytes, and refused for every one if and only if it does not within 9216 |
| `HttpHead.ClosedExactly` | src/tsnet.rs:1521-1524 | the connection is dropped without an answer if and only if the peer closes with no blank line and at most 8192 bytes sent |
| `HttpResponse.ParsedIs` | src/tsnet.rs:1400-1407 | the code of a printed response always comes back, and the body if and only if the head's first blank line is its last |
| `HttpResponse.BlankReasonLosesBody` | src/tsnet.rs:1400-1407 | a response printed with a blank line for its reason: the body read back is never the one printed |
| `HttpResponse.HeadEnds` | src/tsnet.rs:1657-1678 | with no carriage return inside a line, the first blank line is the one that ends the head, whatever the body holds |
| `HttpResponse.RoundTrip` | src/tsnet.rs:1400-1407 | fields free of carriage returns: exactly the code and the body come back, bodies with blank lines included |
| `HttpResponse.PrintResponse` | src/tsnet.rs:1657-1678 | the appending loop prints the specified bytes |
| `HttpMessage.MessageIs` | src/tsnet.rs:1657-1678 | an independent reader finds in a printed response its version, code, reason, content type, the length of its body, `Connection: close`, every extra field in order, and the body |
| `HttpParse.ParsedExactly` | src/tsnet.rs:1400-1407 | any bytes are parsed if and only if they have a blank line, the head before the first is text and the second word of its first line is a 16-bit number |
| `HttpParse.ParsedParts` | src/tsnet.rs:1400-1407 | the code is that number and the body is what follows that blank line |
| `HttpParse.SecondWordIs` | src/tsnet.rs:1405 | whatever the white space around them, the second of two words is taken |
| `HttpParse.SpaceIsWhite` | src/tsnet.rs:1405 | words are split at exactly the characters Unicode calls white space, in UTF-8 |
| `HttpParse.NumberParses` | src/tsnet.rs:1405 | a numeral is taken if and only if it is below 65536, with or without a plus sign |
| `HttpParse.OnlyNumbersParse` | src/tsnet.rs:1405 | and nothing but digits after an optional plus sign is |

## Left out

- Trie nodes are values, and `Array256` inside them is the map it is proved to refine; update in place and the unique ownership of Rust boxes are not modelled.
- `Bitset256` and `DynBitset` words: bit sets are sets of numbers; `heapless` and `smallvec` storage is not modelled.
- `SplitStackTable`, the iterators over a whole table, statistics and formatting: they would only add easy members.
- `BaseIndex::cmp_rank`, `parent` and `children` as functions of their own: the walks that use them are modelled.
- `Table` holds one address family; the filter's source and destination tables are keyed by family and prefix instead.
- The filter's tables in `FilterTables` and `BartFilter` are the maps and sets that `CapLookup`, `Table`, `PortTrie` and `DstLookup` are proved to stand for, not those objects themselves; `FilterTrie` shows that the trie's lookups give what the filter takes from the maps.
- FilterTables.FilterAgrees: a sufficient condition only; the exact one is `FilterTables.DifferExactly`.
- BartFilter.FilterDecidesWhen: a sufficient condition only; the exact one is `BartFilter.FilterDecides`.
- `PortTrie.ModifiedIs`: the edit is a function of the entry; an `FnMut` that keeps state between calls is not modelled, and the filter passes none.
- `StateFile` is the Unix side; Windows access control lists, creation of the state directory beyond its success or failure, and durability of the rename itself are left out. The inspection of the target never fails except on a missing or unresolvable path.
- `KeyFile.Run`: loads are one after the other; two processes loading at once are not modelled. JSON is any printer and parser whose output parses back as the current format.
- The order of the answers a `Machine` gets is arbitrary but fixed in advance; other processes writing to the directory are not modelled.
- `connect_to_recorder`, the HTTP/2 recorder, cast headers and the timing part of cast lines: an output line stands for its bytes.
- `Chunked.Pump`: the recorder's final status is not read; the connection is a number of bytes it takes.
- `OutputPump`: the choice between a ready verdict and a ready read is any sequence of events; reporting the exit status is left out.
- `Socks.Sock.Negotiate`: replies are always delivered and the handshake deadline does not pass; UTF-8 validity and the dial are parameters.
- `HttpResponse`: text is bytes, and cutting valid text before a carriage return leaves valid text is a hypothesis, as it holds of UTF-8. Request parsing, authentication and routing of the LocalAPI are left out.
- HttpMessage.MessageIs: fields with a carriage return and extra field names with a colon are not covered; the printer does not reject them, and `HttpResponse.ParsedIs` says what they do to code and body.
- `DepGraph` and `Closure` start from the dependency graph; reading it from cargo metadata is left out.
- Time zones and leap seconds: `Timestamp` is the UTC arithmetic the code does.
- `Device`, `Server`, the tunnel, DERP, magicsock, tailnet lock and the SSH policy: forwarding, I/O or code outside the files modelled.
