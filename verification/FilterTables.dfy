/**
  The packet filter's tables (ts_bart_packetfilter/src/lib.rs): rules are taken apart and stored by component,
  and a packet is answered by intersecting what the components find. What that answers is compared here with
  `Rule::matches`, rule by rule.
 */
module FilterTables {
  import opened Wrappers
  import opened BaseIndex
  import opened Trie
  import opened TrieMatches
  import opened Nets
  import opened IdIndex
  import opened Rules
  import DL = DstLookup
  import CapLookup

  /** Each table by what it stands for: capabilities, source prefixes and protocols as indexes of rule ids,
      destinations as pairs of a rule id and a destination match. */
  datatype Tables = Tables(caps: map<string, set<nat>>, srcs: map<Route, set<nat>>, protos: map<int, set<nat>>,
                           dsts: set<DL.Pair>)

  const CAPS: Rule -> seq<string> := (r: Rule) => r.caps
  const SRCS: Rule -> seq<Route> := (r: Rule) => RoutesOf(r.pfxs)
  const PROTOS: Rule -> seq<int> := (r: Rule) => r.protos

  ghost predicate DstsAre(dsts: set<DL.Pair>, live: map<nat, Rule>) {
    forall id, d :: (id, d) in dsts <==> id in live && d in live[id].dsts
  }

  ghost predicate AllRules(live: map<nat, Rule>) { forall id :: id in live ==> IsRule(live[id]) }

  /** The tables hold the live rules and nothing else. */
  ghost predicate Holds(t: Tables, live: map<nat, Rule>) {
    && AllRules(live)
    && Indexes(t.caps, live, CAPS) && Indexes(t.srcs, live, SRCS) && Indexes(t.protos, live, PROTOS)
    && DstsAre(t.dsts, live)
  }

  function Pairs(id: nat, dsts: seq<Dst>): set<DL.Pair> { set d | d in dsts :: (id, d) }

  function AddRule(t: Tables, id: nat, rule: Rule): Tables {
    Tables(MarkAll(t.caps, rule.caps, id), MarkAll(t.srcs, RoutesOf(rule.pfxs), id),
           MarkAll(t.protos, rule.protos, id), t.dsts + Pairs(id, rule.dsts))
  }

  function RemoveRule(t: Tables, id: nat, rule: Rule): Tables {
    Tables(UnmarkAll(t.caps, rule.caps, id), UnmarkAll(t.srcs, RoutesOf(rule.pfxs), id),
           UnmarkAll(t.protos, rule.protos, id), t.dsts - Pairs(id, rule.dsts))
  }

  lemma AddRuleHolds(t: Tables, live: map<nat, Rule>, id: nat, rule: Rule)
    requires Holds(t, live) && id !in live && IsRule(rule)
    ensures Holds(AddRule(t, id, rule), live[id := rule])
  {
    Added(t.caps, live, CAPS, id, rule);
    Added(t.srcs, live, SRCS, id, rule);
    Added(t.protos, live, PROTOS, id, rule);
  }

  lemma RemoveRuleHolds(t: Tables, live: map<nat, Rule>, id: nat)
    requires Holds(t, live) && id in live
    ensures Holds(RemoveRule(t, id, live[id]), live - {id})
  {
    Taken(t.caps, live, CAPS, id);
    Taken(t.srcs, live, SRCS, id);
    Taken(t.protos, live, PROTOS, id);
  }

  // Longest match.

  /** Two prefixes of the same length that contain the same address are the same. */
  lemma CoveringIsUnique(k: Key, q: Key, a: seq<int>)
    requires k.idx >= 1 && q.idx >= 1 && Bits(k) == Bits(q) && Level(k.idx) <= 7 && Level(q.idx) <= 7
    requires CoversKey(k, Key(a, 1)) && CoversKey(q, Key(a, 1))
    ensures k == q
  {
    assert |k.path| == |q.path|;
    assert k.path == a[..|k.path|] == q.path;
    var i := if |k.path| < |a| then 256 + a[|k.path|] else 1;
    if k.idx <= q.idx { AncestorsAreAChain(k.idx, q.idx, i); } else { AncestorsAreAChain(q.idx, k.idx, i); }
  }

  /** A route that could be stored. */
  predicate IsRoute(r: Route) { r.1.idx >= 1 && Level(r.1.idx) <= 7 }

  /** Some live rule has the source prefix. */
  ghost predicate Stored(live: map<nat, Rule>, r: Route) { exists id :: id in live && r in SRCS(live[id]) }

  /** The longest source prefix of any live rule that contains the address. */
  ghost predicate IsLongest(live: map<nat, Rule>, a: seq<int>, r: Route) {
    && Stored(live, r) && RouteCovers(r, a) && r.1.idx >= 1
    && forall q :: Stored(live, q) && RouteCovers(q, a) ==> q.1.idx >= 1 && Bits(q.1) <= Bits(r.1)
  }

  /** The route of the first `len` bits of an address. */
  function RouteAt(a: seq<int>, len: nat): Route
    requires IsAddr(a) && len <= 8 * |a|
  {
    Rules.RouteOf(Net(a, len))
  }

  /** The length of the longest stored prefix of the address among those of at most `len` bits, or -1. */
  function LongestLen(srcs: map<Route, set<nat>>, a: seq<int>, len: nat): (l: int)
    requires IsAddr(a) && len <= 8 * |a|
    ensures -1 <= l <= len && (l >= 0 ==> RouteAt(a, l) in srcs)
    ensures forall j :: l < j <= len ==> RouteAt(a, j) !in srcs
  {
    if RouteAt(a, len) in srcs then len else if len == 0 then -1 else LongestLen(srcs, a, len - 1)
  }

  /** `lookup` on the source table. */
  function LongestIds(srcs: map<Route, set<nat>>, a: seq<int>): Option<set<nat>>
    requires IsAddr(a)
  {
    var l := LongestLen(srcs, a, 8 * |a|);
    if l >= 0 then Some(srcs[RouteAt(a, l)]) else None
  }

  lemma RouteAtCovers(a: seq<int>, len: nat)
    requires IsAddr(a) && len <= 8 * |a|
    ensures RouteCovers(RouteAt(a, len), a) && IsRoute(RouteAt(a, len)) && Bits(RouteAt(a, len).1) == len
  {
    ContainsIsRoute(Net(a, len), a);
    LevelIndex(RouteAt(a, len).1.idx);
  }

  lemma CoveringIsRouteAt(r: Route, a: seq<int>, len: nat)
    requires IsAddr(a) && len <= 8 * |a| && IsRoute(r) && RouteCovers(r, a) && Bits(r.1) == len
    ensures r == RouteAt(a, len)
  {
    RouteAtCovers(a, len);
    CoveringIsUnique(r.1, RouteAt(a, len).1, a);
  }

  lemma StoredIsKey(srcs: map<Route, set<nat>>, live: map<nat, Rule>, r: Route)
    requires Indexes(srcs, live, SRCS)
    ensures Stored(live, r) <==> r in srcs
  {
    if Stored(live, r) {
      var id :| id in live && r in SRCS(live[id]);
      assert In(srcs, r, id);
    }
    if r in srcs {
      assert srcs[r] != {};
      var id :| id in srcs[r];
      assert In(srcs, r, id);
    }
  }

  lemma StoredIsRoute(live: map<nat, Rule>, r: Route, a: seq<int>)
    requires AllRules(live) && Stored(live, r) && RouteCovers(r, a)
    ensures IsRoute(r) && Bits(r.1) <= 8 * |a|
  {
    var id :| id in live && r in SRCS(live[id]);
    var pfxs := live[id].pfxs;
    var i :| 0 <= i < |pfxs| && RoutesOf(pfxs)[i] == r;
    assert r == Rules.RouteOf(pfxs[i]);
    LevelIndex(r.1.idx);
  }

  lemma StoredIsNoLonger(srcs: map<Route, set<nat>>, live: map<nat, Rule>, a: seq<int>, q: Route)
    requires Indexes(srcs, live, SRCS) && AllRules(live) && IsAddr(a) && Stored(live, q) && RouteCovers(q, a)
    ensures q.1.idx >= 1 && Bits(q.1) <= LongestLen(srcs, a, 8 * |a|)
  {
    StoredIsRoute(live, q, a);
    StoredIsKey(srcs, live, q);
    CoveringIsRouteAt(q, a, Bits(q.1));
  }

  /** What is found is under the longest stored prefix that contains the address. */
  lemma LongestLenIs(srcs: map<Route, set<nat>>, live: map<nat, Rule>, a: seq<int>)
    requires Indexes(srcs, live, SRCS) && AllRules(live) && IsAddr(a)
    ensures var l := LongestLen(srcs, a, 8 * |a|);
            if l >= 0 then IsLongest(live, a, RouteAt(a, l)) else forall q :: Stored(live, q) ==> !RouteCovers(q, a)
  {
    var l := LongestLen(srcs, a, 8 * |a|);
    forall q | Stored(live, q) && RouteCovers(q, a) ensures q.1.idx >= 1 && Bits(q.1) <= l {
      StoredIsNoLonger(srcs, live, a, q);
    }
    if l >= 0 {
      RouteAtCovers(a, l);
      StoredIsKey(srcs, live, RouteAt(a, l));
    }
  }

  /** The longest stored source prefix that contains the address is one of the rule's. */
  ghost predicate OwnsLongest(live: map<nat, Rule>, id: nat, a: seq<int>) {
    id in live && exists r :: IsLongest(live, a, r) && r in SRCS(live[id])
  }

  lemma LongestIsUnique(live: map<nat, Rule>, a: seq<int>, r: Route, q: Route)
    requires AllRules(live) && IsLongest(live, a, r) && IsLongest(live, a, q)
    ensures r == q
  {
    StoredIsRoute(live, r, a);
    StoredIsRoute(live, q, a);
    CoveringIsUnique(r.1, q.1, a);
  }

  /** What the source table answers. */
  lemma SourceTableIs(t: Tables, live: map<nat, Rule>, a: seq<int>, id: nat)
    requires Holds(t, live) && IsAddr(a)
    ensures var found := LongestIds(t.srcs, a);
            found.Some? && id in found.value <==> OwnsLongest(live, id, a)
  {
    LongestLenIs(t.srcs, live, a);
    var l := LongestLen(t.srcs, a, 8 * |a|);
    if l >= 0 {
      var r := RouteAt(a, l);
      assert In(t.srcs, r, id) <==> id in live && r in SRCS(live[id]);
      forall q | IsLongest(live, a, q) ensures q == r { LongestIsUnique(live, a, q, r); }
    }
  }

  // What a lookup answers.

  /** The rules with a destination that admits the address, the port taking part as `mode` says. */
  function IdsBy(dsts: set<DL.Pair>, a: seq<int>, mode: PortMode, port: int): set<nat>
    requires IsAddr(a) && IsPort(port)
  {
    set p | p in dsts && IsDst(p.1) && DL.Admits(p.1, a, mode, port) :: p.0
  }

  /** The filter's own choice among the three lookups of the destination table. */
  function Dispatch(proto: int): PortMode {
    if IsPortFul(proto) then Check
    else if proto == ICMP || proto == ICMPV6 then IpsOnly
    else IpsOnlyIfAllPorts
  }

  /** It is in lockstep with the reference. */
  lemma DispatchAgrees(proto: int)
    ensures Dispatch(proto) == ModeOf(proto)
  {
  }

  /** The rules with an admitting destination. */
  function DstIds(dsts: set<DL.Pair>, pk: Packet): set<nat>
    requires IsPacket(pk)
  {
    IdsBy(dsts, pk.dst, Dispatch(pk.proto), pk.port)
  }

  /** `BartFilter::lookup`, with its early exits. */
  method Lookup(t: Tables, pk: Packet, caps: seq<string>) returns (ids: set<nat>)
    requires IsPacket(pk)
    ensures ids == SrcIds(t, pk.src, caps) * ProtoIds(t, pk.proto) * DstIds(t.dsts, pk)
  {
    ids := CapLookup.UnionOf(t.caps, caps);
    var found := LongestIds(t.srcs, pk.src);
    if found.Some? { ids := ids + found.value; }
    if ids == {} { return; }
    if pk.proto in t.protos { ids := ids * t.protos[pk.proto]; } else { ids := {}; }
    if ids == {} { return; }
    if IsPortFul(pk.proto) {
      ids := ids * IdsBy(t.dsts, pk.dst, Check, pk.port);
    } else if pk.proto == ICMP || pk.proto == ICMPV6 {
      ids := ids * IdsBy(t.dsts, pk.dst, IpsOnly, pk.port);
    } else {
      ids := ids * IdsBy(t.dsts, pk.dst, IpsOnlyIfAllPorts, pk.port);
    }
  }

  function SrcIds(t: Tables, a: seq<int>, caps: seq<string>): set<nat>
    requires IsAddr(a)
  {
    var found := LongestIds(t.srcs, a);
    CapLookup.UnionOf(t.caps, caps) + if found.Some? then found.value else {}
  }

  function ProtoIds(t: Tables, proto: int): set<nat> { if proto in t.protos then t.protos[proto] else {} }

  /** A rule is found by its source: by a capability, or by owning the longest stored prefix. */
  ghost predicate SrcFound(live: map<nat, Rule>, id: nat, pk: Packet, caps: seq<string>) {
    id in live && (CapMatches(live[id], caps) || OwnsLongest(live, id, pk.src))
  }

  predicate DstFound(rule: Rule, pk: Packet)
    requires IsRule(rule) && IsPacket(pk)
  {
    exists i :: 0 <= i < |rule.dsts| && DL.Admits(rule.dsts[i], pk.dst, Dispatch(pk.proto), pk.port)
  }

  ghost predicate FilterFinds(live: map<nat, Rule>, id: nat, pk: Packet, caps: seq<string>)
    requires AllRules(live) && IsPacket(pk)
  {
    id in live && pk.proto in live[id].protos && SrcFound(live, id, pk, caps) && DstFound(live[id], pk)
  }

  lemma CapsFound(t: Tables, live: map<nat, Rule>, caps: seq<string>, id: nat)
    requires Holds(t, live)
    ensures id in CapLookup.UnionOf(t.caps, caps) <==> id in live && CapMatches(live[id], caps)
  {
    CapLookup.UnionIs(t.caps, caps, id);
    if c :| c in caps && c in t.caps && id in t.caps[c] { assert In(t.caps, c, id); }
    if id in live && CapMatches(live[id], caps) {
      var c :| c in caps && c in live[id].caps;
      assert In(t.caps, c, id);
    }
  }

  lemma DstsFound(t: Tables, live: map<nat, Rule>, pk: Packet, id: nat)
    requires Holds(t, live) && IsPacket(pk)
    ensures id in DstIds(t.dsts, pk) <==> id in live && DstFound(live[id], pk)
  {
    if id in DstIds(t.dsts, pk) {
      var p :| p in t.dsts && IsDst(p.1) && DL.Admits(p.1, pk.dst, Dispatch(pk.proto), pk.port) && p.0 == id;
      assert (id, p.1) in t.dsts;
      var i :| 0 <= i < |live[id].dsts| && live[id].dsts[i] == p.1;
    }
    if id in live && DstFound(live[id], pk) {
      var i :| 0 <= i < |live[id].dsts| && DL.Admits(live[id].dsts[i], pk.dst, Dispatch(pk.proto), pk.port);
      assert (id, live[id].dsts[i]) in t.dsts;
    }
  }

  /** The answer of `Lookup`, rule by rule. */
  lemma LookupFinds(t: Tables, live: map<nat, Rule>, pk: Packet, caps: seq<string>, id: nat)
    requires Holds(t, live) && IsPacket(pk)
    ensures id in SrcIds(t, pk.src, caps) * ProtoIds(t, pk.proto) * DstIds(t.dsts, pk) <==>
            FilterFinds(live, id, pk, caps)
  {
    CapsFound(t, live, caps, id);
    SourceTableIs(t, live, pk.src, id);
    DstsFound(t, live, pk, id);
    assert In(t.protos, pk.proto, id) <==> id in live && pk.proto in PROTOS(live[id]);
  }

  // Against the reference.

  /** A prefix of some live rule contains the address and is longer than every prefix of this rule that does. */
  ghost predicate Outranked(live: map<nat, Rule>, id: nat, a: seq<int>)
    requires AllRules(live) && IsAddr(a) && id in live
  {
    exists j, k :: j in live && 0 <= k < |live[j].pfxs| && Contains(live[j].pfxs[k], a)
                   && AllShorter(live[id].pfxs, a, live[j].pfxs[k].len)
  }

  predicate AllShorter(nets: seq<Net>, a: seq<int>, len: nat)
    requires IsAddr(a) && forall i :: 0 <= i < |nets| ==> IsNet(nets[i])
  {
    forall i :: 0 <= i < |nets| && Contains(nets[i], a) ==> nets[i].len < len
  }

  /** The rule's own prefixes contain the source, but a longer prefix of other rules does too. */
  ghost predicate Shadowed(live: map<nat, Rule>, id: nat, a: seq<int>)
    requires AllRules(live) && IsAddr(a) && id in live
  {
    AnyContains(live[id].pfxs, a) && Outranked(live, id, a)
  }

  /** A prefix of a live rule, as the route it is stored under. */
  lemma StoredPrefix(live: map<nat, Rule>, j: nat, k: nat, a: seq<int>)
    requires AllRules(live) && IsAddr(a) && j in live && k < |live[j].pfxs|
    ensures var r := Rules.RouteOf(live[j].pfxs[k]);
            && r in SRCS(live[j]) && Stored(live, r) && IsRoute(r) && Bits(r.1) == live[j].pfxs[k].len
            && (RouteCovers(r, a) <==> Contains(live[j].pfxs[k], a))
  {
    ContainsIsRoute(live[j].pfxs[k], a);
    assert SRCS(live[j])[k] == Rules.RouteOf(live[j].pfxs[k]);
    LevelIndex(Rules.RouteOf(live[j].pfxs[k]).1.idx);
  }

  lemma RoutePrefix(live: map<nat, Rule>, j: nat, r: Route) returns (k: nat)
    requires AllRules(live) && j in live && r in SRCS(live[j])
    ensures k < |live[j].pfxs| && r == Rules.RouteOf(live[j].pfxs[k])
  {
    k :| 0 <= k < |live[j].pfxs| && RoutesOf(live[j].pfxs)[k] == r;
  }

  /** Where some stored prefix contains the address, one of them is the longest. */
  lemma {:induction false} LongestExists(live: map<nat, Rule>, a: seq<int>, q: Route, len: nat) returns (r: Route)
    requires AllRules(live) && IsAddr(a) && Stored(live, q) && RouteCovers(q, a) && len <= 8 * |a|
    requires forall p :: Stored(live, p) && RouteCovers(p, a) ==> p.1.idx >= 1 && Bits(p.1) <= len
    ensures IsLongest(live, a, r)
  {
    r := RouteAt(a, len);
    RouteAtCovers(a, len);
    if !Stored(live, r) {
      forall p | Stored(live, p) && RouteCovers(p, a) ensures Bits(p.1) < len {
        StoredIsRoute(live, p, a);
        if Bits(p.1) == len { CoveringIsRouteAt(p, a, len); }
      }
      assert Bits(q.1) < len;
      r := LongestExists(live, a, q, len - 1);
    }
  }

  lemma StoredAtMost(live: map<nat, Rule>, a: seq<int>)
    requires AllRules(live)
    ensures forall p :: Stored(live, p) && RouteCovers(p, a) ==> p.1.idx >= 1 && Bits(p.1) <= 8 * |a|
  {
    forall p | Stored(live, p) && RouteCovers(p, a) ensures p.1.idx >= 1 && Bits(p.1) <= 8 * |a| {
      StoredIsRoute(live, p, a);
    }
  }

  lemma OwnerIsNotOutranked(live: map<nat, Rule>, id: nat, a: seq<int>)
    requires AllRules(live) && IsAddr(a) && OwnsLongest(live, id, a)
    ensures AnyContains(live[id].pfxs, a) && !Outranked(live, id, a)
  {
    var r :| IsLongest(live, a, r) && r in SRCS(live[id]);
    var i := RoutePrefix(live, id, r);
    StoredPrefix(live, id, i, a);
    forall j, k | j in live && 0 <= k < |live[j].pfxs| && Contains(live[j].pfxs[k], a)
      ensures !AllShorter(live[id].pfxs, a, live[j].pfxs[k].len)
    {
      StoredPrefix(live, j, k, a);
    }
  }

  lemma OthersAreShorter(live: map<nat, Rule>, id: nat, a: seq<int>, r: Route)
    requires AllRules(live) && IsAddr(a) && id in live && IsLongest(live, a, r) && r !in SRCS(live[id])
    ensures AllShorter(live[id].pfxs, a, Bits(r.1))
  {
    StoredIsRoute(live, r, a);
    forall i | 0 <= i < |live[id].pfxs| && Contains(live[id].pfxs[i], a) ensures live[id].pfxs[i].len < Bits(r.1) {
      StoredPrefix(live, id, i, a);
      var own := Rules.RouteOf(live[id].pfxs[i]);
      if Bits(own.1) == Bits(r.1) { CoveringIsUnique(own.1, r.1, a); }
    }
  }

  lemma OutrankedWhenNotOwner(live: map<nat, Rule>, id: nat, a: seq<int>)
    requires AllRules(live) && IsAddr(a) && id in live && AnyContains(live[id].pfxs, a) && !OwnsLongest(live, id, a)
    ensures Outranked(live, id, a)
  {
    var i :| 0 <= i < |live[id].pfxs| && Contains(live[id].pfxs[i], a);
    StoredPrefix(live, id, i, a);
    StoredAtMost(live, a);
    var r := LongestExists(live, a, Rules.RouteOf(live[id].pfxs[i]), 8 * |a|);
    OthersAreShorter(live, id, a, r);
    var j :| j in live && r in SRCS(live[j]);
    var k := RoutePrefix(live, j, r);
    StoredPrefix(live, j, k, a);
  }

  /** A rule whose prefix contains the source is found by it unless another live prefix is longer. */
  lemma ShadowedIs(live: map<nat, Rule>, id: nat, a: seq<int>)
    requires AllRules(live) && IsAddr(a) && id in live
    ensures OwnsLongest(live, id, a) <==> AnyContains(live[id].pfxs, a) && !Shadowed(live, id, a)
  {
    if OwnsLongest(live, id, a) {
      OwnerIsNotOutranked(live, id, a);
    } else if AnyContains(live[id].pfxs, a) {
      OutrankedWhenNotOwner(live, id, a);
    }
  }

  /** The source side never finds too much, and finds too little exactly for a shadowed rule without an offered
      capability. */
  lemma SourceAgrees(live: map<nat, Rule>, id: nat, pk: Packet, caps: seq<string>)
    requires AllRules(live) && IsPacket(pk) && id in live
    ensures SrcFound(live, id, pk, caps) <==>
            SrcMatches(live[id], pk, caps) && (CapMatches(live[id], caps) || !Shadowed(live, id, pk.src))
  {
    ShadowedIs(live, id, pk.src);
  }

  /** A range one port short of all of them. */
  predicate OnePortShort(ports: (int, int)) { ports == (0, 0xFFFE) || ports == (1, 0xFFFF) }

  /** A packet that a range one port short should have turned away. */
  predicate PastTheRange(ports: (int, int), mode: PortMode, port: int) {
    OnePortShort(ports) && (mode.IpsOnlyIfAllPorts? || (mode.Check? && !(ports.0 <= port <= ports.1)))
  }

  /** The port side never finds too little, and finds too much exactly past a range one port short. */
  lemma PortsAgree(ports: (int, int), mode: PortMode, port: int)
    requires IsPort(port) && IsPort(ports.0) && IsPort(ports.1)
    ensures DL.PortAnswers(ports, mode, port) <==> PortMatches(ports, mode, port) || PastTheRange(ports, mode, port)
    ensures !(PortMatches(ports, mode, port) && PastTheRange(ports, mode, port))
  {
  }

  predicate RefDst(rule: Rule, pk: Packet)
    requires IsRule(rule) && IsPacket(pk)
  {
    exists i :: 0 <= i < |rule.dsts| && DstMatches(rule.dsts[i], pk)
  }

  /** Some destination contains the packet's, with a range one port short that the packet is past. */
  predicate SlipsPast(rule: Rule, pk: Packet)
    requires IsRule(rule) && IsPacket(pk)
  {
    exists i :: 0 <= i < |rule.dsts| && AnyContains(rule.dsts[i].ips, pk.dst)
                && PastTheRange(rule.dsts[i].ports, ModeOf(pk.proto), pk.port)
  }

  lemma DestinationAgrees(rule: Rule, pk: Packet)
    requires IsRule(rule) && IsPacket(pk)
    ensures DstFound(rule, pk) <==> RefDst(rule, pk) || SlipsPast(rule, pk)
  {
    var mode := Dispatch(pk.proto);
    DispatchAgrees(pk.proto);
    forall i | 0 <= i < |rule.dsts|
      ensures DL.Admits(rule.dsts[i], pk.dst, mode, pk.port) <==>
        DstMatches(rule.dsts[i], pk) ||
        (AnyContains(rule.dsts[i].ips, pk.dst) && PastTheRange(rule.dsts[i].ports, mode, pk.port))
    {
      PortsAgree(rule.dsts[i].ports, mode, pk.port);
    }
  }

  /** The ports an id answers to when its port is checked, and when all ports are asked for. */
  predicate Opens(ports: (int, int), port: int) { ports.0 <= port <= ports.1 || OnePortShort(ports) }

  predicate OpensAll(ports: (int, int)) { ports == (0, 65535) || OnePortShort(ports) }

  /** What one destination lets the filter find, by protocol number. */
  predicate Reached(d: Dst, pk: Packet)
    requires IsDst(d) && IsPacket(pk)
  {
    && AnyContains(d.ips, pk.dst)
    && (pk.proto in {6, 17, 132} ==> Opens(d.ports, pk.port))
    && (pk.proto !in {1, 6, 17, 58, 132} ==> OpensAll(d.ports))
  }

  lemma AdmitsIs(d: Dst, pk: Packet)
    requires IsDst(d) && IsPacket(pk)
    ensures DL.Admits(d, pk.dst, Dispatch(pk.proto), pk.port) <==> Reached(d, pk)
  {
  }

  /** The rules the filter finds, from the rules and the packet alone: the protocol is listed, a capability is
      offered or a prefix contains the source that no longer one outranks, and a destination is reached. */
  lemma FoundExactly(live: map<nat, Rule>, id: nat, pk: Packet, caps: seq<string>)
    requires AllRules(live) && IsPacket(pk) && id in live
    ensures FilterFinds(live, id, pk, caps) <==>
            && pk.proto in live[id].protos
            && (CapMatches(live[id], caps) || (AnyContains(live[id].pfxs, pk.src) && !Shadowed(live, id, pk.src)))
            && exists i :: 0 <= i < |live[id].dsts| && Reached(live[id].dsts[i], pk)
  {
    ShadowedIs(live, id, pk.src);
    forall i | 0 <= i < |live[id].dsts|
      ensures DL.Admits(live[id].dsts[i], pk.dst, Dispatch(pk.proto), pk.port) <==> Reached(live[id].dsts[i], pk)
    {
      AdmitsIs(live[id].dsts[i], pk);
    }
  }

  /** The rule is shadowed at the source, and nothing else stands in its way. */
  ghost predicate Hidden(live: map<nat, Rule>, id: nat, pk: Packet, caps: seq<string>)
    requires AllRules(live) && IsPacket(pk) && id in live
  {
    && pk.proto in live[id].protos && RefDst(live[id], pk)
    && Shadowed(live, id, pk.src) && !CapMatches(live[id], caps)
  }

  /** The rule admits the packet by a range one port short only, and its source is seen. */
  ghost predicate LetIn(live: map<nat, Rule>, id: nat, pk: Packet, caps: seq<string>)
    requires AllRules(live) && IsPacket(pk) && id in live
  {
    && pk.proto in live[id].protos && !RefDst(live[id], pk) && SlipsPast(live[id], pk)
    && (CapMatches(live[id], caps) || (AnyContains(live[id].pfxs, pk.src) && !Shadowed(live, id, pk.src)))
  }

  /** The filter misses a rule that matches exactly when the rule is hidden. */
  lemma LongerPrefixHides(live: map<nat, Rule>, id: nat, pk: Packet, caps: seq<string>)
    requires AllRules(live) && IsPacket(pk) && id in live
    ensures Rules.Matches(live[id], pk, caps) && !FilterFinds(live, id, pk, caps) <==> Hidden(live, id, pk, caps)
  {
    SourceAgrees(live, id, pk, caps);
    DestinationAgrees(live[id], pk);
  }

  /** The filter finds a rule that does not match exactly when the rule lets the packet in by a range one port
      short. */
  lemma ShortRangeLetsIn(live: map<nat, Rule>, id: nat, pk: Packet, caps: seq<string>)
    requires AllRules(live) && IsPacket(pk) && id in live
    ensures FilterFinds(live, id, pk, caps) && !Rules.Matches(live[id], pk, caps) <==> LetIn(live, id, pk, caps)
  {
    SourceAgrees(live, id, pk, caps);
    DestinationAgrees(live[id], pk);
  }

  /** The filter and the reference differ on a rule in two ways, and no other. */
  lemma DifferExactly(live: map<nat, Rule>, id: nat, pk: Packet, caps: seq<string>)
    requires AllRules(live) && IsPacket(pk) && id in live
    ensures (FilterFinds(live, id, pk, caps) <==> Rules.Matches(live[id], pk, caps)) <==>
            !Hidden(live, id, pk, caps) && !LetIn(live, id, pk, caps)
  {
    LongerPrefixHides(live, id, pk, caps);
    ShortRangeLetsIn(live, id, pk, caps);
  }

  /** As it happens where no live rule is shadowed at the source and no range is one port short. */
  lemma FilterAgrees(live: map<nat, Rule>, id: nat, pk: Packet, caps: seq<string>)
    requires AllRules(live) && IsPacket(pk) && id in live
    requires !Shadowed(live, id, pk.src)
    requires forall i :: 0 <= i < |live[id].dsts| ==> !OnePortShort(live[id].dsts[i].ports)
    ensures FilterFinds(live, id, pk, caps) <==> Rules.Matches(live[id], pk, caps)
  {
    DifferExactly(live, id, pk, caps);
  }

  // One input.

  const WIDE := Rule([Net([10, 0, 0, 0], 8)], [], [TCP], [Dst((0, 0xFFFF), [Net([0, 0, 0, 0], 0)])])
  const NARROW := Rule([Net([10, 1, 0, 0], 16)], [], [TCP], [])
  const PACKET := Packet([10, 1, 2, 3], [1, 1, 1, 1], TCP, 80)

  lemma BothContain()
    ensures IsRule(WIDE) && IsRule(NARROW) && IsPacket(PACKET)
    ensures Contains(WIDE.pfxs[0], PACKET.src) && Contains(NARROW.pfxs[0], PACKET.src)
    ensures DstMatches(WIDE.dsts[0], PACKET)
  {
    assert forall o :: TruncOctet(o, 0) == 0 && TruncOctet(o, -8) == 0;
    assert forall o :: TruncOctet(o, -16) == 0 && TruncOctet(o, -24) == 0;
    assert Contains(WIDE.dsts[0].ips[0], PACKET.dst);
  }

  /** 10.1.0.0/16 in one rule hides 10.0.0.0/8 in another from 10.1.2.3. */
  lemma NarrowHidesWide(live: map<nat, Rule>)
    requires live == map[0 := WIDE, 1 := NARROW]
    ensures AllRules(live) && IsPacket(PACKET)
    ensures Rules.Matches(live[0], PACKET, []) && !FilterFinds(live, 0, PACKET, [])
  {
    BothContain();
    assert Contains(live[1].pfxs[0], PACKET.src) && AllShorter(live[0].pfxs, PACKET.src, live[1].pfxs[0].len);
    LongerPrefixHides(live, 0, PACKET, []);
  }

  const ALMOST := Rule([Net([10, 0, 0, 0], 8)], [], [TCP], [Dst((1, 0xFFFF), [Net([0, 0, 0, 0], 0)])])
  const TO_ZERO := Packet([10, 1, 2, 3], [1, 1, 1, 1], TCP, 0)

  lemma AlmostContains()
    ensures IsRule(ALMOST) && IsPacket(TO_ZERO)
    ensures Contains(ALMOST.pfxs[0], TO_ZERO.src) && Contains(ALMOST.dsts[0].ips[0], TO_ZERO.dst)
  {
    BothContain();
    assert forall o :: TruncOctet(o, 0) == 0 && TruncOctet(o, -8) == 0;
    assert forall o :: TruncOctet(o, -16) == 0 && TruncOctet(o, -24) == 0;
  }

  /** A rule for ports 1 to 65535 lets a packet to port 0 in. */
  lemma PortZeroIsLetIn(live: map<nat, Rule>)
    requires live == map[0 := ALMOST]
    ensures AllRules(live) && IsPacket(TO_ZERO)
    ensures FilterFinds(live, 0, TO_ZERO, []) && !Rules.Matches(live[0], TO_ZERO, [])
  {
    AlmostContains();
    assert AnyContains(live[0].dsts[0].ips, TO_ZERO.dst) && PastTheRange(live[0].dsts[0].ports, Check, 0);
    ShortRangeLetsIn(live, 0, TO_ZERO, []);
  }

  const WEB := Rule([Net([10, 0, 0, 0], 8)], [], [UDP], [Dst((80, 80), [Net([0, 0, 0, 0], 0)])])

  /** A rule for UDP port 80 finds a packet to port 80 and no packet to another port. */
  lemma UdpPortIsChecked(live: map<nat, Rule>, port: int)
    requires live == map[0 := WEB] && IsPort(port)
    ensures var pk := Packet([10, 1, 2, 3], [1, 1, 1, 1], 17, port);
            AllRules(live) && IsPacket(pk) && (FilterFinds(live, 0, pk, []) <==> port == 80)
  {
    var pk := Packet([10, 1, 2, 3], [1, 1, 1, 1], 17, port);
    BothContain();
    assert Contains(live[0].pfxs[0], pk.src) && Contains(live[0].dsts[0].ips[0], pk.dst);
    assert !Outranked(live, 0, pk.src);
    FoundExactly(live, 0, pk, []);
    if port == 80 { assert Reached(live[0].dsts[0], pk); }
  }
}
