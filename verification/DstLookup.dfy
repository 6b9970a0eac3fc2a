/**
  Destination lookup (ts_bart_packetfilter/src/dst_port.rs): five tables under private ids that together stand
  for a set of pairs of a rule and a destination match.
 */
module DstLookup {
  import opened Wrappers
  import opened Slots
  import opened IdIndex
  import opened Rules
  import PT = PortTrie

  type Pair = (nat, Dst)

  /** The fields, as values; prefixes are looked up in the routing table, ports in the port trie. */
  datatype State = State(routes: map<Route, set<nat>>, ports: PT.Trie<set<nat>>, ids: map<Dst, set<nat>>,
                         toRule: seq<Option<nat>>, free: set<int>)

  const ROUTES: Pair -> seq<Route> := (p: Pair) => RoutesOf(p.1.ips)
  const DST: Pair -> seq<Dst> := (p: Pair) => [p.1]

  ghost function Ranges(live: map<nat, Pair>): map<nat, PT.Range> { map id | id in live :: live[id].1.ports }

  ghost predicate SlotsAre(toRule: seq<Option<nat>>, live: map<nat, Pair>) {
    && (forall i :: 0 <= i < |toRule| ==> toRule[i] == if i in live then Some(live[i].0) else None)
    && (forall i :: i in live ==> i < |toRule|)
  }

  /** One id to a pair. */
  ghost predicate Injective(live: map<nat, Pair>) {
    forall i, j :: i in live && j in live && live[i] == live[j] ==> i == j
  }

  ghost predicate AllDsts(live: map<nat, Pair>) { forall id :: id in live ==> IsDst(live[id].1) }

  /** The tables hold exactly the live ids, each under what its pair says. */
  ghost predicate Valid(s: State, live: map<nat, Pair>) {
    && AllDsts(live) && Injective(live)
    && Indexes(s.routes, live, ROUTES) && Indexes(s.ids, live, DST)
    && PT.Represents(s.ports, Ranges(live))
    && SlotsAre(s.toRule, live) && FreeIs(s.toRule, s.free) && IsCompact(s.toRule)
  }

  ghost predicate Has(live: map<nat, Pair>, p: Pair) { exists id :: id in live && live[id] == p }

  /** `id` is entered for the pair. */
  function Entered(s: State, id: nat, p: Pair): State
    requires IsDst(p.1) && id <= |s.toRule|
  {
    State(MarkAll(s.routes, RoutesOf(p.1.ips), id), PT.Modified(s.ports, PT.Keys(p.1.ports), PT.Mark(id)),
          MarkAll(s.ids, [p.1], id), Fill(s.toRule, id, p.0), s.free - {id})
  }

  lemma EnteredTables(s: State, live: map<nat, Pair>, id: nat, p: Pair)
    requires Valid(s, live) && IsDst(p.1) && (id in live ==> live[id] == p) && id <= |s.toRule|
    ensures var t := Entered(s, id, p);
            var live' := live[id := p];
            Indexes(t.routes, live', ROUTES) && Indexes(t.ids, live', DST) && PT.Represents(t.ports, Ranges(live'))
  {
    EnteredIds(s, live, id, p);
    EnteredPorts(s.ports, live, id, p);
  }

  lemma EnteredIds(s: State, live: map<nat, Pair>, id: nat, p: Pair)
    requires Indexes(s.routes, live, ROUTES) && Indexes(s.ids, live, DST) && (id in live ==> live[id] == p)
    ensures Indexes(MarkAll(s.routes, RoutesOf(p.1.ips), id), live[id := p], ROUTES)
    ensures Indexes(MarkAll(s.ids, [p.1], id), live[id := p], DST)
  {
    Added(s.routes, live, ROUTES, id, p);
    Added(s.ids, live, DST, id, p);
  }

  lemma EnteredPorts(ports: PT.Trie<set<nat>>, live: map<nat, Pair>, id: nat, p: Pair)
    requires AllDsts(live) && IsDst(p.1) && PT.Represents(ports, Ranges(live)) && (id in live ==> live[id] == p)
    ensures PT.Represents(PT.Modified(ports, PT.Keys(p.1.ports), PT.Mark(id)), Ranges(live[id := p]))
  {
    RangesNow(live, id, p);
    PT.MarkRepresents(ports, Ranges(live), id, p.1.ports);
  }

  lemma RangesNow(live: map<nat, Pair>, id: nat, p: Pair)
    ensures Ranges(live[id := p]) == Ranges(live)[id := p.1.ports]
  {
  }

  /** Entering a pair that has an id changes nothing. */
  lemma KnownIsKept(s: State, live: map<nat, Pair>, id: nat)
    requires Valid(s, live) && id in live
    ensures Entered(s, id, live[id]) == s
  {
    var p := live[id];
    assert forall r :: r in ROUTES(p) ==> In(s.routes, r, id);
    MarkAllAgain(s.routes, ROUTES(p), id);
    assert forall d :: d in DST(p) ==> In(s.ids, d, id);
    MarkAllAgain(s.ids, DST(p), id);
    PT.MarkAgain(s.ports, Ranges(live), id);
    assert s.toRule[id] == Some(p.0) && s.toRule[id := Some(p.0)] == s.toRule;
    assert id !in s.free && s.free - {id} == s.free;
  }

  /** A new pair takes the first free id. */
  lemma NewIsEntered(s: State, live: map<nat, Pair>, p: Pair)
    requires Valid(s, live) && IsDst(p.1) && !Has(live, p)
    ensures var id := FirstFree(s.free, |s.toRule|, 0);
            id <= |s.toRule| && id !in live && Valid(Entered(s, id, p), live[id := p])
  {
    var id := FirstFree(s.free, |s.toRule|, 0);
    FillIs(s.toRule, s.free, p.0);
    assert id !in live;
    EnteredIsValid(s, live, id, p);
  }

  lemma EnteredIsValid(s: State, live: map<nat, Pair>, id: nat, p: Pair)
    requires Valid(s, live) && IsDst(p.1) && !Has(live, p) && id <= |s.toRule| && id !in live
    requires FreeIs(Fill(s.toRule, id, p.0), s.free - {id})
    ensures Valid(Entered(s, id, p), live[id := p])
  {
    EnteredTables(s, live, id, p);
    FilledSlots(s.toRule, live, id, p);
    NewIsInjective(live, id, p);
  }

  lemma NewIsInjective(live: map<nat, Pair>, id: nat, p: Pair)
    requires Injective(live) && AllDsts(live) && !Has(live, p) && IsDst(p.1)
    ensures Injective(live[id := p]) && AllDsts(live[id := p])
  {
  }

  lemma FilledSlots(toRule: seq<Option<nat>>, live: map<nat, Pair>, id: nat, p: Pair)
    requires SlotsAre(toRule, live) && id <= |toRule| && IsCompact(toRule)
    ensures SlotsAre(Fill(toRule, id, p.0), live[id := p]) && IsCompact(Fill(toRule, id, p.0))
  {
  }

  /** `id` is given up; `compact` drops empty slots at the end. */
  function Left(s: State, id: nat, p: Pair): State
    requires IsDst(p.1) && id < |s.toRule|
  {
    var slots := Trimmed(s.toRule[id := None]);
    State(UnmarkAll(s.routes, RoutesOf(p.1.ips), id), PT.Modified(s.ports, PT.Keys(p.1.ports), PT.Unmark(id)),
          UnmarkAll(s.ids, [p.1], id), slots, Below(s.free + {id}, |slots|))
  }

  lemma LeftTables(s: State, live: map<nat, Pair>, id: nat)
    requires Valid(s, live) && id in live
    ensures var t := Left(s, id, live[id]);
            var live' := live - {id};
            Indexes(t.routes, live', ROUTES) && Indexes(t.ids, live', DST) && PT.Represents(t.ports, Ranges(live'))
  {
    Taken(s.routes, live, ROUTES, id);
    Taken(s.ids, live, DST, id);
    PT.UnmarkRepresents(s.ports, Ranges(live), id);
    assert Ranges(live - {id}) == Ranges(live) - {id};
  }

  lemma LeftSlots(toRule: seq<Option<nat>>, free: set<int>, live: map<nat, Pair>, id: nat)
    requires SlotsAre(toRule, live) && FreeIs(toRule, free) && id in live
    ensures var slots := Trimmed(toRule[id := None]);
            SlotsAre(slots, live - {id}) && IsCompact(slots) && FreeIs(slots, Below(free + {id}, |slots|))
  {
    var cleared := toRule[id := None];
    TrimmedIs(cleared);
    TrimmedFree(cleared, free + {id});
    forall i ensures SlotAt(Trimmed(cleared), i) == SlotAt(cleared, i) { TrimmedHolds(cleared, i); }
    assert forall i :: 0 <= i < |Trimmed(cleared)| ==> Trimmed(cleared)[i] == SlotAt(cleared, i);
    assert forall i :: i in live - {id} ==> SlotAt(cleared, i).Some?;
  }

  lemma KnownIsLeft(s: State, live: map<nat, Pair>, id: nat)
    requires Valid(s, live) && id in live
    ensures Valid(Left(s, id, live[id]), live - {id})
  {
    LeftTables(s, live, id);
    LeftSlots(s.toRule, s.free, live, id);
  }

  // Lookups.

  /** `dst_bitset`: the ids under every prefix that contains the address. */
  function Covering(routes: map<Route, set<nat>>, a: seq<int>): set<nat> {
    set r, id | r in routes && RouteCovers(r, a) && id in routes[r] :: id
  }

  lemma CoveringIs(s: State, live: map<nat, Pair>, a: seq<int>, id: nat)
    requires Valid(s, live) && IsAddr(a)
    ensures id in Covering(s.routes, a) <==> id in live && AnyContains(live[id].1.ips, a)
  {
    if id in live { AnyContainsIsRoute(live[id].1.ips, a); }
    if id in Covering(s.routes, a) {
      var r :| r in s.routes && RouteCovers(r, a) && id in s.routes[r];
      assert In(s.routes, r, id);
    }
    if id in live && AnyContains(live[id].1.ips, a) {
      var r :| r in RoutesOf(live[id].1.ips) && RouteCovers(r, a);
      assert In(s.routes, r, id);
    }
  }

  /** What the port side of a lookup accepts. */
  predicate PortAnswers(ports: (int, int), mode: PortMode, port: int)
    requires IsPort(port)
  {
    match mode
    case Check => PT.Answers(ports, port)
    case IpsOnly => true
    case IpsOnlyIfAllPorts => ports == (0, 0xFFFF) || ports == (0, 0xFFFE) || ports == (1, 0xFFFF)
  }

  /** `resolve_rule_ids` */
  function Resolve(toRule: seq<Option<nat>>, ids: set<nat>): set<nat> {
    set id | id in ids && id < |toRule| && toRule[id].Some? :: toRule[id].value
  }

  /** The ids a lookup is left with. */
  ghost predicate Selected(live: map<nat, Pair>, a: seq<int>, mode: PortMode, port: int, id: nat)
    requires AllDsts(live) && IsAddr(a) && IsPort(port)
  {
    id in live && PortAnswers(live[id].1.ports, mode, port) && AnyContains(live[id].1.ips, a)
  }

  /** What a pair of a rule and `d` admits. */
  predicate Admits(d: Dst, a: seq<int>, mode: PortMode, port: int)
    requires IsDst(d) && IsAddr(a) && IsPort(port)
  {
    PortAnswers(d.ports, mode, port) && AnyContains(d.ips, a)
  }

  lemma ResolveIs(s: State, live: map<nat, Pair>, ids: set<nat>, rule: nat)
    requires SlotsAre(s.toRule, live)
    ensures rule in Resolve(s.toRule, ids) <==> exists id :: id in ids && id in live && live[id].0 == rule
  {
    if exists id :: id in ids && id in live && live[id].0 == rule {
      var id :| id in ids && id in live && live[id].0 == rule;
      assert s.toRule[id] == Some(rule);
    }
  }

  // The code.

  class DstMatchLookup {
    var routes: map<Route, set<nat>>
    var ports: PT.Trie<set<nat>>
    var ids: map<Dst, set<nat>>
    var toRule: seq<Option<nat>>
    var free: set<int>
    /** The pairs, by id. */
    ghost var live: map<nat, Pair>

    ghost function Repr(): State
      reads this
    {
      State(routes, ports, ids, toRule, free)
    }

    ghost predicate Ok()
      reads this
    {
      Valid(Repr(), live)
    }

    constructor ()
      ensures Ok() && live == map[]
    {
      routes, ports, ids, toRule, free, live := map[], PT.Trie(map[], map[], map[]), map[], [], {}, map[];
    }

    /** `lookup_dstmatch_id` */
    method FindId(rule: nat, dst: Dst) returns (r: Option<nat>)
      requires Ok()
      ensures r.Some? <==> Has(live, (rule, dst))
      ensures r.Some? ==> r.value in live && live[r.value] == (rule, dst)
    {
      var i := 0;
      while i < |toRule|
        invariant 0 <= i <= |toRule|
        invariant forall j :: j in live && live[j] == (rule, dst) ==> j >= i
      {
        assert In(ids, dst, i) <==> i in live && dst in DST(live[i]);
        if dst in ids && i in ids[dst] && toRule[i] == Some(rule) { return Some(i); }
        i := i + 1;
      }
      r := None;
    }

    /** The entries of `id` in the five tables. */
    method Enter(id: nat, rule: nat, dst: Dst)
      requires IsDst(dst) && id <= |toRule|
      modifies this`routes, this`ports, this`ids, this`toRule, this`free
      ensures Repr() == Entered(old(Repr()), id, (rule, dst))
    {
      toRule, free := Fill(toRule, id, rule), free - {id};
      ids := MarkEach(ids, [dst], id);
      routes := MarkEach(routes, RoutesOf(dst.ips), id);
      ports := PT.Modified(ports, PT.Keys(dst.ports), PT.Mark(id));
    }

    method Insert(rule: nat, dst: Dst)
      requires Ok() && IsDst(dst)
      modifies this
      ensures Ok() && forall p :: Has(live, p) <==> Has(old(live), p) || p == (rule, dst)
    {
      var found := FindId(rule, dst);
      ghost var s := Repr();
      if found.Some? {
        KnownIsKept(s, live, found.value);
        Enter(found.value, rule, dst);
        assert Repr() == s;
      } else {
        InsertNew(rule, dst);
      }
    }

    /** The pair has no id yet: it takes a free one, or one more. */
    method InsertNew(rule: nat, dst: Dst)
      requires Ok() && IsDst(dst) && !Has(live, (rule, dst))
      modifies this
      ensures Ok() && forall p :: Has(live, p) <==> Has(old(live), p) || p == (rule, dst)
    {
      var id := NextSlot(free, |toRule|);
      NewIsEntered(Repr(), live, (rule, dst));
      HasNow(live, id, (rule, dst));
      Take(id, rule, dst);
    }

    method Take(id: nat, rule: nat, dst: Dst)
      requires IsDst(dst) && id <= |toRule|
      requires Valid(Entered(Repr(), id, (rule, dst)), live[id := (rule, dst)])
      modifies this
      ensures Ok() && live == old(live)[id := (rule, dst)]
    {
      Enter(id, rule, dst);
      live := live[id := (rule, dst)];
    }

    /** The entries of `id` go from the five tables. */
    method Leave(id: nat, rule: nat, dst: Dst)
      requires IsDst(dst) && id < |toRule|
      modifies this`routes, this`ports, this`ids, this`toRule, this`free
      ensures Repr() == Left(old(Repr()), id, (rule, dst))
    {
      routes := UnmarkEach(routes, RoutesOf(dst.ips), id);
      ports := PT.Modified(ports, PT.Keys(dst.ports), PT.Unmark(id));
      ids := UnmarkEach(ids, [dst], id);
      toRule := toRule[id := None];
      free := free + {id};
      toRule := PopEmpty(toRule);
      free := Below(free, |toRule|);
    }

    method Remove(rule: nat, dst: Dst)
      requires Ok()
      modifies this
      ensures Ok() && forall p :: Has(live, p) <==> Has(old(live), p) && p != (rule, dst)
    {
      var found := FindId(rule, dst);
      if found.None? { return; }
      var id := found.value;
      KnownIsLeft(Repr(), live, id);
      HasNoMore(live, id);
      Leave(id, rule, dst);
      live := live - {id};
    }

    /** `lookup`, `lookup_ips_only` and `lookup_all_ports_ips`, by the way ports take part. */
    method Lookup(a: seq<int>, mode: PortMode, port: int) returns (rules: set<nat>)
      requires Ok() && IsAddr(a) && IsPort(port)
      ensures forall rule :: rule in rules <==> exists d :: Has(live, (rule, d)) && IsDst(d) && Admits(d, a, mode, port)
    {
      var covering := Covering(routes, a);
      forall id ensures id in covering <==> id in live && AnyContains(live[id].1.ips, a) {
        CoveringIs(Repr(), live, a, id);
      }
      var left := covering;
      match mode {
        case Check =>
          var at := PT.Union(ports, port);
          forall id { PT.FoundIs(ports, Ranges(live), port, id); }
          left := covering * at;
        case IpsOnly =>
        case IpsOnlyIfAllPorts =>
          var low := PT.Union(ports, 0);
          var high := PT.Union(ports, 0xFFFF);
          forall id { PT.AllPortsIds(ports, Ranges(live), id); }
          left := covering * (low * high);
      }
      assert forall id :: id in left <==> Selected(live, a, mode, port, id);
      rules := Resolve(toRule, left);
      forall rule ensures rule in rules <==> exists id :: id in left && live[id].0 == rule {
        ResolveIs(Repr(), live, left, rule);
      }
      forall rule ensures rule in rules <==> exists d :: Has(live, (rule, d)) && IsDst(d) && Admits(d, a, mode, port) {
        SelectedIs(live, a, mode, port, rule);
      }
    }
  }

  lemma SelectedIs(live: map<nat, Pair>, a: seq<int>, mode: PortMode, port: int, rule: nat)
    requires AllDsts(live) && IsAddr(a) && IsPort(port)
    ensures (exists id :: Selected(live, a, mode, port, id) && live[id].0 == rule) <==>
            exists d :: Has(live, (rule, d)) && IsDst(d) && Admits(d, a, mode, port)
  {
    if id :| Selected(live, a, mode, port, id) && live[id].0 == rule {
      assert Has(live, (rule, live[id].1));
    }
    if d :| Has(live, (rule, d)) && IsDst(d) && Admits(d, a, mode, port) {
      var id :| id in live && live[id] == (rule, d);
      assert Selected(live, a, mode, port, id);
    }
  }

  lemma HasNoMore(live: map<nat, Pair>, id: nat)
    requires Injective(live) && id in live
    ensures forall q :: Has(live - {id}, q) <==> Has(live, q) && q != live[id]
  {
    forall q | Has(live, q) && q != live[id] ensures Has(live - {id}, q) {
      var i :| i in live && live[i] == q;
      assert (live - {id})[i] == q;
    }
  }

  lemma HasNow(live: map<nat, Pair>, id: nat, p: Pair)
    requires id !in live
    ensures forall q :: Has(live[id := p], q) <==> Has(live, q) || q == p
  {
    assert live[id := p][id] == p;
    forall q | Has(live, q) ensures Has(live[id := p], q) {
      var i :| i in live && live[i] == q;
      assert live[id := p][i] == q;
    }
  }
}
