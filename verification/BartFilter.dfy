/**
  The packet filter (ts_bart_packetfilter/src/lib.rs): named rulesets whose rules get ids from a free list and
  are stored in the component tables under them.
 */
module BartFilter {
  import opened Wrappers
  import opened Slots
  import opened Rules
  import opened FilterTables

  datatype Entry = Entry(rules: seq<Rule>, ids: set<nat>)

  predicate Ascending(s: seq<nat>) { forall i, j :: 0 <= i < j < |s| ==> s[i] < s[j] }

  /** `order` is the ids of an entry in the order of `bits`, and they are the ids of its rules in turn. */
  ghost predicate Owns(e: Entry, order: seq<nat>, live: map<nat, Rule>) {
    && Ascending(order) && |order| == |e.rules|
    && (forall x :: x in e.ids <==> x in order)
    && (forall k :: 0 <= k < |order| ==> order[k] in live && live[order[k]] == e.rules[k])
  }

  /** A slot names the ruleset that owns its id. */
  ghost predicate NamesAre(names: seq<Option<string>>, rulesets: map<string, Entry>, live: map<nat, Rule>) {
    && (forall i: nat :: i in live <==> SlotAt(names, i).Some?)
    && (forall i: nat :: SlotAt(names, i).Some? ==> SlotAt(names, i).value in rulesets)
    && (forall i: nat, nm :: nm in rulesets ==> (i in rulesets[nm].ids <==> SlotAt(names, i) == Some(nm)))
  }

  // Taking a ruleset's rules out of the tables.

  function RemoveRules(t: Tables, order: seq<nat>, rules: seq<Rule>): Tables
    requires |order| == |rules|
  {
    if order == [] then t
    else
      var n := |order| - 1;
      RemoveRule(RemoveRules(t, order[..n], rules[..n]), order[n], rules[n])
  }

  function Minus(live: map<nat, Rule>, order: seq<nat>): map<nat, Rule> { map i | i in live && i !in order :: live[i] }

  lemma {:induction false} RemoveRulesHolds(t: Tables, live: map<nat, Rule>, order: seq<nat>, rules: seq<Rule>)
    requires FilterTables.Holds(t, live) && Ascending(order) && |order| == |rules|
    requires forall k :: 0 <= k < |order| ==> order[k] in live && live[order[k]] == rules[k]
    ensures FilterTables.Holds(RemoveRules(t, order, rules), Minus(live, order))
  {
    if order == [] {
      assert Minus(live, order) == live;
    } else {
      var n := |order| - 1;
      RemoveRulesHolds(t, live, order[..n], rules[..n]);
      MinusLast(live, order);
      RemoveRuleHolds(RemoveRules(t, order[..n], rules[..n]), Minus(live, order[..n]), order[n]);
    }
  }

  lemma MinusLast(live: map<nat, Rule>, order: seq<nat>)
    requires Ascending(order) && order != [] && order[|order| - 1] in live
    ensures var n := |order| - 1;
            var before := Minus(live, order[..n]);
            order[n] in before && before[order[n]] == live[order[n]] && Minus(live, order) == before - {order[n]}
  {
    var n := |order| - 1;
    assert order[n] !in order[..n];
    assert forall x :: x in order <==> x in order[..n] || x == order[n];
  }

  /** The loop over the ids of an entry, lowest first, and its rules in turn. */
  method RemoveEach(t: Tables, e: Entry, n: nat, ghost order: seq<nat>) returns (u: Tables)
    requires Ascending(order) && |order| == |e.rules| && (forall x :: x in e.ids <==> x in order)
    requires forall j :: 0 <= j < |order| ==> order[j] < n
    ensures u == RemoveRules(t, order, e.rules)
  {
    u := t;
    var i, k := 0, 0;
    while i < n
      invariant 0 <= i <= n && 0 <= k <= |order|
      invariant forall j :: 0 <= j < k ==> order[j] < i
      invariant forall j :: k <= j < |order| ==> order[j] >= i
      invariant k < |order| ==> order[k] >= i
      invariant u == RemoveRules(t, order[..k], e.rules[..k])
    {
      if i in e.ids {
        assert k < |order| && order[k] == i by { AtCursor(order, i, k); }
        assert order[..k + 1][..k] == order[..k] && e.rules[..k + 1][..k] == e.rules[..k];
        u := RemoveRule(u, i, e.rules[k]);
        k := k + 1;
      }
      i := i + 1;
    }
    assert order[..k] == order && e.rules[..k] == e.rules;
  }

  lemma AtCursor(order: seq<nat>, i: nat, k: nat)
    requires Ascending(order) && i in order && k <= |order|
    requires forall j :: 0 <= j < k ==> order[j] < i
    requires forall j :: k <= j < |order| ==> order[j] >= i
    ensures k < |order| && order[k] == i
  {
    var j :| 0 <= j < |order| && order[j] == i;
  }

  method ClearNames(names: seq<Option<string>>, ids: set<nat>) returns (out: seq<Option<string>>)
    ensures |out| == |names|
    ensures forall i :: 0 <= i < |names| ==> out[i] == if i in ids then None else names[i]
  {
    out := names;
    var i := 0;
    while i < |names|
      invariant 0 <= i <= |names| && |out| == |names|
      invariant forall j :: 0 <= j < |names| ==> out[j] == if j in ids && j < i then None else names[j]
    {
      if i in ids { out := out[i := None]; }
      i := i + 1;
    }
  }

  /** Every entry has an order. */
  ghost predicate AllOwn(rulesets: map<string, Entry>, orders: map<string, seq<nat>>, live: map<nat, Rule>) {
    orders.Keys == rulesets.Keys && forall nm :: nm in rulesets ==> Owns(rulesets[nm], orders[nm], live)
  }

  ghost predicate Valid(t: Tables, names: seq<Option<string>>, free: set<int>, rulesets: map<string, Entry>,
                        orders: map<string, seq<nat>>, live: map<nat, Rule>) {
    && FilterTables.Holds(t, live) && FreeIs(names, free) && IsCompact(names)
    && NamesAre(names, rulesets, live) && AllOwn(rulesets, orders, live)
  }

  /** With the names of a ruleset's ids cleared, the rest is as before. */
  lemma ClearedNames(names: seq<Option<string>>, free: set<int>, rulesets: map<string, Entry>,
                     live: map<nat, Rule>, name: string, order: seq<nat>, out: seq<Option<string>>)
    requires NamesAre(names, rulesets, live) && FreeIs(names, free) && name in rulesets
    requires Owns(rulesets[name], order, live) && |out| == |names|
    requires forall i :: 0 <= i < |names| ==> out[i] == if i in rulesets[name].ids then None else names[i]
    ensures NamesAre(out, rulesets - {name}, Minus(live, order))
    ensures FreeIs(out, free + rulesets[name].ids)
  {
    var ids := rulesets[name].ids;
    assert forall i :: i in Minus(live, order) <==> i in live && i !in ids;
    assert forall i: nat :: SlotAt(out, i) == if i in ids then None else SlotAt(names, i);
    assert forall i: nat :: i in ids ==> SlotAt(names, i) == Some(name);
  }

  lemma TrimmedNames(names: seq<Option<string>>, rulesets: map<string, Entry>, live: map<nat, Rule>)
    requires NamesAre(names, rulesets, live)
    ensures NamesAre(Trimmed(names), rulesets, live)
  {
    forall i ensures SlotAt(Trimmed(names), i) == SlotAt(names, i) { TrimmedHolds(names, i); }
  }

  /** The other rulesets still own their rules. */
  lemma OthersOwn(names: seq<Option<string>>, rulesets: map<string, Entry>, orders: map<string, seq<nat>>,
                  live: map<nat, Rule>, name: string)
    requires NamesAre(names, rulesets, live) && AllOwn(rulesets, orders, live) && name in rulesets
    ensures AllOwn(rulesets - {name}, orders - {name}, Minus(live, orders[name]))
  {
    var live' := Minus(live, orders[name]);
    forall nm | nm in rulesets && nm != name ensures Owns(rulesets[nm], orders[nm], live') {
      forall k | 0 <= k < |orders[nm]| ensures orders[nm][k] in live' {
        var id := orders[nm][k];
        assert id in rulesets[nm].ids;
        assert SlotAt(names, id) == Some(nm);
      }
    }
  }

  // Giving ids to a ruleset's rules.

  /** The state of the insertion loop: the rules so far have ascending ids, below every id still free. */
  ghost predicate Filling(t: Tables, names: seq<Option<string>>, free: set<int>, live: map<nat, Rule>,
                          got: seq<nat>, rules: seq<Rule>, name: string) {
    FilterTables.Holds(t, live) && Placed(names, free, live, got, rules, name)
  }

  ghost predicate Placed(names: seq<Option<string>>, free: set<int>, live: map<nat, Rule>, got: seq<nat>,
                         rules: seq<Rule>, name: string) {
    && FreeIs(names, free)
    && (forall i: nat :: i in live <==> SlotAt(names, i).Some?)
    && Ascending(got) && |got| == |rules|
    && (forall k :: 0 <= k < |got| ==> got[k] in live && live[got[k]] == rules[k])
    && (forall k :: 0 <= k < |got| ==> got[k] < |names| && names[got[k]] == Some(name))
    && (forall k, x :: 0 <= k < |got| && x in free ==> got[k] < x)
  }

  /** The ruleset's rules apart, nothing has changed. */
  ghost predicate Grown(names0: seq<Option<string>>, live0: map<nat, Rule>, names: seq<Option<string>>,
                        live: map<nat, Rule>, got: seq<nat>) {
    && (forall i: nat :: i !in got ==> SlotAt(names, i) == SlotAt(names0, i))
    && (forall i :: i in live <==> i in live0 || i in got)
    && (forall i :: i in live0 ==> live[i] == live0[i])
    && (forall i :: i in got ==> i !in live0)
  }

  lemma FillNext(t: Tables, names: seq<Option<string>>, free: set<int>, live: map<nat, Rule>,
                 got: seq<nat>, rules: seq<Rule>, name: string, rule: Rule)
    requires Filling(t, names, free, live, got, rules, name) && IsRule(rule)
    ensures var id := FirstFree(free, |names|, 0);
            && id <= |names| && id !in live
            && Filling(AddRule(t, id, rule), Fill(names, id, name), free - {id}, live[id := rule],
                       got + [id], rules + [rule], name)
  {
    PlaceNext(names, free, live, got, rules, name, rule);
    AddRuleHolds(t, live, FirstFree(free, |names|, 0), rule);
  }

  lemma PlaceNext(names: seq<Option<string>>, free: set<int>, live: map<nat, Rule>, got: seq<nat>,
                  rules: seq<Rule>, name: string, rule: Rule)
    requires Placed(names, free, live, got, rules, name)
    ensures var id := FirstFree(free, |names|, 0);
            && id <= |names| && id !in live
            && Placed(Fill(names, id, name), free - {id}, live[id := rule], got + [id], rules + [rule], name)
  {
    var id := FirstFree(free, |names|, 0);
    FillIs(names, free, name);
    FirstFreeIs(free, |names|, 0);
    assert forall k :: 0 <= k < |got| ==> got[k] < id;
    var got' := got + [id];
    assert forall k :: 0 <= k < |got'| ==> got'[k] == if k < |got| then got[k] else id;
  }

  lemma GrownNext(names0: seq<Option<string>>, live0: map<nat, Rule>, names: seq<Option<string>>, free: set<int>,
                  live: map<nat, Rule>, got: seq<nat>, name: string, rule: Rule)
    requires Grown(names0, live0, names, live, got) && FreeIs(names, free)
    requires FirstFree(free, |names|, 0) !in live
    ensures var id := FirstFree(free, |names|, 0);
            id <= |names| && Grown(names0, live0, Fill(names, id, name), live[id := rule], got + [id])
  {
    FillIs(names, free, name);
  }

  lemma OrderIsBelow(names: seq<Option<string>>, rulesets: map<string, Entry>, live: map<nat, Rule>, name: string,
                     order: seq<nat>)
    requires NamesAre(names, rulesets, live) && name in rulesets && Owns(rulesets[name], order, live)
    ensures forall j :: 0 <= j < |order| ==> order[j] < |names|
  {
    forall j | 0 <= j < |order| ensures order[j] < |names| {
      assert order[j] in rulesets[name].ids;
      assert SlotAt(names, order[j]) == Some(name);
    }
  }

  /** The state without a ruleset, `cleared` being the names without its ids. */
  lemma RemovedIsValid(t: Tables, names: seq<Option<string>>, free: set<int>, rulesets: map<string, Entry>,
                       orders: map<string, seq<nat>>, live: map<nat, Rule>, name: string, cleared: seq<Option<string>>)
    requires Valid(t, names, free, rulesets, orders, live) && name in rulesets && |cleared| == |names|
    requires forall i :: 0 <= i < |names| ==> cleared[i] == if i in rulesets[name].ids then None else names[i]
    ensures Valid(RemoveRules(t, orders[name], rulesets[name].rules), Trimmed(cleared),
                  Below(free + rulesets[name].ids, |Trimmed(cleared)|), rulesets - {name}, orders - {name},
                  Minus(live, orders[name]))
  {
    var e, order := rulesets[name], orders[name];
    RemoveRulesHolds(t, live, order, e.rules);
    OthersOwn(names, rulesets, orders, live, name);
    ClearedNames(names, free, rulesets, live, name, order, cleared);
    TrimmedNames(cleared, rulesets - {name}, Minus(live, order));
    TrimmedIs(cleared);
    TrimmedFree(cleared, free + e.ids);
  }

  /** The loop of `insert` over the rules: an id for each, the lowest free one or a new one, and its entries. */
  method AddEach(t0: Tables, names0: seq<Option<string>>, free0: set<int>, name: string, rules: seq<Rule>,
                 ghost live0: map<nat, Rule>)
    returns (t: Tables, names: seq<Option<string>>, free: set<int>, ids: set<nat>, ghost live: map<nat, Rule>,
             ghost got: seq<nat>)
    requires Filling(t0, names0, free0, live0, [], [], name)
    requires forall i :: 0 <= i < |rules| ==> IsRule(rules[i])
    ensures Filling(t, names, free, live, got, rules, name) && Grown(names0, live0, names, live, got)
    ensures forall x :: x in ids <==> x in got
  {
    t, names, free, ids, live, got := t0, names0, free0, {}, live0, [];
    var k := 0;
    while k < |rules|
      invariant 0 <= k <= |rules| && (forall x :: x in ids <==> x in got)
      invariant Filling(t, names, free, live, got, rules[..k], name) && Grown(names0, live0, names, live, got)
    {
      assert rules[..k] + [rules[k]] == rules[..k + 1];
      t, names, free, ids, live, got :=
        AddOne(t, names, free, ids, name, rules[k], names0, live0, live, got, rules[..k]);
      k := k + 1;
    }
    assert rules[..k] == rules;
  }

  /** One rule of the loop. */
  method AddOne(t0: Tables, names0: seq<Option<string>>, free0: set<int>, ids0: set<nat>, name: string, rule: Rule,
                ghost start: seq<Option<string>>, ghost before: map<nat, Rule>, ghost live0: map<nat, Rule>,
                ghost got0: seq<nat>, ghost rules: seq<Rule>)
    returns (t: Tables, names: seq<Option<string>>, free: set<int>, ids: set<nat>, ghost live: map<nat, Rule>,
             ghost got: seq<nat>)
    requires Filling(t0, names0, free0, live0, got0, rules, name) && IsRule(rule)
    requires Grown(start, before, names0, live0, got0) && forall x :: x in ids0 <==> x in got0
    ensures Filling(t, names, free, live, got, rules + [rule], name)
    ensures Grown(start, before, names, live, got) && forall x :: x in ids <==> x in got
  {
    FillNext(t0, names0, free0, live0, got0, rules, name, rule);
    GrownNext(start, before, names0, free0, live0, got0, name, rule);
    var id := NextSlot(free0, |names0|);
    t, names, free, ids := AddRule(t0, id, rule), Fill(names0, id, name), free0 - {id}, ids0 + {id};
    live, got := live0[id := rule], got0 + [id];
  }

  lemma InsertedNames(names0: seq<Option<string>>, rulesets: map<string, Entry>, live0: map<nat, Rule>,
                      names: seq<Option<string>>, live: map<nat, Rule>, got: seq<nat>, name: string, e: Entry)
    requires NamesAre(names0, rulesets, live0) && name !in rulesets && Grown(names0, live0, names, live, got)
    requires forall x :: x in e.ids <==> x in got
    requires forall k :: 0 <= k < |got| ==> SlotAt(names, got[k]) == Some(name)
    requires forall i: nat :: i in live <==> SlotAt(names, i).Some?
    ensures NamesAre(names, rulesets[name := e], live)
  {
    assert forall i: nat :: i in got ==> SlotAt(names, i) == Some(name);
    assert forall i: nat :: i in got ==> SlotAt(names0, i).None?;
  }

  lemma InsertedOwns(rulesets: map<string, Entry>, orders: map<string, seq<nat>>, live0: map<nat, Rule>,
                     live: map<nat, Rule>, got: seq<nat>, name: string, e: Entry)
    requires AllOwn(rulesets, orders, live0) && Owns(e, got, live)
    requires forall i :: i in live0 ==> i in live && live[i] == live0[i]
    ensures AllOwn(rulesets[name := e], orders[name := got], live)
  {
  }

  lemma InsertedIsValid(t0: Tables, names0: seq<Option<string>>, free0: set<int>, rulesets: map<string, Entry>,
                        orders: map<string, seq<nat>>, live0: map<nat, Rule>, t: Tables, names: seq<Option<string>>,
                        free: set<int>, live: map<nat, Rule>, got: seq<nat>, name: string, e: Entry)
    requires Valid(t0, names0, free0, rulesets, orders, live0) && name !in rulesets
    requires Filling(t, names, free, live, got, e.rules, name) && Grown(names0, live0, names, live, got)
    requires forall x :: x in e.ids <==> x in got
    ensures Valid(t, Trimmed(names), Below(free, |Trimmed(names)|), rulesets[name := e], orders[name := got], live)
  {
    InsertedNames(names0, rulesets, live0, names, live, got, name, e);
    InsertedOwns(rulesets, orders, live0, live, got, name, e);
    TrimmedNames(names, rulesets[name := e], live);
    TrimmedIs(names);
    TrimmedFree(names, free);
  }

  /** The first set bit. */
  method Lowest(ids: set<nat>, n: nat) returns (r: Option<nat>)
    requires forall i :: i in ids ==> i < n
    ensures r.None? ==> ids == {}
    ensures r.Some? ==> r.value in ids && forall i :: i in ids ==> r.value <= i
  {
    var i := 0;
    while i < n
      invariant 0 <= i <= n && forall j :: j in ids ==> j >= i
    {
      if i in ids { return Some(i); }
      i := i + 1;
    }
    r := None;
  }

  /** The lowest id of the rules that are found. */
  ghost predicate IsLowest(live: map<nat, Rule>, id: nat, pk: Packet, caps: seq<string>)
    requires AllRules(live) && IsPacket(pk)
  {
    FilterFinds(live, id, pk, caps) && forall j :: FilterFinds(live, j, pk, caps) ==> id <= j
  }

  class BartFilter {
    var tables: Tables
    var names: seq<Option<string>>
    var free: set<int>
    var rulesets: map<string, Entry>
    /** The rules, by id. */
    ghost var live: map<nat, Rule>
    /** The ids of each ruleset's rules, in turn. */
    ghost var orders: map<string, seq<nat>>

    ghost predicate Ok()
      reads this
    {
      Valid(tables, names, free, rulesets, orders, live)
    }

    constructor ()
      ensures Ok() && rulesets == map[]
    {
      tables, names, free, rulesets := Tables(map[], map[], map[], {}), [], {}, map[];
      live, orders := map[], map[];
    }

    method Remove(name: string)
      requires Ok()
      modifies this
      ensures Ok() && rulesets == old(rulesets) - {name}
    {
      if name in rulesets {
        RemoveEntry(name, rulesets[name]);
      } else {
        assert rulesets - {name} == rulesets;
      }
    }

    method Insert(name: string, rules: seq<Rule>)
      requires Ok() && forall i :: 0 <= i < |rules| ==> IsRule(rules[i])
      modifies this
      ensures Ok() && name in rulesets && rulesets[name].rules == rules
      ensures rulesets - {name} == old(rulesets) - {name}
    {
      Remove(name);
      AddEntry(name, rules);
      assert rulesets - {name} == old(rulesets) - {name};
    }

    method AddEntry(name: string, rules: seq<Rule>)
      requires Ok() && name !in rulesets && forall i :: 0 <= i < |rules| ==> IsRule(rules[i])
      modifies this
      ensures Ok() && name in rulesets && rulesets[name].rules == rules
      ensures rulesets - {name} == old(rulesets)
    {
      var t, more, left, ids;
      ghost var live', got;
      t, more, left, ids, live', got := AddEach(tables, names, free, name, rules, live);
      var e := Entry(rules, ids);
      InsertedIsValid(tables, names, free, rulesets, orders, live, t, more, left, live', got, name, e);
      var kept := PopEmpty(more);
      assert rulesets[name := e] - {name} == rulesets;
      Become(t, kept, Below(left, |kept|), rulesets[name := e], live', orders[name := got]);
    }

    /** All fields at once. */
    method Become(t: Tables, nms: seq<Option<string>>, fr: set<int>, rs: map<string, Entry>,
                  ghost lv: map<nat, Rule>, ghost os: map<string, seq<nat>>)
      requires Valid(t, nms, fr, rs, os, lv)
      modifies this
      ensures Ok() && rulesets == rs
    {
      tables, names, free, rulesets, live, orders := t, nms, fr, rs, lv, os;
    }

    method Clear()
      modifies this
      ensures Ok() && rulesets == map[]
    {
      tables, names, free, rulesets := Tables(map[], map[], map[], {}), [], {}, map[];
      live, orders := map[], map[];
    }

    /** `match_for`: the ruleset of the lowest rule that is found. */
    method MatchFor(pk: Packet, caps: seq<string>) returns (r: Option<string>)
      requires Ok() && IsPacket(pk)
      ensures r.None? <==> forall id :: !FilterFinds(live, id, pk, caps)
      ensures r.Some? ==> r.value in rulesets
      ensures r.Some? ==> exists id :: id in rulesets[r.value].ids && IsLowest(live, id, pk, caps)
    {
      var ids := FilterTables.Lookup(tables, pk, caps);
      forall id ensures id in ids <==> FilterFinds(live, id, pk, caps) { LookupFinds(tables, live, pk, caps, id); }
      assert forall id: nat :: id in ids ==> SlotAt(names, id).Some?;
      var first := Lowest(ids, |names|);
      r := if first.Some? then names[first.value] else None;
      if first.Some? { assert SlotAt(names, first.value) == r && IsLowest(live, first.value, pk, caps); }
    }

    method RemoveEntry(name: string, e: Entry)
      requires Ok() && name in rulesets && e == rulesets[name]
      modifies this
      ensures Ok() && rulesets == old(rulesets) - {name}
    {
      OrderIsBelow(names, rulesets, live, name, orders[name]);
      var cleared := ClearNames(names, e.ids);
      RemovedIsValid(tables, names, free, rulesets, orders, live, name, cleared);
      var left := RemoveEach(tables, e, |names|, orders[name]);
      var kept := PopEmpty(cleared);
      Become(left, kept, Below(free + e.ids, |kept|), rulesets - {name}, Minus(live, orders[name]), orders - {name});
    }
  }

  /** The live rules are the rules of the rulesets. */
  lemma LiveIsRulesets(t: Tables, names: seq<Option<string>>, free: set<int>, rulesets: map<string, Entry>,
                       orders: map<string, seq<nat>>, live: map<nat, Rule>, id: nat)
    returns (nm: string, k: int)
    requires Valid(t, names, free, rulesets, orders, live) && id in live
    ensures nm in rulesets && 0 <= k < |rulesets[nm].rules| && rulesets[nm].rules[k] == live[id]
  {
    nm := SlotAt(names, id).value;
    assert id in rulesets[nm].ids;
    assert id in orders[nm];
    k :| 0 <= k < |orders[nm]| && orders[nm][k] == id;
  }

  /** Some rule of some ruleset matches the packet. */
  ghost predicate Accepts(rulesets: map<string, Entry>, pk: Packet, caps: seq<string>)
    requires IsPacket(pk)
  {
    exists nm, k :: nm in rulesets && 0 <= k < |rulesets[nm].rules| && IsRule(rulesets[nm].rules[k])
                    && Rules.Matches(rulesets[nm].rules[k], pk, caps)
  }

  /** Some live rule admits the packet by a range one port short only. */
  ghost predicate SomeLetIn(live: map<nat, Rule>, pk: Packet, caps: seq<string>)
    requires AllRules(live) && IsPacket(pk)
  {
    exists id :: id in live && LetIn(live, id, pk, caps)
  }

  /** Every live rule that matches is hidden. */
  ghost predicate AllHidden(live: map<nat, Rule>, pk: Packet, caps: seq<string>)
    requires AllRules(live) && IsPacket(pk)
  {
    forall id :: id in live && Rules.Matches(live[id], pk, caps) ==> Hidden(live, id, pk, caps)
  }

  ghost predicate Finds(live: map<nat, Rule>, pk: Packet, caps: seq<string>)
    requires AllRules(live) && IsPacket(pk)
  {
    exists id :: FilterFinds(live, id, pk, caps)
  }

  lemma AcceptsIsLive(t: Tables, names: seq<Option<string>>, free: set<int>, rulesets: map<string, Entry>,
                      orders: map<string, seq<nat>>, live: map<nat, Rule>, pk: Packet, caps: seq<string>)
    requires Valid(t, names, free, rulesets, orders, live) && IsPacket(pk)
    ensures Accepts(rulesets, pk, caps) <==> exists id :: id in live && Rules.Matches(live[id], pk, caps)
  {
    if id :| id in live && Rules.Matches(live[id], pk, caps) {
      var nm, k := LiveIsRulesets(t, names, free, rulesets, orders, live, id);
    }
    if nm, k :| nm in rulesets && 0 <= k < |rulesets[nm].rules| && IsRule(rulesets[nm].rules[k])
                && Rules.Matches(rulesets[nm].rules[k], pk, caps) {
      assert Owns(rulesets[nm], orders[nm], live);
      assert live[orders[nm][k]] == rulesets[nm].rules[k];
    }
  }

  lemma FindsIs(live: map<nat, Rule>, pk: Packet, caps: seq<string>)
    requires AllRules(live) && IsPacket(pk)
    ensures Finds(live, pk, caps) <==> SomeLetIn(live, pk, caps) || !AllHidden(live, pk, caps)
  {
    forall id | id in live
      ensures FilterFinds(live, id, pk, caps) <==>
        LetIn(live, id, pk, caps) || (Rules.Matches(live[id], pk, caps) && !Hidden(live, id, pk, caps))
    {
      LongerPrefixHides(live, id, pk, caps);
      ShortRangeLetsIn(live, id, pk, caps);
    }
  }

  /** In any state the operations reach, the filter turns away a packet that some rule of some ruleset matches
      exactly when every such rule is hidden and no range one port short lets it in; and it takes a packet that
      none matches exactly when such a range lets it in. */
  lemma FilterDecides(t: Tables, names: seq<Option<string>>, free: set<int>, rulesets: map<string, Entry>,
                      orders: map<string, seq<nat>>, live: map<nat, Rule>, pk: Packet, caps: seq<string>)
    requires Valid(t, names, free, rulesets, orders, live) && IsPacket(pk)
    ensures Accepts(rulesets, pk, caps) ==>
            (!Finds(live, pk, caps) <==> AllHidden(live, pk, caps) && !SomeLetIn(live, pk, caps))
    ensures !Accepts(rulesets, pk, caps) ==> (Finds(live, pk, caps) <==> SomeLetIn(live, pk, caps))
  {
    AcceptsIsLive(t, names, free, rulesets, orders, live, pk, caps);
    FindsIs(live, pk, caps);
  }

  /** So it decides as the reference does where no rule is shadowed at the packet's source and no range is one
      port short of all of them. */
  lemma FilterDecidesWhen(t: Tables, names: seq<Option<string>>, free: set<int>, rulesets: map<string, Entry>,
                          orders: map<string, seq<nat>>, live: map<nat, Rule>, pk: Packet, caps: seq<string>)
    requires Valid(t, names, free, rulesets, orders, live) && IsPacket(pk)
    requires forall id :: id in live ==> !Shadowed(live, id, pk.src)
    requires forall id, i :: id in live && 0 <= i < |live[id].dsts| ==> !OnePortShort(live[id].dsts[i].ports)
    ensures Finds(live, pk, caps) <==> Accepts(rulesets, pk, caps)
  {
    FilterDecides(t, names, free, rulesets, orders, live, pk, caps);
    AcceptsIsLive(t, names, free, rulesets, orders, live, pk, caps);
  }
}
