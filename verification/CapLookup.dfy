/** Capability lookup (`ts_bart_packetfilter`, `cap_lookup`): an id allocator with a free list and tail
    compaction that stands for a plain map from capability name to rule set. */
module CapLookup {
  import opened Wrappers
  import opened Slots

  /** The three fields, as values. */
  datatype State = State(ids: map<string, nat>, slots: seq<Option<set<nat>>>, free: set<int>)

  /** Ids are injective and name a live slot, a live slot holds a non-empty rule set, and the free list is
      exactly the set of empty slots. */
  ghost predicate Integrity(s: State) {
    && IdsAreLive(s.ids, s.slots) && IdsDiffer(s.ids) && NoEmptySlots(s.slots) && FreeIs(s.slots, s.free)
    && |s.ids| + |s.free| == |s.slots|
  }

  ghost predicate IdsDiffer(ids: map<string, nat>) {
    forall c, d :: c in ids && d in ids && ids[c] == ids[d] ==> c == d
  }

  ghost predicate NoEmptySlots(slots: seq<Option<set<nat>>>) {
    forall i :: 0 <= i < |slots| && slots[i].Some? ==> slots[i].value != {}
  }

  ghost predicate IdsAreLive(ids: map<string, nat>, slots: seq<Option<set<nat>>>) {
    forall c :: c in ids ==> ids[c] < |slots| && slots[ids[c]].Some?
  }

  /** A state with integrity: what the fields hold between two calls. */
  type Table = s: State | Integrity(s) ghost witness State(map[], [], {})

  ghost const EMPTY: Table := State(map[], [], {})

  /** The map the three fields stand for. */
  ghost function Model(s: Table): map<string, set<nat>> { map c | c in s.ids :: s.slots[s.ids[c]].value }

  function RulesOf(m: map<string, set<nat>>, name: string): set<nat> { if name in m then m[name] else {} }

  lemma NewName(ids: map<string, nat>, name: string, id: nat)
    requires name !in ids
    ensures |ids[name := id]| == |ids| + 1
  {
    assert ids[name := id].Keys == ids.Keys + {name};
    assert |ids| == |ids.Keys| && |ids[name := id]| == |ids[name := id].Keys|;
  }

  lemma GoneName(ids: map<string, nat>, name: string)
    requires name in ids
    ensures |ids - {name}| == |ids| - 1
  {
    assert (ids - {name}).Keys == ids.Keys - {name};
    assert |ids| == |ids.Keys| && |ids - {name}| == |(ids - {name}).Keys|;
  }

  /** The rules of a known name are replaced by another non-empty set. */
  ghost function Reset(s: Table, name: string, rules: set<nat>): Table
    requires name in s.ids && rules != {}
  {
    s.(slots := s.slots[s.ids[name] := Some(rules)])
  }

  /** A new name takes a free id. */
  ghost function Reuse(s: Table, name: string, id: nat, rule: nat): Table
    requires name !in s.ids && id in s.free
  {
    NewName(s.ids, name, id);
    ReusedFree(s.slots, s.free, id, {rule});
    State(s.ids[name := id], s.slots[id := Some({rule})], s.free - {id})
  }

  lemma ReusedFree(slots: seq<Option<set<nat>>>, free: set<int>, id: nat, rules: set<nat>)
    requires FreeIs(slots, free) && id in free
    ensures FreeIs(slots[id := Some(rules)], free - {id}) && |free - {id}| == |free| - 1
  {
  }

  /** A new name takes a new slot at the end. */
  ghost function Push(s: Table, name: string, rule: nat): Table
    requires name !in s.ids
  {
    NewName(s.ids, name, |s.slots|);
    PushedSlots(s.ids, s.slots, s.free, name, {rule});
    State(s.ids[name := |s.slots|], s.slots + [Some({rule})], s.free)
  }

  lemma PushedSlots(ids: map<string, nat>, slots: seq<Option<set<nat>>>, free: set<int>, name: string, rules: set<nat>)
    requires IdsAreLive(ids, slots) && FreeIs(slots, free)
    ensures IdsAreLive(ids[name := |slots|], slots + [Some(rules)]) && FreeIs(slots + [Some(rules)], free)
  {
  }

  /** A name gives up its slot. */
  ghost function Release(s: Table, name: string): Table
    requires name in s.ids
  {
    ReleaseKeeps(s, name);
    State(s.ids - {name}, s.slots[s.ids[name] := None], s.free + {s.ids[name]})
  }

  lemma ReleaseKeeps(s: Table, name: string)
    requires name in s.ids
    ensures Integrity(State(s.ids - {name}, s.slots[s.ids[name] := None], s.free + {s.ids[name]}))
  {
    GoneName(s.ids, name);
    ReleasedFree(s.slots, s.free, s.ids[name]);
    ReleasedIds(s.ids, s.slots, name);
  }

  lemma ReleasedFree(slots: seq<Option<set<nat>>>, free: set<int>, id: nat)
    requires FreeIs(slots, free) && id < |slots| && slots[id].Some?
    ensures FreeIs(slots[id := None], free + {id}) && |free + {id}| == |free| + 1
  {
    assert id !in free;
  }

  lemma ReleasedIds(ids: map<string, nat>, slots: seq<Option<set<nat>>>, name: string)
    requires IdsAreLive(ids, slots) && name in ids
    requires IdsDiffer(ids)
    ensures IdsDiffer(ids - {name})
    ensures IdsAreLive(ids - {name}, slots[ids[name] := None])
  {
  }

  /** An empty last slot goes, and its id leaves the free list. */
  ghost function Trim(s: Table): Table
    requires s.slots != [] && s.slots[|s.slots| - 1].None?
  {
    TrimKeeps(s);
    s.(slots := s.slots[..|s.slots| - 1], free := s.free - {|s.slots| - 1})
  }

  lemma TrimKeeps(s: Table)
    requires s.slots != [] && s.slots[|s.slots| - 1].None?
    ensures Integrity(s.(slots := s.slots[..|s.slots| - 1], free := s.free - {|s.slots| - 1}))
  {
    TrimFree(s.slots, s.free);
    TrimIds(s.ids, s.slots);
    TrimFull(s.slots);
  }

  lemma TrimFull(slots: seq<Option<set<nat>>>)
    requires NoEmptySlots(slots) && slots != []
    ensures NoEmptySlots(slots[..|slots| - 1])
  {
  }

  lemma TrimFree(slots: seq<Option<set<nat>>>, free: set<int>)
    requires FreeIs(slots, free) && slots != [] && slots[|slots| - 1].None?
    ensures FreeIs(slots[..|slots| - 1], free - {|slots| - 1}) && |free - {|slots| - 1}| == |free| - 1
  {
    assert |slots| - 1 in free;
  }

  lemma TrimIds(ids: map<string, nat>, slots: seq<Option<set<nat>>>)
    requires IdsAreLive(ids, slots) && slots != [] && slots[|slots| - 1].None?
    ensures IdsAreLive(ids, slots[..|slots| - 1])
  {
    forall c | c in ids ensures ids[c] < |slots| - 1 { assert slots[ids[c]].Some?; }
  }

  /** `compact`: trim while the last slot is empty. */
  ghost function Compacted(s: Table): Table
    decreases |s.slots|
  {
    if s.slots == [] || s.slots[|s.slots| - 1].Some? then s else Compacted(Trim(s))
  }

  lemma {:induction false} CompactedIs(s: Table)
    ensures Compacted(s).ids == s.ids
    decreases |s.slots|
  {
    if s.slots != [] && s.slots[|s.slots| - 1].None? {
      CompactedStep(s);
      CompactedIs(Trim(s));
    }
  }

  lemma {:induction false} CompactedModels(s: Table)
    ensures Model(Compacted(s)) == Model(s)
    decreases |s.slots|
  {
    if s.slots != [] && s.slots[|s.slots| - 1].None? {
      CompactedStep(s);
      TrimModels(s);
      CompactedModels(Trim(s));
    }
  }

  lemma {:induction false} CompactedSlots(s: Table)
    ensures Compacted(s).slots == Trimmed(s.slots)
    decreases |s.slots|
  {
    if s.slots != [] && s.slots[|s.slots| - 1].None? {
      CompactedStep(s);
      TrimmedStep(s.slots);
      CompactedSlots(Trim(s));
    }
  }

  lemma CompactedStep(s: Table)
    requires s.slots != [] && s.slots[|s.slots| - 1].None?
    ensures Compacted(s) == Compacted(Trim(s))
    ensures Trim(s).slots == s.slots[..|s.slots| - 1] && Trim(s).ids == s.ids
  {
  }

  lemma CompactedFree(s: Table, i: int)
    ensures i in Compacted(s).free <==> i in s.free && i < |Trimmed(s.slots)|
  {
    CompactedSlots(s);
    TrimmedIs(s.slots);
    TrimmedHolds(s.slots, i);
  }

  lemma CompactedFields(s: Table)
    ensures Compacted(s) == State(s.ids, Trimmed(s.slots), Below(s.free, |Trimmed(s.slots)|))
  {
    CompactedIs(s);
    CompactedSlots(s);
    var free := Below(s.free, |Trimmed(s.slots)|);
    forall i ensures i in free <==> i in Compacted(s).free { CompactedFree(s, i); }
    assert free == Compacted(s).free;
  }

  lemma TrimModels(s: Table)
    requires s.slots != [] && s.slots[|s.slots| - 1].None?
    ensures Model(Trim(s)) == Model(s)
  {
    forall c | c in s.ids ensures s.slots[s.ids[c]] == Trim(s).slots[s.ids[c]] { assert s.slots[s.ids[c]].Some?; }
  }

  /** `insert`: a known name is marked; a new one takes the first free id, and a new slot only when there is
      none. */
  ghost function Inserted(s: Table, name: string, rule: nat): Table {
    if name in s.ids then Reset(s, name, s.slots[s.ids[name]].value + {rule})
    else
      FirstFreeIs(s.free, |s.slots|, 0);
      var id := FirstFree(s.free, |s.slots|, 0);
      if id < |s.slots| then Reuse(s, name, id, rule) else Push(s, name, rule)
  }

  /** `remove`: the name goes with its last rule, and the table is compacted. */
  ghost function Removed(s: Table, rule: nat, name: string): Table {
    if name !in s.ids then s
    else
      var rules := s.slots[s.ids[name]].value - {rule};
      Compacted(if rules == {} then Release(s, name) else Reset(s, name, rules))
  }

  lemma ResetModels(s: Table, name: string, rules: set<nat>)
    requires name in s.ids && rules != {}
    ensures Model(Reset(s, name, rules)) == Model(s)[name := rules]
  {
  }

  lemma ReuseModels(s: Table, name: string, id: nat, rule: nat)
    requires name !in s.ids && id in s.free
    ensures Model(Reuse(s, name, id, rule)) == Model(s)[name := {rule}]
  {
  }

  lemma PushModels(s: Table, name: string, rule: nat)
    requires name !in s.ids
    ensures Model(Push(s, name, rule)) == Model(s)[name := {rule}]
  {
  }

  lemma ReleaseModels(s: Table, name: string)
    requires name in s.ids
    ensures Model(Release(s, name)) == Model(s) - {name}
  {
  }

  lemma NewNameModels(s: Table, name: string, rule: nat)
    requires name !in s.ids
    ensures Model(Inserted(s, name, rule)) == Model(s)[name := {rule}]
  {
    FirstFreeIs(s.free, |s.slots|, 0);
    var id := FirstFree(s.free, |s.slots|, 0);
    if id < |s.slots| { ReuseModels(s, name, id, rule); } else { PushModels(s, name, rule); }
  }

  /** On the map, an insertion adds the rule under the name. */
  lemma InsertedModels(s: Table, name: string, rule: nat)
    ensures Model(Inserted(s, name, rule)) == Apply(Model(s), Insert(name, rule))
  {
    if name in s.ids {
      ResetModels(s, name, s.slots[s.ids[name]].value + {rule});
    } else {
      NewNameModels(s, name, rule);
      assert RulesOf(Model(s), name) + {rule} == {rule};
    }
  }

  lemma InsertedCompact(s: Table, name: string, rule: nat)
    requires IsCompact(s.slots)
    ensures IsCompact(Inserted(s, name, rule).slots)
  {
    if name in s.ids {
      UpdatedCompact(s.slots, s.ids[name], s.slots[s.ids[name]].value + {rule});
    } else {
      var id := FirstFree(s.free, |s.slots|, 0);
      if id < |s.slots| { UpdatedCompact(s.slots, id, {rule}); }
    }
  }

  lemma UpdatedCompact(slots: seq<Option<set<nat>>>, i: nat, rules: set<nat>)
    requires IsCompact(slots) && i < |slots|
    ensures IsCompact(slots[i := Some(rules)])
  {
  }

  /** An insertion moves no id, and the table gets longer only if every slot is then live. */
  lemma InsertedGrows(s: Table, name: string, rule: nat)
    ensures var t := Inserted(s, name, rule);
            && (|t.slots| == |s.slots| || |t.slots| == |t.ids|)
            && (forall c :: c in s.ids ==> c in t.ids && t.ids[c] == s.ids[c])
  {
    if name !in s.ids {
      FirstFreeIs(s.free, |s.slots|, 0);
      EmptyOrMember(s.free);
    }
  }

  /** On the map, a removal takes the rule away, and the name with its last rule; the table stays compact,
      gets no longer, and no surviving id moves. */
  lemma RemovedIs(s: Table, rule: nat, name: string)
    requires IsCompact(s.slots)
    ensures var t := Removed(s, rule, name);
            && IsCompact(t.slots)
            && Model(t) == Apply(Model(s), Remove(rule, name))
            && |t.slots| <= |s.slots|
            && (forall c :: c in t.ids ==> c in s.ids && t.ids[c] == s.ids[c])
  {
    if name in s.ids {
      var rules := s.slots[s.ids[name]].value - {rule};
      if rules == {} {
        ReleaseModels(s, name);
        CompactedIs(Release(s, name));
        CompactedModels(Release(s, name));
        CompactedSlots(Release(s, name));
        TrimmedIs(Release(s, name).slots);
      } else {
        ResetModels(s, name, rules);
        CompactedIs(Reset(s, name, rules));
        CompactedModels(Reset(s, name, rules));
        CompactedSlots(Reset(s, name, rules));
        TrimmedIs(Reset(s, name, rules).slots);
      }
    }
  }

  datatype Op = Insert(name: string, rule: nat) | Remove(rule: nat, name: string) | Clear

  /** What an operation does to the plain map. */
  function Apply(m: map<string, set<nat>>, op: Op): map<string, set<nat>> {
    match op
    case Insert(name, rule) => m[name := RulesOf(m, name) + {rule}]
    case Remove(rule, name) =>
      if name !in m then m
      else if m[name] - {rule} == {} then m - {name}
      else m[name := m[name] - {rule}]
    case Clear => map[]
  }

  function After(ops: seq<Op>): map<string, set<nat>> {
    if ops == [] then map[] else Apply(After(ops[..|ops| - 1]), ops[|ops| - 1])
  }

  /** The largest number of names simultaneously live since the last clear. */
  function Peak(ops: seq<Op>): nat {
    if ops == [] || ops[|ops| - 1].Clear? then 0
    else
      var before := Peak(ops[..|ops| - 1]);
      if |After(ops)| > before then |After(ops)| else before
  }

  ghost function Step(s: Table, op: Op): Table {
    match op
    case Insert(name, rule) => Inserted(s, name, rule)
    case Remove(rule, name) => Removed(s, rule, name)
    case Clear => EMPTY
  }

  /** The table after a sequence of operations. */
  ghost function Run(ops: seq<Op>): Table {
    if ops == [] then EMPTY else Step(Run(ops[..|ops| - 1]), ops[|ops| - 1])
  }

  lemma LiveCount(s: Table)
    ensures |Model(s)| == |s.ids|
  {
    assert Model(s).Keys == s.ids.Keys;
    assert |Model(s)| == |Model(s).Keys| && |s.ids| == |s.ids.Keys|;
  }

  /** Every run refines the plain map: after any sequence of operations the table stands for what the
      operations do to the map, and it is compact. */
  lemma {:induction false} RunRefinesMap(ops: seq<Op>)
    ensures IsCompact(Run(ops).slots) && Model(Run(ops)) == After(ops)
  {
    if ops != [] {
      var before := ops[..|ops| - 1];
      RunRefinesMap(before);
      match ops[|ops| - 1] {
        case Insert(name, rule) =>
          InsertedModels(Run(before), name, rule);
          InsertedCompact(Run(before), name, rule);
        case Remove(rule, name) => RemovedIs(Run(before), rule, name);
        case Clear =>
      }
    }
  }

  /** In every run the table is no longer than the largest number of names that were live at one time since
      the last clear. */
  lemma {:induction false} RunStaysShort(ops: seq<Op>)
    ensures |Run(ops).slots| <= Peak(ops)
  {
    if ops != [] {
      var before := ops[..|ops| - 1];
      RunStaysShort(before);
      match ops[|ops| - 1] {
        case Insert(name, rule) => ShortAfterInsert(ops, name, rule);
        case Remove(rule, name) =>
          RunRefinesMap(before);
          RemovedIs(Run(before), rule, name);
        case Clear =>
      }
    }
  }

  lemma ShortAfterInsert(ops: seq<Op>, name: string, rule: nat)
    requires ops != [] && ops[|ops| - 1] == Insert(name, rule)
    requires |Run(ops[..|ops| - 1]).slots| <= Peak(ops[..|ops| - 1])
    ensures |Run(ops).slots| <= Peak(ops)
  {
    InsertedGrows(Run(ops[..|ops| - 1]), name, rule);
    RunRefinesMap(ops);
    LiveCount(Run(ops));
    PeakIs(ops);
  }

  lemma PeakIs(ops: seq<Op>)
    requires ops != [] && !ops[|ops| - 1].Clear?
    ensures Peak(ops[..|ops| - 1]) <= Peak(ops) && |After(ops)| <= Peak(ops)
  {
  }

  /** The union of the rule sets of the queried names. */
  function UnionOf(m: map<string, set<nat>>, names: seq<string>): set<nat> {
    if names == [] then {} else UnionOf(m, names[..|names| - 1]) + RulesOf(m, names[|names| - 1])
  }

  lemma {:induction false} UnionIs(m: map<string, set<nat>>, names: seq<string>, r: nat)
    ensures r in UnionOf(m, names) <==> exists c :: c in names && c in m && r in m[c]
  {
    if names != [] {
      var last, rest := names[|names| - 1], names[..|names| - 1];
      UnionIs(m, rest, r);
      assert forall c :: c in names <==> c in rest || c == last;
    }
  }

  class CapLookup {
    var ids: map<string, nat>
    var slots: seq<Option<set<nat>>>
    var free: set<int>

    ghost function Repr(): State reads this { State(ids, slots, free) }

    constructor ()
      ensures Repr() == EMPTY
    {
      ids, slots, free := map[], [], {};
    }

    method Insert(name: string, rule: nat) returns (id: nat)
      requires Integrity(Repr())
      modifies this
      ensures Repr() == Inserted(old(Repr()), name, rule)
      ensures name in ids && id == ids[name]
    {
      if name in ids {
        id := ids[name];
        slots := slots[id := Some(slots[id].value + {rule})];
        return;
      }
      var popped;
      popped, free := PopFree(free, |slots|);
      if popped.Some? {
        id := popped.value;
        ids := ids[name := id];
        slots := slots[id := Some({rule})];
      } else {
        id := |slots|;
        ids := ids[name := id];
        slots := slots + [None];
        slots := slots[id := Some({rule})];
        assert slots == old(slots) + [Some({rule})];
      }
    }

    /** `compact`: pop empty slots off the end, then forget the free ids past the end. */
    method Compact()
      requires Integrity(Repr())
      modifies this`slots, this`free
      ensures Repr() == Compacted(old(Repr()))
    {
      ghost var s: Table := Repr();
      slots := PopEmpty(slots);
      free := Below(free, |slots|);
      CompactedFields(s);
    }

    method Remove(rule: nat, name: string)
      requires Integrity(Repr())
      modifies this
      ensures Repr() == Removed(old(Repr()), rule, name)
    {
      if name !in ids { return; }
      Unmark(rule, name);
      Compact();
    }

    /** The rule goes from the name's slot, and the name with its last rule. */
    method Unmark(rule: nat, name: string)
      requires Integrity(Repr()) && name in ids
      modifies this
      ensures var s: Table := old(Repr());
              var rules := s.slots[s.ids[name]].value - {rule};
              Repr() == if rules == {} then Release(s, name) else Reset(s, name, rules)
    {
      var id := ids[name];
      var rules := slots[id].value - {rule};
      slots := slots[id := Some(rules)];
      if rules == {} {
        slots := slots[id := None];
        ids := ids - {name};
        free := free + {id};
      }
    }

    method Clear()
      modifies this
      ensures Repr() == EMPTY
    {
      slots, ids, free := [], map[], {};
    }

    /** `lookup`: fold the rule sets of the known names into one. */
    method Lookup(caps: seq<string>) returns (acc: set<nat>)
      requires Integrity(Repr())
      ensures acc == UnionOf(Model(Repr()), caps)
    {
      acc := {};
      var i := 0;
      while i < |caps|
        invariant 0 <= i <= |caps|
        invariant acc == UnionOf(Model(Repr()), caps[..i])
      {
        assert caps[..i + 1][..i] == caps[..i];
        if caps[i] in ids && ids[caps[i]] < |slots| && slots[ids[caps[i]]].Some? {
          acc := acc + slots[ids[caps[i]]].value;
        }
        i := i + 1;
      }
      assert caps[..i] == caps;
    }
  }
}
