/** A table of slots with a free list: ids are slot numbers, the lowest free one is taken first, and empty
    slots at the end are dropped. */
module Slots {
  import opened Wrappers

  /** What slot `i` holds; a slot past the end is empty. */
  function SlotAt<V>(slots: seq<Option<V>>, i: int): Option<V> {
    if 0 <= i < |slots| then slots[i] else None
  }

  /** The free list is exactly the set of empty slots. */
  ghost predicate FreeIs<V>(slots: seq<Option<V>>, free: set<int>) {
    forall i :: i in free <==> 0 <= i < |slots| && slots[i].None?
  }

  /** The table is empty or ends in a live slot. */
  predicate IsCompact<V>(slots: seq<Option<V>>) { slots != [] ==> slots[|slots| - 1].Some? }

  /** `pop_freelist` takes the first free id at or after `i`. */
  function FirstFree(free: set<int>, n: nat, i: nat): nat
    decreases n - i
  {
    if i >= n || i in free then i else FirstFree(free, n, i + 1)
  }

  lemma {:induction false} FirstFreeAtMost(free: set<int>, n: nat, i: nat)
    requires i <= n
    ensures FirstFree(free, n, i) <= n
    decreases n - i
  {
    if i < n && i !in free { FirstFreeAtMost(free, n, i + 1); }
  }

  lemma {:induction false} FirstFreeIs(free: set<int>, n: nat, i: nat)
    requires i <= n && forall x :: x in free ==> 0 <= x < n
    ensures var f := FirstFree(free, n, i);
            f <= n && (f < n ==> f in free) && forall x :: x in free && x >= i ==> f <= x && f < n
    decreases n - i
  {
    if i < n && i !in free { FirstFreeIs(free, n, i + 1); }
  }

  /** `compact` pops empty slots off the end. */
  function Trimmed<V>(slots: seq<Option<V>>): seq<Option<V>> {
    if slots == [] || slots[|slots| - 1].Some? then slots else Trimmed(slots[..|slots| - 1])
  }

  lemma TrimmedStep<V>(slots: seq<Option<V>>)
    requires slots != [] && slots[|slots| - 1].None?
    ensures Trimmed(slots) == Trimmed(slots[..|slots| - 1])
  {
  }

  lemma {:induction false} TrimmedIs<V>(slots: seq<Option<V>>)
    ensures IsCompact(Trimmed(slots)) && |Trimmed(slots)| <= |slots|
  {
    if slots != [] && slots[|slots| - 1].None? { TrimmedIs(slots[..|slots| - 1]); }
  }

  lemma {:induction false} TrimmedHolds<V>(slots: seq<Option<V>>, i: int)
    ensures SlotAt(Trimmed(slots), i) == SlotAt(slots, i)
  {
    if slots != [] && slots[|slots| - 1].None? { TrimmedHolds(slots[..|slots| - 1], i); }
  }

  function Below(free: set<int>, n: nat): set<int> { set i | i in free && i < n }

  lemma TrimmedFree<V>(slots: seq<Option<V>>, free: set<int>)
    requires FreeIs(slots, free)
    ensures FreeIs(Trimmed(slots), Below(free, |Trimmed(slots)|))
  {
    TrimmedIs(slots);
    forall i ensures SlotAt(Trimmed(slots), i) == SlotAt(slots, i) { TrimmedHolds(slots, i); }
    assert forall i :: 0 <= i < |Trimmed(slots)| ==> Trimmed(slots)[i] == SlotAt(Trimmed(slots), i) == slots[i];
  }

  /** Slot `id`, free or next after the end, is filled. */
  function Fill<V>(slots: seq<Option<V>>, id: nat, v: V): seq<Option<V>>
    requires id <= |slots|
  {
    if id < |slots| then slots[id := Some(v)] else slots + [Some(v)]
  }

  lemma FillIs<V>(slots: seq<Option<V>>, free: set<int>, v: V)
    requires FreeIs(slots, free)
    ensures var id := FirstFree(free, |slots|, 0);
            && id <= |slots| && SlotAt(slots, id).None? && (forall x :: x in free ==> id <= x)
            && FreeIs(Fill(slots, id, v), free - {id})
            && forall i :: SlotAt(Fill(slots, id, v), i) == if i == id then Some(v) else SlotAt(slots, i)
  {
    FirstFreeIs(free, |slots|, 0);
  }

  /** `pop_freelist` */
  method PopFree(free: set<int>, n: nat) returns (id: Option<nat>, left: set<int>)
    ensures var f := FirstFree(free, n, 0);
            if f < n then id == Some(f) && left == free - {f} else id == None && left == free
  {
    var i := 0;
    while i < n
      invariant 0 <= i <= n && FirstFree(free, n, 0) == FirstFree(free, n, i)
    {
      if i in free { return Some(i), free - {i}; }
      i := i + 1;
    }
    id, left := None, free;
  }

  /** The id a new entry gets: the first free one, or one more. */
  method NextSlot(free: set<int>, n: nat) returns (id: nat)
    ensures id == FirstFree(free, n, 0)
  {
    FirstFreeAtMost(free, n, 0);
    var popped, left := PopFree(free, n);
    id := if popped.Some? then popped.value else n;
  }

  /** The loop of `compact`. */
  method PopEmpty<V>(slots: seq<Option<V>>) returns (t: seq<Option<V>>)
    ensures t == Trimmed(slots)
  {
    t := slots;
    while t != [] && t[|t| - 1].None?
      invariant Trimmed(t) == Trimmed(slots)
      decreases |t|
    {
      t := t[..|t| - 1];
    }
  }
}
