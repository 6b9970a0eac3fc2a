/** The rank-compressed sparse array (`ts_array256`): a 256-bit occupancy set and a dense vector that
    holds the occupied values in index order. */
module Array256 {
  import opened Wrappers

  /** `Bitset256::rank256`: how many members are at most `i`. */
  function Rank(b: set<int>, i: int): (n: nat)
    decreases i + 1
  {
    if i < 0 then 0 else Rank(b, i - 1) + (if i in b then 1 else 0)
  }

  ghost predicate WellFormed<T>(b: set<int>, storage: seq<T>) {
    (forall k :: k in b ==> 0 <= k < 256) && |storage| == Rank(b, 255)
  }

  lemma {:induction false} RankMonotone(b: set<int>, i: int, j: int)
    requires -1 <= i <= j
    ensures Rank(b, i) <= Rank(b, j)
    decreases j
  {
    if i < j { RankMonotone(b, i, j - 1); }
  }

  /** `rank - 1` of an occupied index is a slot of the vector, and earlier indices have earlier
      slots. */
  lemma SlotInBounds(b: set<int>, k: int)
    requires k in b && 0 <= k < 256
    ensures 1 <= Rank(b, k) <= Rank(b, 255)
  {
    RankMonotone(b, k, 255);
  }

  lemma SlotsAreOrdered(b: set<int>, k: int, l: int)
    requires l in b && 0 <= k < l
    ensures Rank(b, k) < Rank(b, l)
  {
    RankMonotone(b, k, l - 1);
  }

  /** Every slot belongs to an occupied index. */
  lemma {:induction false} SlotOwner(b: set<int>, i: int, slot: nat) returns (k: int)
    requires -1 <= i && slot < Rank(b, i)
    ensures 0 <= k <= i && k in b && Rank(b, k) == slot + 1
    decreases i + 1
  {
    if i in b && Rank(b, i) == slot + 1 { return i; }
    k := SlotOwner(b, i - 1, slot);
  }

  lemma {:induction false} RankAfterSet(b: set<int>, k: int, i: int)
    requires k !in b && 0 <= k && -1 <= i
    ensures Rank(b + {k}, i) == Rank(b, i) + (if i >= k then 1 else 0)
    decreases i + 1
  {
    if i >= 0 { RankAfterSet(b, k, i - 1); }
  }

  /** The partial map the array stands for. */
  ghost function Contents<T>(b: set<int>, storage: seq<T>): (m: map<int, T>)
    requires WellFormed(b, storage)
  {
    map k | k in b :: At(b, storage, k)
  }

  ghost function At<T>(b: set<int>, storage: seq<T>, k: int): T
    requires WellFormed(b, storage) && k in b
  {
    SlotInBounds(b, k);
    storage[Rank(b, k) - 1]
  }

  /** Storage with a slot opened for `v` at `r`. */
  function Opened<T>(storage: seq<T>, r: nat, v: T): seq<T>
    requires r <= |storage|
  {
    storage[..r] + [v] + storage[r..]
  }

  lemma OpenedAt<T>(storage: seq<T>, r: nat, v: T, i: nat)
    requires r <= |storage| && i <= |storage|
    ensures Opened(storage, r, v)[i] == if i < r then storage[i] else if i == r then v else storage[i - 1]
  {
  }

  lemma OpenKeeps<T>(b: set<int>, storage: seq<T>, k: int, v: T, l: int)
    requires WellFormed(b, storage) && k !in b && 0 <= k < 256 && l in b && Rank(b, k) <= |storage|
    requires WellFormed(b + {k}, Opened(storage, Rank(b, k), v))
    ensures At(b + {k}, Opened(storage, Rank(b, k), v), l) == At(b, storage, l)
  {
    RankAfterSet(b, k, l);
    SlotInBounds(b, l);
    if l < k { RankMonotone(b, l, k); } else { SlotsAreOrdered(b, k, l); }
    OpenedAt(storage, Rank(b, k), v, Rank(b + {k}, l) - 1);
  }

  lemma OpenedIsWellFormed<T>(b: set<int>, storage: seq<T>, k: int, v: T)
    requires WellFormed(b, storage) && k !in b && 0 <= k < 256
    ensures Rank(b + {k}, k) - 1 == Rank(b, k) <= |storage|
    ensures WellFormed(b + {k}, Opened(storage, Rank(b, k), v))
  {
    OpenedRank(b, k);
  }

  lemma OpenedRank(b: set<int>, k: int)
    requires k !in b && 0 <= k < 256
    ensures Rank(b + {k}, k) - 1 == Rank(b, k) <= Rank(b, 255) == Rank(b + {k}, 255) - 1
  {
    RankAfterSet(b, k, 255);
    RankAfterSet(b, k, k);
    RankMonotone(b, k, 255);
  }

  /** Opening a slot for a new index leaves every other index with its value. */
  lemma OpenSlot<T>(b: set<int>, storage: seq<T>, k: int, v: T)
    requires WellFormed(b, storage) && k !in b && 0 <= k < 256
    ensures Rank(b + {k}, k) - 1 == Rank(b, k) <= |storage|
    ensures WellFormed(b + {k}, Opened(storage, Rank(b, k), v))
    ensures Contents(b + {k}, Opened(storage, Rank(b, k), v)) == Contents(b, storage)[k := v]
  {
    OpenedIsWellFormed(b, storage, k, v);
    OpenedContents(b, storage, k, v, Opened(storage, Rank(b, k), v));
  }

  lemma OpenedContents<T>(b: set<int>, storage: seq<T>, k: int, v: T, s': seq<T>)
    requires WellFormed(b, storage) && k !in b && 0 <= k < 256 && Rank(b, k) <= |storage|
    requires s' == Opened(storage, Rank(b, k), v) && WellFormed(b + {k}, s') && Rank(b + {k}, k) - 1 == Rank(b, k)
    ensures Contents(b + {k}, s') == Contents(b, storage)[k := v]
  {
    forall l | l in b ensures At(b + {k}, s', l) == At(b, storage, l) { OpenKeeps(b, storage, k, v, l); }
    OpenedAt(storage, Rank(b, k), v, Rank(b, k));
    assert At(b + {k}, s', k) == v;
  }

  /** Overwriting a slot changes one index. */
  lemma OverwriteSlot<T>(b: set<int>, storage: seq<T>, k: int, v: T)
    requires WellFormed(b, storage) && k in b
    ensures 1 <= Rank(b, k) <= |storage|
    ensures var s' := storage[Rank(b, k) - 1 := v];
            WellFormed(b, s') && Contents(b, s') == Contents(b, storage)[k := v]
  {
    SlotInBounds(b, k);
    var s' := storage[Rank(b, k) - 1 := v];
    forall l | l in b && l != k ensures At(b, s', l) == At(b, storage, l) {
      SlotInBounds(b, l);
      if l < k { SlotsAreOrdered(b, l, k); } else { SlotsAreOrdered(b, k, l); }
    }
  }

  /** Closing the slot of an index is the inverse of opening it. */
  lemma CloseSlot<T>(b: set<int>, storage: seq<T>, k: int)
    requires WellFormed(b, storage) && k in b
    ensures 1 <= Rank(b, k) <= |storage|
    ensures var s' := storage[..Rank(b, k) - 1] + storage[Rank(b, k)..];
            WellFormed(b - {k}, s') && Contents(b - {k}, s') == Contents(b, storage) - {k}
  {
    SlotInBounds(b, k);
    var r := Rank(b, k);
    var b', s' := b - {k}, storage[..r - 1] + storage[r..];
    assert b' + {k} == b;
    RankAfterSet(b', k, 255);
    RankAfterSet(b', k, k);
    OpenSlot(b', s', k, storage[r - 1]);
    Splice(storage, r - 1);
    AddedAndTaken(Contents(b', s'), k, storage[r - 1]);
  }

  lemma Splice<T>(s: seq<T>, i: nat)
    requires i < |s|
    ensures var s' := s[..i] + s[i + 1..];
            s'[..i] + [s[i]] + s'[i..] == s
  {
  }

  lemma AddedAndTaken<T>(m: map<int, T>, k: int, v: T)
    requires k !in m
    ensures m[k := v] - {k} == m
  {
  }

  /** Derived structural equality is equality of the maps. */
  lemma StructuralEqualityIsMapEquality<T>(b: set<int>, s: seq<T>, b': set<int>, s': seq<T>)
    requires WellFormed(b, s) && WellFormed(b', s')
    ensures (b == b' && s == s') <==> Contents(b, s) == Contents(b', s')
  {
    if Contents(b, s) == Contents(b', s') {
      assert b == Contents(b, s).Keys == b';
      forall i | 0 <= i < |s| ensures s[i] == s'[i] {
        var k := SlotOwner(b, 255, i);
        assert Contents(b, s)[k] == s[i] && Contents(b', s')[k] == s'[i];
      }
    }
  }

  /** The occupied entries from index `from` up, in index order. */
  function Entries<T>(b: set<int>, storage: seq<T>, from: int): (e: seq<(int, T)>)
    requires forall k :: k in b ==> 0 <= k < 256
    requires |storage| == Rank(b, 255)
    requires 0 <= from <= 256
    decreases 256 - from
  {
    if from == 256 then []
    else if from in b then
      SlotInBounds(b, from);
      [(from, storage[Rank(b, from) - 1])] + Entries(b, storage, from + 1)
    else Entries(b, storage, from + 1)
  }

  /** `iter` pairs the set bits with the vector slot by slot: the `i`-th entry is the `i`-th slot. */
  lemma {:induction false} EntriesFollowStorage<T>(b: set<int>, storage: seq<T>, from: int, i: nat)
    requires WellFormed(b, storage) && 0 <= from <= 256
    requires i < |Entries(b, storage, from)|
    ensures var e := Entries(b, storage, from)[i];
            && from <= e.0 < 256 && e.0 in b
            && Rank(b, e.0) == Rank(b, from - 1) + i + 1
            && e.1 == At(b, storage, e.0)
    decreases 256 - from
  {
    if from in b {
      if i > 0 { EntriesFollowStorage(b, storage, from + 1, i - 1); }
    } else {
      EntriesFollowStorage(b, storage, from + 1, i);
    }
  }

  /** `iter_after(n)` is `iter` without the entries up to `n`: the entries split at any index. */
  lemma {:induction false} EntriesSplit<T>(b: set<int>, storage: seq<T>, from: int, mid: int)
    requires WellFormed(b, storage) && 0 <= from <= mid <= 256
    ensures var all, tail := Entries(b, storage, from), Entries(b, storage, mid);
            && |all| - |tail| == Rank(b, mid - 1) - Rank(b, from - 1) >= 0
            && all[|all| - |tail|..] == tail
            && forall i :: 0 <= i < |all| - |tail| ==> all[i].0 < mid
    decreases mid - from
  {
    if from < mid { EntriesSplit(b, storage, from + 1, mid); }
  }

  class Array256<T> {
    var bitset: set<int>
    var storage: seq<T>

    ghost predicate Valid() reads this { WellFormed(bitset, storage) }

    ghost function Model(): map<int, T>
      reads this
      requires Valid()
    {
      Contents(bitset, storage)
    }

    constructor ()
      ensures Valid() && Model() == map[]
    {
      bitset, storage := {}, [];
      new;
      EmptyRank(255);
    }

    method Get(index: int) returns (r: Option<T>)
      requires Valid() && 0 <= index < 256
      ensures r == MapGet(Model(), index)
    {
      if index in bitset {
        SlotInBounds(bitset, index);
        r := Some(storage[Rank(bitset, index) - 1]);
      } else {
        r := None;
      }
    }

    method Len() returns (n: nat)
      requires Valid()
      ensures n == |Model()|
    {
      n := |storage|;
      RankIsCardinality(bitset, 255);
      assert Model().Keys == bitset;
    }

    method Insert(index: int, element: T) returns (previous: Option<T>)
      requires Valid() && 0 <= index < 256
      modifies this
      ensures Valid() && Model() == old(Model())[index := element]
      ensures previous == MapGet(old(Model()), index)
    {
      if index in bitset {
        OverwriteSlot(bitset, storage, index, element);
        var slot := Rank(bitset, index) - 1;
        previous := Some(storage[slot]);
        storage := storage[slot := element];
        return;
      }
      OpenSlot(bitset, storage, index, element);
      bitset := bitset + {index};
      var slot := Rank(bitset, index) - 1;
      storage := storage[..slot] + [element] + storage[slot..];
      previous := None;
    }

    method Remove(index: int) returns (removed: Option<T>)
      requires Valid() && 0 <= index < 256
      modifies this
      ensures Valid() && Model() == old(Model()) - {index}
      ensures removed == MapGet(old(Model()), index)
    {
      if |storage| == 0 || index !in bitset {
        if index in bitset { SlotInBounds(bitset, index); }
        assert Model() == Model() - {index};
        return None;
      }
      CloseSlot(bitset, storage, index);
      var slot := Rank(bitset, index) - 1;
      removed := Some(storage[slot]);
      storage := storage[..slot] + storage[slot + 1..];
      bitset := bitset - {index};
    }

    method Clear()
      modifies this
      ensures Valid() && Model() == map[]
    {
      bitset, storage := {}, [];
      EmptyRank(255);
    }

    /** `iter` and, from the index after `n`, `iter_after`. */
    method IterFrom(from: int) returns (e: seq<(int, T)>)
      requires Valid() && 0 <= from <= 256
      ensures e == Entries(bitset, storage, from)
      ensures forall i :: 0 <= i < |e| ==> e[i].0 in Model() && e[i].1 == Model()[e[i].0] && e[i].0 >= from
      ensures forall k :: k in Model() && k >= from ==> (k, Model()[k]) in e
    {
      e := [];
      var k := from;
      while k < 256
        invariant from <= k <= 256
        invariant e + Entries(bitset, storage, k) == Entries(bitset, storage, from)
      {
        if k in bitset {
          SlotInBounds(bitset, k);
          e := e + [(k, storage[Rank(bitset, k) - 1])];
        }
        k := k + 1;
      }
      forall i | 0 <= i < |e| ensures e[i].0 in bitset && e[i].1 == At(bitset, storage, e[i].0) && e[i].0 >= from {
        EntriesFollowStorage(bitset, storage, from, i);
      }
      forall k | k in bitset && k >= from ensures (k, At(bitset, storage, k)) in e {
        EntriesSplit(bitset, storage, from, k);
        assert Entries(bitset, storage, k)[0] == e[|e| - |Entries(bitset, storage, k)|];
      }
    }
  }

  lemma {:induction false} EmptyRank(i: int)
    requires i >= -1
    ensures Rank({}, i) == 0
    decreases i + 1
  {
    if i >= 0 { EmptyRank(i - 1); }
  }

  lemma {:induction false} RankIsCardinality(b: set<int>, i: int)
    requires i >= -1 && forall k :: k in b ==> 0 <= k <= i
    ensures Rank(b, i) == |b|
    decreases i + 1
  {
    if i < 0 {
      EmptyOrMember(b);
    } else {
      RankIsCardinality(b - {i}, i - 1);
      RankWithout(b, i, i - 1);
    }
  }

  lemma {:induction false} RankWithout(b: set<int>, k: int, i: int)
    requires -1 <= i < k
    ensures Rank(b - {k}, i) == Rank(b, i)
    decreases i + 1
  {
    if i >= 0 { RankWithout(b, k, i - 1); }
  }
}
