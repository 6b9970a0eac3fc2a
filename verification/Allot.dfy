/** Coverage queries inside one stride (`ts_bart`, `allot`). */
module Allot {
  import opened BaseIndex
  import Lpm

  /** The node at position `p` of the subtree under `idx`, counted like heap positions. */
  function Descendant(idx: int, p: int): (d: int)
    requires idx >= 1 && p >= 1
    ensures d >= p && d >= idx
    ensures IsAncestor(idx, d)
    decreases p
  {
    if p == 1 then idx else 2 * Descendant(idx, p / 2) + p % 2
  }

  lemma {:induction false} DescendantIncreases(idx: int, p: int, q: int)
    requires idx >= 1 && 1 <= p < q
    ensures Descendant(idx, p) < Descendant(idx, q)
    decreases q
  {
    if p / 2 < q / 2 {
      if p > 1 { DescendantIncreases(idx, p / 2, q / 2); }
    }
  }

  lemma DescendantMonotone(idx: int, p: int, q: int)
    requires idx >= 1 && 1 <= p <= q
    ensures Descendant(idx, p) <= Descendant(idx, q)
  {
    if p < q { DescendantIncreases(idx, p, q); }
  }

  /** With `inner` positions below 256, the nine-level subtree occupies exactly the positions
      `1 .. 2 * inner + 1`. */
  lemma {:induction false} Locate(idx: int, d: int, inner: nat) returns (p: int)
    requires idx >= 1 && IsAncestor(idx, d) && d < 512
    requires Descendant(idx, inner + 1) >= 256
    ensures 1 <= p <= 2 * inner + 1 && Descendant(idx, p) == d
    ensures d < 256 ==> p <= inner
    decreases d
  {
    if d == idx {
      p := 1;
    } else {
      var q := Locate(idx, d / 2, inner);
      ChildPositions(idx, q);
      p := if d % 2 == 0 then 2 * q else 2 * q + 1;
    }
    if p > inner { DescendantMonotone(idx, inner + 1, p); }
  }

  /** The worklist after `inner` expansions: an entry's position says which descendant it is. */
  ghost predicate Chain(idx: int, work: seq<int>, inner: nat) {
    && idx >= 1 && |work| == 2 * inner + 1
    && forall k :: 0 <= k < |work| ==> work[k] == Descendant(idx, k + 1)
  }

  lemma ChildPositions(idx: int, p: int)
    requires idx >= 1 && p >= 1
    ensures Descendant(idx, 2 * p) == 2 * Descendant(idx, p)
    ensures Descendant(idx, 2 * p + 1) == 2 * Descendant(idx, p) + 1
  {
    assert (2 * p) / 2 == p && (2 * p + 1) / 2 == p;
  }

  /** The worklist is increasing, so no entry occurs twice. */
  lemma ChainIncreases(idx: int, work: seq<int>, inner: nat, k: nat, l: nat)
    requires idx >= 1 && Chain(idx, work, inner) && k < l < |work|
    ensures work[k] < work[l] && l < work[l]
  {
    assert work[k] == Descendant(idx, k + 1);
    assert work[l] == Descendant(idx, l + 1);
    DescendantsInOrder(idx, k + 1, l + 1);
  }

  lemma DescendantsInOrder(idx: int, p: int, q: int)
    requires idx >= 1 && 1 <= p < q
    ensures Descendant(idx, p) < Descendant(idx, q) && q <= Descendant(idx, q)
  {
    DescendantIncreases(idx, p, q);
  }

  /** The visited entries below 256, and the octets of the visited fringe entries. */
  ghost function Low(s: seq<int>): set<int> {
    if s == [] then {} else Low(s[..|s| - 1]) + (if s[|s| - 1] < 256 then {s[|s| - 1]} else {})
  }

  ghost function High(s: seq<int>): set<int> {
    if s == [] then {} else High(s[..|s| - 1]) + (if s[|s| - 1] < 256 then {} else {s[|s| - 1] - 256})
  }

  lemma {:induction false} LowHolds(s: seq<int>, k: nat)
    requires k < |s|
    ensures s[k] < 256 ==> s[k] in Low(s)
    ensures s[k] >= 256 ==> s[k] - 256 in High(s)
    decreases |s|
  {
    if k < |s| - 1 { LowHolds(s[..|s| - 1], k); }
  }

  lemma {:induction false} LowFound(s: seq<int>, x: int) returns (k: nat)
    requires x in Low(s)
    ensures k < |s| && s[k] == x && x < 256
  {
    k := |s| - 1;
    if s[k] != x || x >= 256 { k := LowFound(s[..k], x); }
  }

  lemma {:induction false} HighFound(s: seq<int>, x: int) returns (k: nat)
    requires x in High(s)
    ensures k < |s| && s[k] == x + 256 && x >= 0
  {
    k := |s| - 1;
    if s[k] < 256 || s[k] - 256 != x { k := HighFound(s[..k], x); }
  }

  /** Increasing entries below 512 are counted once each. */
  lemma {:induction false} VisitCount(s: seq<int>)
    requires forall k, l :: 0 <= k < l < |s| ==> s[k] < s[l]
    requires forall k :: 0 <= k < |s| ==> 0 <= s[k] < 512
    ensures |Low(s)| + |High(s)| == |s|
  {
    if s != [] {
      var n := |s| - 1;
      VisitCount(s[..n]);
      LastIsNew(s, n);
      CountOne(s);
    }
  }

  lemma CountOne(s: seq<int>)
    requires s != []
    requires s[|s| - 1] !in Low(s[..|s| - 1]) && s[|s| - 1] - 256 !in High(s[..|s| - 1])
    ensures |Low(s)| + |High(s)| == |Low(s[..|s| - 1])| + |High(s[..|s| - 1])| + 1
  {
    var low, high := Low(s[..|s| - 1]), High(s[..|s| - 1]);
    assert low + {} == low && high + {} == high;
  }

  lemma LastIsNew(s: seq<int>, n: nat)
    requires n == |s| - 1 && forall k :: 0 <= k < n ==> s[k] < s[n]
    ensures s[n] !in Low(s[..n]) && s[n] - 256 !in High(s[..n])
  {
    if s[n] in Low(s[..n]) { var k := LowFound(s[..n], s[n]); }
    if s[n] - 256 in High(s[..n]) { var k := HighFound(s[..n], s[n] - 256); }
  }

  /** Expanding an entry below 256: every earlier entry was expanded too, and there is room. */
  lemma Expand(idx: int, work: seq<int>, i: nat, inner: nat)
    requires idx >= 1 && Chain(idx, work, inner) && inner <= i < |work|
    requires inner < i ==> work[inner] >= 256
    requires work[i] < 256
    ensures inner == i && |work| <= 509
    ensures Chain(idx, work + [work[i] * 2, work[i] * 2 + 1], i + 1)
  {
    if inner < i { ChainIncreases(idx, work, inner, inner, i); }
    assert work[i] == Descendant(idx, i + 1) >= i + 1;
    ChainGrows(idx, work, i);
  }

  /** Appending the children of the next entry. */
  lemma ChainGrows(idx: int, work: seq<int>, inner: nat)
    requires Chain(idx, work, inner)
    ensures Chain(idx, work + [work[inner] * 2, work[inner] * 2 + 1], inner + 1)
  {
    var next := work + [work[inner] * 2, work[inner] * 2 + 1];
    ChildPositions(idx, inner + 1);
    assert work[inner] == Descendant(idx, inner + 1);
    forall k | 0 <= k < |next| ensures next[k] == Descendant(idx, k + 1) {
      if k < |work| { assert next[k] == work[k]; }
    }
  }

  /** What the two sets mean when every entry has been visited. */
  lemma EntrySets(idx: Index, i: nat, pfx: set<int>, fringe: set<int>)
    requires i == |Run(idx, i).work| && pfx == Run(idx, i).pfx && fringe == Run(idx, i).fringe
    ensures forall j :: j in pfx <==> 1 <= j < 256 && IsAncestor(idx, j)
    ensures forall o :: o in fringe <==> 0 <= o < 256 && Covers(idx, o)
    ensures |pfx| + |fringe| == i
  {
    var work := Run(idx, i).work;
    var inner := RunReachable(idx, i);
    assert work[..i] == work;
    assert work[0] == Descendant(idx, 1);
    forall k, l | 0 <= k < l < |work| ensures work[k] < work[l] { ChainIncreases(idx, work, inner, k, l); }
    VisitCount(work);
    forall j ensures j in pfx <==> 1 <= j < 256 && IsAncestor(idx, j) { LowMeaning(idx, work, inner, j); }
    forall o ensures o in fringe <==> 0 <= o < 256 && Covers(idx, o) { HighMeaning(idx, work, inner, o); }
  }

  /** Every descendant below 512 is somewhere in the worklist. */
  lemma Listed(idx: Index, work: seq<int>, inner: nat, d: int) returns (k: nat)
    requires Chain(idx, work, inner) && inner < |work| && work[inner] >= 256
    requires IsAncestor(idx, d) && d < 512
    ensures k < |work| && work[k] == d
  {
    assert work[inner] == Descendant(idx, inner + 1);
    var p := Locate(idx, d, inner);
    k := p - 1;
    assert work[k] == Descendant(idx, k + 1);
  }

  lemma LowMeaning(idx: Index, work: seq<int>, inner: nat, j: int)
    requires Chain(idx, work, inner) && inner < |work| && work[inner] >= 256
    ensures j in Low(work) <==> 1 <= j < 256 && IsAncestor(idx, j)
  {
    if j in Low(work) {
      var k := LowFound(work, j);
      assert work[k] == Descendant(idx, k + 1);
    } else if 1 <= j < 256 && IsAncestor(idx, j) {
      var k := Listed(idx, work, inner, j);
      LowHolds(work, k);
    }
  }

  lemma HighMeaning(idx: Index, work: seq<int>, inner: nat, o: int)
    requires Chain(idx, work, inner) && inner < |work| && work[inner] >= 256
    requires forall k :: 0 <= k < |work| ==> 1 <= work[k] < 512
    ensures o in High(work) <==> 0 <= o < 256 && Covers(idx, o)
  {
    if o in High(work) {
      var k := HighFound(work, o);
      assert work[k] == Descendant(idx, k + 1);
    } else if 0 <= o < 256 && Covers(idx, o) {
      var k := Listed(idx, work, inner, 256 + o);
      LowHolds(work, k);
    }
  }

  lemma Visit(work: seq<int>, i: nat)
    requires i < |work| && 1 <= work[i] < 512
    ensures work[i] < 256 ==> Low(work[..i + 1]) == Low(work[..i]) + {work[i]} && High(work[..i + 1]) == High(work[..i])
    ensures work[i] >= 256 ==>
      Low(work[..i + 1]) == Low(work[..i]) && High(work[..i + 1]) == High(work[..i]) + {work[i] % 256}
  {
    assert work[..i + 1][..i] == work[..i];
    assert work[i] >= 256 ==> work[i] % 256 == work[i] - 256;
  }

  /** The loop's variables after `i` visits. */
  datatype State = State(work: seq<int>, pfx: set<int>, fringe: set<int>)

  function Run(idx: int, i: nat): State {
    if i == 0 then State([idx], {}, {}) else Step(Run(idx, i - 1), i - 1)
  }

  function Step(s: State, i: nat): State {
    if i >= |s.work| then s
    else if s.work[i] >= 256 then s.(fringe := s.fringe + {s.work[i] % 256})
    else State(s.work + [s.work[i] * 2, s.work[i] * 2 + 1], s.pfx + {s.work[i]}, s.fringe)
  }

  /** What every reachable loop state satisfies. */
  ghost predicate Reachable(idx: int, s: State, i: nat, inner: nat) {
    && inner <= i <= |s.work| <= 511
    && Chain(idx, s.work, inner)
    && (forall k :: 0 <= k < |s.work| ==> 1 <= s.work[k] < 512)
    && (inner < i ==> s.work[inner] >= 256)
    && s.pfx == Low(s.work[..i]) && s.fringe == High(s.work[..i])
  }

  lemma StepReachable(idx: int, s: State, i: nat, inner: nat) returns (inner': nat)
    requires idx >= 1 && Reachable(idx, s, i, inner) && i < |s.work|
    ensures Reachable(idx, Step(s, i), i + 1, inner')
  {
    if s.work[i] >= 256 {
      inner' := inner;
      StepFringe(idx, s, i, inner);
    } else {
      inner' := i + 1;
      StepExpand(idx, s, i, inner);
    }
  }

  lemma StepFringe(idx: int, s: State, i: nat, inner: nat)
    requires idx >= 1 && Reachable(idx, s, i, inner) && i < |s.work| && s.work[i] >= 256
    ensures Reachable(idx, Step(s, i), i + 1, inner)
  {
    Visit(s.work, i);
  }

  lemma StepExpand(idx: int, s: State, i: nat, inner: nat)
    requires idx >= 1 && Reachable(idx, s, i, inner) && i < |s.work| && s.work[i] < 256
    ensures Reachable(idx, Step(s, i), i + 1, i + 1)
  {
    Visit(s.work, i);
    Expand(idx, s.work, i, inner);
    StepListed(s, i);
  }

  lemma StepListed(s: State, i: nat)
    requires i < |s.work| <= 509 && s.work[i] < 256
    requires forall k :: 0 <= k < |s.work| ==> 1 <= s.work[k] < 512
    ensures var work := Step(s, i).work;
            && |work| == |s.work| + 2 && work[..i + 1] == s.work[..i + 1]
            && forall k :: 0 <= k < |work| ==> 1 <= work[k] < 512
  {
    var work := Step(s, i).work;
    assert forall k :: 0 <= k < |s.work| ==> work[k] == s.work[k];
  }

  lemma {:induction false} RunReachable(idx: Index, i: nat) returns (inner: nat)
    requires i <= |Run(idx, i).work|
    ensures Reachable(idx, Run(idx, i), i, inner)
  {
    if i == 0 {
      inner := 0;
    } else {
      inner := RunReachable(idx, i - 1);
      inner := StepReachable(idx, Run(idx, i - 1), i - 1, inner);
    }
  }

  method PushChildren(stack: array<int>, len: nat, j: int)
    requires len + 1 < stack.Length
    modifies stack
    ensures stack[..len + 2] == old(stack[..len]) + [j * 2, j * 2 + 1]
  {
    stack[len] := j * 2;
    stack[len + 1] := j * 2 + 1;
  }

  /** `entry`: a worklist over a fixed 512-slot array.  `pfx` comes out as the descendants of `idx`
      below 256 (`idx` included) and `fringe` as the octets its range runs over; each worklist entry is
      visited once, and there are never more than 511 of them. */
  method Entry(idx: int) returns (pfx: set<int>, fringe: set<int>, ghost visits: nat)
    requires 1 <= idx < 256
    ensures forall j :: j in pfx <==> 1 <= j < 256 && IsAncestor(idx, j)
    ensures forall o :: o in fringe <==> 0 <= o < 256 && Covers(idx, o)
    ensures visits == |pfx| + |fringe| <= 511
  {
    var stack := new int[512](_ => 0);
    var len := 0;
    stack[0] := idx;
    len := len + 1;
    pfx, fringe := {}, {};
    var i := 0;
    while i < len
      invariant 0 <= i <= len <= 511
      invariant State(stack[..len], pfx, fringe) == Run(idx, i)
      decreases 512 - i
    {
      var j := stack[i];
      i := i + 1;
      RunBound(idx, i);
      if j >= 256 {
        fringe := fringe + {j % 256};
        continue;
      }
      pfx := pfx + {j};
      PushChildren(stack, len, j);
      len := len + 2;
    }
    visits := i;
    EntrySets(idx, i, pfx, fringe);
  }

  lemma RunBound(idx: Index, i: nat)
    requires i > 0 && i <= |Run(idx, i - 1).work|
    ensures |Run(idx, i).work| <= 511
  {
    var inner := RunReachable(idx, i);
  }

  /** `allot_prefix` and `lpm` are each other's inverse relation: `j` is allotted to `i` exactly when
      `i` is one of the matches `lpm` offers for `j`. */
  method AllotInvertsLpm(i: int, j: int) returns (inAllot: bool, inLpm: bool)
    requires 1 <= i < 256 && 1 <= j < 256
    ensures inAllot == inLpm
    ensures inLpm <==> RangeOf(i).0 <= RangeOf(j).0 && RangeOf(j).1 <= RangeOf(i).1
  {
    var pfx, fringe, _ := Entry(i);
    var entry := Lpm.LpmEntry(j);
    inAllot, inLpm := j in pfx, i in entry;
    Lpm.AncestorsAre(j);
    ContainmentIsAncestry(i, j);
  }

  /** `allot_fringe` is the octet range of the index. */
  method Fringe(i: int) returns (fringe: set<int>)
    requires 1 <= i < 256
    ensures forall o :: o in fringe <==> RangeOf(i).0 <= o <= RangeOf(i).1
  {
    var pfx, octets, _ := Entry(i);
    fringe := octets;
    FringeIsRange(i, octets);
  }

  lemma FringeIsRange(i: Index, octets: set<int>)
    requires forall o :: o in octets <==> 0 <= o < 256 && Covers(i, o)
    ensures forall o :: o in octets <==> RangeOf(i).0 <= o <= RangeOf(i).1
  {
    RangeClosedForm(i);
    forall o: Octet ensures o in octets <==> InRange(i, o) { RangeIsDescent(i, o); }
  }

  /** Overlap queries: intersecting a node's stored prefixes with `allot_prefix(i)` finds a hit exactly
      when some stored prefix lies inside the range of `i`. */
  method Overlaps(stored: set<int>, i: int) returns (hit: bool)
    requires 1 <= i < 256
    requires forall x :: x in stored ==> 1 <= x < 256
    ensures hit <==> exists j :: j in stored && RangeOf(i).0 <= RangeOf(j).0 && RangeOf(j).1 <= RangeOf(i).1
  {
    var pfx, fringe, _ := Entry(i);
    hit := exists j | j in stored :: j in pfx;
    forall j | j in stored
      ensures j in pfx <==> RangeOf(i).0 <= RangeOf(j).0 && RangeOf(j).1 <= RangeOf(i).1
    {
      ContainmentIsAncestry(i, j);
    }
    assert hit <==> exists j :: j in stored && j in pfx;
  }
}
