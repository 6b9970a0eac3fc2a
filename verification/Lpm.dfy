/** Longest-prefix match inside one stride (`ts_bart`, `lpm`). */
module Lpm {
  import opened BaseIndex
  import A = Array256

  /** The indices on the walk from `i` to the root: what one `lpm` bitset holds. */
  function Ancestors(i: nat): set<int> {
    if i == 0 then {} else {i} + Ancestors(i / 2)
  }

  lemma {:induction false} AncestorsAre(i: nat)
    ensures forall a :: a in Ancestors(i) <==> IsAncestor(a, i)
  {
    if i > 0 { AncestorsAre(i / 2); }
  }

  /** `lpm_entry`: halve `j` until it is zero, setting a bit at each step. */
  method LpmEntry(i: nat) returns (entry: set<int>)
    requires i < 256
    ensures entry == Ancestors(i)
  {
    entry := {};
    var j := i;
    while j > 0
      invariant 0 <= j <= i
      invariant entry + Ancestors(j) == Ancestors(i)
    {
      entry := entry + {j};
      j := j / 2;
    }
  }

  /** The first `n` slots hold their ancestor sets. */
  ghost predicate Filled(slots: seq<set<int>>, n: nat) {
    n == 0 || (n <= |slots| && slots[n - 1] == Ancestors(n - 1) && Filled(slots, n - 1))
  }

  lemma {:induction false} FilledAt(slots: seq<set<int>>, n: nat, i: nat)
    requires Filled(slots, n) && i < n
    ensures n <= |slots| && slots[i] == Ancestors(i)
  {
    if i < n - 1 { FilledAt(slots, n - 1, i); }
  }

  lemma {:induction false} FilledSame(s: seq<set<int>>, t: seq<set<int>>, n: nat)
    requires Filled(s, n) && n <= |t| && forall i :: 0 <= i < n && i < |s| ==> s[i] == t[i]
    ensures Filled(t, n)
  {
    if n > 0 { FilledSame(s, t, n - 1); }
  }

  /** The `lut` feature: slot 0 stays empty, every other slot is the direct computation. */
  method BuildTable() returns (lut: array<set<int>>)
    ensures fresh(lut) && lut.Length == 256
    ensures forall i :: 0 <= i < 256 ==> lut[i] == Ancestors(i)
  {
    lut := new set<int>[256](_ => {});
    assert Filled(lut[..], 0) && lut[..][0] == {};
    var i := 1;
    while i < 256
      invariant 1 <= i <= 256 && Filled(lut[..], i)
    {
      ghost var before := lut[..];
      var entry := LpmEntry(i);
      lut[i] := entry;
      FilledSame(before, lut[..], i);
      assert lut[..][i] == entry;
      i := i + 1;
    }
    forall j | 0 <= j < 256 ensures lut[j] == Ancestors(j) { FilledAt(lut[..], 256, j); }
  }

  /** `intersection_top`: scan down for the greatest common member. */
  method IntersectionTop(s: set<int>, t: set<int>) returns (found: bool, top: int)
    requires forall x :: x in s ==> 0 <= x < 256
    ensures found <==> exists x :: x in s && x in t
    ensures found ==> top in s && top in t && forall x :: x in s && x in t ==> x <= top
  {
    top := 256;
    while top > 0
      invariant 0 <= top <= 256
      invariant forall x :: x in s && x in t ==> x < top
    {
      top := top - 1;
      if top in s && top in t { return true, top; }
    }
    found := false;
  }

  /** `a` is the longest of the stored prefixes that contain the prefix numbered `i`. */
  ghost predicate IsLongestAbove(stored: set<int>, i: Index, a: int)
    requires forall x :: x in stored ==> 1 <= x < 256
  {
    && a in stored && IsAncestor(a, i)
    && forall b :: b in stored && IsAncestor(b, i) && b != a ==> Level(b) < Level(a)
  }

  /** The one-shot bit trick is a longest-prefix match: the top of `stored & lpm(i)` is the longest stored
      prefix that contains `i`, and the intersection is empty exactly when a scan of every stored prefix finds
      none. */
  lemma TopIsLongestMatch(stored: set<int>, i: Index)
    requires forall x :: x in stored ==> 1 <= x < 256
    ensures var hits := stored * Ancestors(i);
            && (forall a :: a in hits <==> a in stored && IsAncestor(a, i))
            && forall top :: top in hits && (forall x :: x in hits ==> x <= top) ==> IsLongestAbove(stored, i, top)
  {
    AncestorsAre(i);
    forall top, b | IsAncestor(top, i) && IsAncestor(b, i) && 1 <= b < top ensures Level(b) < Level(top) {
      AncestorsAreAChain(b, top, i);
      AncestorBounds(b, top);
    }
  }

  datatype Match<T> = NoMatch | Match(index: int, value: T)

  /** `lookup_index`: `lpm`, `intersection_top` on the array's bits, and `get`. */
  method LookupIndex<T>(prefixes: A.Array256<T>, i: Index) returns (r: Match<T>)
    requires prefixes.Valid() && forall x :: x in prefixes.bitset ==> 1 <= x < 256
    ensures r.NoMatch? <==> forall a :: a in prefixes.Model() ==> !IsAncestor(a, i)
    ensures r.Match? ==> IsLongestAbove(prefixes.bitset, i, r.index) && r.value == prefixes.Model()[r.index]
  {
    assert prefixes.Model().Keys == prefixes.bitset;
    var ancestors := LpmEntry(i);
    var found, top := IntersectionTop(prefixes.bitset, ancestors);
    TopIsLongestMatch(prefixes.bitset, i);
    if !found { return NoMatch; }
    var value := prefixes.Get(top);
    r := Match(top, value.value);
  }

  /** `a` is the longest of the stored prefixes whose range holds octet `o`. */
  ghost predicate IsLongestMatch<T>(stored: map<int, T>, o: Octet, a: int)
    requires forall x :: x in stored ==> 1 <= x < 256
  {
    && a in stored && InRange(a, o)
    && forall b :: b in stored && InRange(b, o) && b != a ==> Level(b) < Level(a)
  }

  /** The lookup of an octet: the value of the longest stored prefix whose range holds it, and nothing exactly
      when none does. */
  method StrideLookup<T>(prefixes: A.Array256<T>, o: Octet) returns (r: Match<T>)
    requires prefixes.Valid() && forall x :: x in prefixes.Model() ==> 1 <= x < 256
    ensures r.NoMatch? <==> forall a :: a in prefixes.Model() ==> !InRange(a, o)
    ensures r.Match? ==> IsLongestMatch(prefixes.Model(), o, r.index) && r.value == prefixes.Model()[r.index]
  {
    assert prefixes.Model().Keys == prefixes.bitset;
    r := LookupIndex(prefixes, FromPfx7(o));
    forall a: Index ensures InRange(a, o) <==> IsAncestor(a, FromPfx7(o)) {
      RangeIsDescent(a, o);
      FringeAncestors(a, o);
    }
  }
}
