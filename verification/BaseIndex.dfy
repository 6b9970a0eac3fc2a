/** The allotment-routing-table numbering of the prefixes inside one octet (`ts_bart`, base index).

    The prefixes 0/0 .. 255/7 of an octet are laid out as a binary heap: the root is index 1, the
    children of `i` are `2i` and `2i + 1`.  A full /8 ("fringe") would be index `256 + octet`, so the
    numbering below is stated for 1..511 and `BaseIndex` is the part below 256. */
module BaseIndex {

  type Octet = o: int | 0 <= o < 256

  /** `BaseIndex`: a non-zero `u8`. */
  type Index = i: int | 1 <= i < 256 witness 1

  /** An index of the nine-level tree, fringes included. */
  type TreeIndex = i: int | 1 <= i < 512 witness 1

  function Pow2(n: nat): (p: nat)
    ensures p >= 1
  {
    if n == 0 then 1 else 2 * Pow2(n - 1)
  }

  /** The number of bits needed to write `i`, minus one: the prefix length of index `i`
      (`BaseIndex::len() - 1`). */
  function Level(i: int): (l: nat)
    requires i >= 1
    ensures Pow2(l) <= i < Pow2(l + 1)
  {
    if i == 1 then 0 else 1 + Level(i / 2)
  }

  /** The eight powers a stride uses, unfolded. */
  lemma Pow2Table()
    ensures Pow2(0) == 1 && Pow2(1) == 2 && Pow2(2) == 4 && Pow2(3) == 8 && Pow2(4) == 16
    ensures Pow2(5) == 32 && Pow2(6) == 64 && Pow2(7) == 128 && Pow2(8) == 256 && Pow2(9) == 512
  {
    assert Pow2(3) == 8;
    assert Pow2(6) == 64;
  }

  lemma {:induction false} Pow2Monotone(a: nat, b: nat)
    requires a <= b
    ensures Pow2(a) <= Pow2(b)
  {
    if a < b { Pow2Monotone(a, b - 1); }
  }

  /** A level is determined by the two powers that bracket the index. */
  lemma LevelUnique(i: int, l: nat)
    requires i >= 1 && Pow2(l) <= i < Pow2(l + 1)
    ensures Level(i) == l
  {
    if Level(i) < l {
      Pow2Monotone(Level(i) + 1, l);
    } else if Level(i) > l {
      Pow2Monotone(l + 1, Level(i));
    }
  }

  lemma LevelBound(i: TreeIndex)
    ensures Level(i) <= 8
    ensures i < 256 ==> Level(i) <= 7
    ensures i >= 256 ==> Level(i) == 8
    ensures i >= 128 ==> Level(i) >= 7
  {
    Pow2Table();
    var l := Level(i);
    if l >= 9 { Pow2Monotone(9, l); }
    if l >= 8 { Pow2Monotone(8, l); }
    if l <= 7 { Pow2Monotone(l + 1, 8); }
    if l <= 6 { Pow2Monotone(l + 1, 7); }
  }

  lemma LevelIndex(i: Index)
    ensures Level(i) <= 7
  {
    LevelBound(i);
  }

  /** `from_prefix`: drop the host bits of `octet`, then add the level's offset. */
  function FromPrefix(octet: Octet, len: nat): (i: Index)
    requires len <= 7
    ensures Level(i) == len
  {
    Pow2Table();
    var i := octet / Pow2(8 - len) + Pow2(len);
    assert Pow2(len) <= i < Pow2(len + 1) by { QuotientBound(octet, len); }
    LevelUnique(i, len);
    i
  }

  lemma QuotientBound(octet: Octet, len: nat)
    requires len <= 8
    ensures 0 <= octet / Pow2(8 - len) < Pow2(len)
    ensures Pow2(len) <= 256 && Pow2(8 - len) <= 256
  {
    Pow2Table();
    match len {
      case 0 => case 1 => case 2 => case 3 => case 4 => case 5 => case 6 => case 7 => case 8 =>
    }
  }

  /** `from_pfx_7`. */
  function FromPfx7(octet: Octet): (i: Index)
    ensures i == FromPrefix(octet, 7)
  {
    Pow2Table();
    128 + octet / 2
  }

  /** `prefix`: the first octet and the length of the prefix numbered `i`.  Masking with
      `0xff >> shift` keeps the remainder modulo `2^len`. */
  function Prefix(i: Index): (p: (int, nat))
    ensures p.1 == Level(i) <= 7
    ensures 0 <= p.0 < 256
  {
    LevelIndex(i);
    assert 0 <= i % Pow2(Level(i)) * Pow2(8 - Level(i)) < 256 by { ShiftBound(i, Level(i)); }
    (i % Pow2(Level(i)) * Pow2(8 - Level(i)), Level(i))
  }

  lemma ShiftBound(i: int, len: nat)
    requires len <= 8 && i >= 0
    ensures 0 <= i % Pow2(len) * Pow2(8 - len) < 256
  {
    Pow2Table();
    match len {
      case 0 => case 1 => case 2 => case 3 => case 4 => case 5 => case 6 => case 7 => case 8 =>
    }
  }

  /** `net_mask`. */
  function NetMask(bits: nat): (m: Octet)
    requires bits <= 8
    ensures m + Pow2(8 - bits) == 256
  {
    Pow2Table();
    QuotientBound(0, bits);
    256 - Pow2(8 - bits)
  }

  /** The octets `range()` runs over.  `first` has no bit below the mask, so `first | !net_mask`
      is a sum. */
  function RangeOf(i: TreeIndex): (r: (int, int))
  {
    if i >= 256 then (i - 256, i - 256)
    else
      var (first, len) := Prefix(i);
      (first, first + (255 - NetMask(len)))
  }

  predicate InRange(i: TreeIndex, o: int) { RangeOf(i).0 <= o <= RangeOf(i).1 }

  /** The ancestor relation of the heap numbering, the index itself included. */
  predicate IsAncestor(a: int, i: int)
    decreases i
  {
    i >= 1 && (a == i || IsAncestor(a, i / 2))
  }

  lemma {:induction false} AncestorBounds(a: int, i: int)
    requires IsAncestor(a, i)
    ensures 1 <= a <= i
    ensures Level(a) <= Level(i)
    decreases i
  {
    if a != i { AncestorBounds(a, i / 2); }
  }

  lemma {:induction false} AncestorTransitive(a: int, b: int, c: int)
    requires IsAncestor(a, b) && IsAncestor(b, c)
    ensures IsAncestor(a, c)
    decreases c
  {
    if b != c { AncestorTransitive(a, b, c / 2); }
  }

  /** The ancestors of one index are totally ordered, so they have distinct lengths. */
  lemma {:induction false} AncestorsAreAChain(a: int, b: int, i: int)
    requires 1 <= a <= b && IsAncestor(a, i) && IsAncestor(b, i)
    ensures IsAncestor(a, b)
    ensures Level(a) == Level(b) ==> a == b
    decreases i
  {
    if b == i {
      AncestorBounds(a, b);
      if a != b { AncestorBounds(a, b / 2); }
    } else if a == i {
      AncestorBounds(b, i);
    } else {
      AncestorsAreAChain(a, b, i / 2);
    }
  }

  /** The interval form of an ancestor test: `a` is an ancestor of `i` exactly when shifting `i`
      right by the difference of levels gives `a`. */
  lemma {:induction false} AncestorInterval(a: int, i: int, k: nat)
    requires a >= 1 && i >= 1 && Level(i) == Level(a) + k
    ensures IsAncestor(a, i) <==> a * Pow2(k) <= i < (a + 1) * Pow2(k)
    decreases k
  {
    if k == 0 {
      SameLevel(a, i);
    } else {
      AncestorInterval(a, i / 2, k - 1);
      ParentStep(a, i);
      DoubleProduct(a, k);
      DoubleProduct(a + 1, k);
      HalfInterval(a * Pow2(k - 1), (a + 1) * Pow2(k - 1), i);
    }
  }

  lemma SameLevel(a: int, i: int)
    requires a >= 1 && i >= 1 && Level(i) == Level(a)
    ensures IsAncestor(a, i) <==> a == i
    ensures a * Pow2(0) <= i < (a + 1) * Pow2(0) <==> a == i
  {
    if IsAncestor(a, i) && a != i { AncestorBounds(a, i / 2); }
  }

  lemma ParentStep(a: int, i: int)
    requires a >= 1 && i >= 1 && Level(i) > Level(a)
    ensures IsAncestor(a, i) <==> IsAncestor(a, i / 2)
  {
  }

  lemma DoubleProduct(a: int, k: nat)
    requires k > 0
    ensures a * Pow2(k) == 2 * (a * Pow2(k - 1))
  {
  }

  lemma HalfInterval(x: int, y: int, i: int)
    ensures x <= i / 2 < y <==> 2 * x <= i < 2 * y
  {
  }

  lemma MulMonotone(a: int, b: int, q: nat)
    requires a <= b
    ensures a * q <= b * q
  {
  }

  lemma PowProduct(l: nat)
    requires l <= 8
    ensures Pow2(l) * Pow2(8 - l) == 256
  {
    Pow2Table();
    match l {
      case 0 => case 1 => case 2 => case 3 => case 4 => case 5 => case 6 => case 7 => case 8 =>
    }
  }

  /** The arithmetic of one level, with the level's powers as numbers. */
  lemma IndexAtLevel(i: int, l: nat)
    requires l <= 7 && Pow2(l) <= i < Pow2(l + 1)
    ensures var p, q := Pow2(l), Pow2(8 - l);
            && i % p == i - p
            && (i - p) * q == i * q - 256
            && (i - p) * q / q == i - p
            && (i + 1) * q == i * q + q
            && 256 <= i * q <= 512 - q
  {
    var p, q := Pow2(l), Pow2(8 - l);
    PowProduct(l);
    WithinDouble(i, p);
    Distributes(i, p, q);
    MulMonotone(p, i, q);
    MulMonotone(i + 1, 2 * p, q);
    ExactQuotient(i - p, q);
  }

  lemma WithinDouble(i: int, p: nat)
    requires 1 <= p <= i < 2 * p
    ensures i % p == i - p
  {
    assert i / p == 1 by {
      if i / p >= 2 { MulMonotone(2, i / p, p); } else if i / p <= 0 { MulMonotone(i / p, 0, p); }
    }
  }

  lemma Distributes(i: int, p: int, q: int)
    ensures (i - p) * q == i * q - p * q && (i + 1) * q == i * q + q && 2 * p * q == 2 * (p * q)
  {
  }

  lemma ExactQuotient(x: int, q: nat)
    requires q > 0
    ensures x * q / q == x
  {
    var d := x * q / q - x;
    assert d * q == -(x * q % q);
    if d >= 1 { MulMonotone(1, d, q); } else if d <= -1 { MulMonotone(d, -1, q); }
  }

  /** The range of an index, without the mask arithmetic. */
  lemma RangeClosedForm(i: TreeIndex)
    ensures Level(i) <= 8
    ensures RangeOf(i).0 == i * Pow2(8 - Level(i)) - 256
    ensures RangeOf(i).1 == (i + 1) * Pow2(8 - Level(i)) - 257
    ensures 0 <= RangeOf(i).0 <= RangeOf(i).1 < 256
  {
    LevelBound(i);
    if i < 256 { RangeOfIndex(i); } else { assert Pow2(0) == 1; }
  }

  lemma RangeOfIndex(i: Index)
    ensures Level(i) <= 7
    ensures RangeOf(i).0 == i * Pow2(8 - Level(i)) - 256
    ensures RangeOf(i).1 == (i + 1) * Pow2(8 - Level(i)) - 257
    ensures 0 <= RangeOf(i).0 <= RangeOf(i).1 < 256
  {
    LevelIndex(i);
    IndexAtLevel(i, Level(i));
  }

  /** Octet `o` lies under index `a`: `a` is an ancestor of the octet's fringe index. */
  predicate Covers(a: int, o: int) { IsAncestor(a, 256 + o) }

  /** The first and the last fringe index below an index. */
  function FirstBelow(i: TreeIndex): int
    decreases 512 - i
  {
    if i >= 256 then i else FirstBelow(2 * i)
  }

  function LastBelow(i: TreeIndex): int {
    LevelBound(i);
    FirstBelow(i) + Pow2(8 - Level(i)) - 1
  }

  lemma ChildLevel(i: Index)
    ensures Level(2 * i) == Level(2 * i + 1) == Level(i) + 1
  {
    assert 2 * i / 2 == i && (2 * i + 1) / 2 == i;
  }

  lemma {:induction false} FirstForm(i: TreeIndex)
    ensures Level(i) <= 8 && FirstBelow(i) == i * Pow2(8 - Level(i))
    decreases 512 - i
  {
    LevelBound(i);
    if i < 256 {
      ChildLevel(i);
      FirstForm(2 * i);
      DoubleProduct(i, 8 - Level(i));
      TwiceProduct(i, Pow2(7 - Level(i)));
    }
  }

  lemma TwiceProduct(x: int, p: int)
    ensures 2 * x * p == 2 * (x * p)
  {
  }

  lemma NextProduct(x: int, p: int)
    ensures (x + 1) * p == x * p + p
  {
  }

  lemma LastForm(i: TreeIndex)
    ensures Level(i) <= 8 && LastBelow(i) + 1 == (i + 1) * Pow2(8 - Level(i))
  {
    FirstForm(i);
    NextProduct(i, Pow2(8 - Level(i)));
  }

  /** Between siblings nothing is left out, and they fill their parent. */
  lemma Siblings(p: Index)
    ensures LastBelow(2 * p) + 1 == FirstBelow(2 * p + 1)
    ensures FirstBelow(p) == FirstBelow(2 * p) && LastBelow(p) == LastBelow(2 * p + 1)
  {
    ChildLevel(p);
    LevelIndex(p);
    FirstForm(2 * p);
    FirstForm(2 * p + 1);
    NextProduct(2 * p, Pow2(7 - Level(p)));
  }

  lemma {:induction false} FirstToLast(i: TreeIndex)
    ensures 256 <= FirstBelow(i) <= LastBelow(i) < 512
    decreases 512 - i
  {
    if i < 256 {
      FirstToLast(2 * i);
      FirstToLast(2 * i + 1);
      Siblings(i);
    } else {
      FringeSpan(i);
    }
  }

  /** What is below an index is below one of its children, the index itself apart. */
  lemma {:induction false} BelowAChild(i: Index, f: TreeIndex)
    ensures IsAncestor(i, f) && i != f <==> IsAncestor(2 * i, f) || IsAncestor(2 * i + 1, f)
    decreases f
  {
    if f != i && f / 2 != i && f >= 2 {
      BelowAChild(i, f / 2);
    } else if f == i {
      if IsAncestor(2 * i, f) { AncestorBounds(2 * i, f); }
      if IsAncestor(2 * i + 1, f) { AncestorBounds(2 * i + 1, f); }
    }
  }

  lemma OnlyItself(i: TreeIndex, f: TreeIndex)
    requires i >= 256 && f >= 256
    ensures IsAncestor(i, f) <==> i == f
  {
    if IsAncestor(i, f) && i != f { AncestorBounds(i, f / 2); }
  }

  /** A fringe index descends from an index exactly when it lies between those two. */
  lemma {:induction false} FringeBelow(i: TreeIndex, f: TreeIndex)
    requires f >= 256
    ensures IsAncestor(i, f) <==> FirstBelow(i) <= f <= LastBelow(i)
    decreases 512 - i
  {
    if i < 256 {
      BelowAChild(i, f);
      FringeBelow(2 * i, f);
      FringeBelow(2 * i + 1, f);
      Siblings(i);
      FirstToLast(2 * i);
      FirstToLast(2 * i + 1);
    } else {
      OnlyItself(i, f);
      FringeSpan(i);
    }
  }

  lemma FringeSpan(i: TreeIndex)
    requires i >= 256
    ensures FirstBelow(i) == LastBelow(i) == i
  {
    LevelBound(i);
    assert Pow2(0) == 1;
  }

  lemma RangeEnds(i: TreeIndex)
    ensures RangeOf(i) == (FirstBelow(i) - 256, LastBelow(i) - 256)
  {
    RangeClosedForm(i);
    FirstForm(i);
    LastForm(i);
  }

  /** The heap order is the containment order: `range()` runs over exactly the octets below `a`. */
  lemma RangeIsDescent(a: TreeIndex, o: Octet)
    ensures InRange(a, o) <==> Covers(a, o)
  {
    RangeEnds(a);
    FringeBelow(a, 256 + o);
  }

  /** Below the fringe, the walk may start at the octet's /7. */
  lemma FringeAncestors(a: Index, o: Octet)
    ensures Covers(a, o) <==> IsAncestor(a, FromPfx7(o))
  {
    assert (256 + o) / 2 == FromPfx7(o);
  }

  /** One step down narrows the span. */
  lemma StepNarrows(p: Index, i: TreeIndex)
    requires i == 2 * p || i == 2 * p + 1
    ensures FirstBelow(p) <= FirstBelow(i) && LastBelow(i) <= LastBelow(p)
    ensures FirstBelow(p) < FirstBelow(i) || LastBelow(i) < LastBelow(p)
  {
    FirstToLast(2 * p);
    FirstToLast(2 * p + 1);
    Siblings(p);
  }

  lemma {:induction false} DescentNarrows(a: TreeIndex, i: TreeIndex)
    requires IsAncestor(a, i)
    ensures FirstBelow(a) <= FirstBelow(i) && LastBelow(i) <= LastBelow(a)
    ensures a != i ==> FirstBelow(a) < FirstBelow(i) || LastBelow(i) < LastBelow(a)
    decreases i
  {
    if a != i {
      AncestorBounds(a, i / 2);
      DescentNarrows(a, i / 2);
      StepNarrows(i / 2, i);
    }
  }

  lemma OneOfThem(a: TreeIndex, b: TreeIndex, i: TreeIndex)
    requires IsAncestor(a, i) && IsAncestor(b, i)
    ensures IsAncestor(a, b) || IsAncestor(b, a)
  {
    if a <= b { AncestorsAreAChain(a, b, i); } else { AncestorsAreAChain(b, a, i); }
  }

  lemma SpansDecideAncestry(a: TreeIndex, i: TreeIndex)
    ensures IsAncestor(a, i) <==> FirstBelow(a) <= FirstBelow(i) && LastBelow(i) <= LastBelow(a)
  {
    if IsAncestor(a, i) {
      DescentNarrows(a, i);
    } else if FirstBelow(a) <= FirstBelow(i) && LastBelow(i) <= LastBelow(a) {
      FirstToLast(i);
      FringeBelow(a, FirstBelow(i));
      FringeBelow(i, FirstBelow(i));
      OneOfThem(a, i, FirstBelow(i));
      DescentNarrows(i, a);
    }
  }

  /** Containment of ranges is ancestry, for any two indices. */
  lemma ContainmentIsAncestry(a: TreeIndex, i: TreeIndex)
    ensures IsAncestor(a, i) <==> RangeOf(a).0 <= RangeOf(i).0 && RangeOf(i).1 <= RangeOf(a).1
  {
    RangeEnds(a);
    RangeEnds(i);
    SpansDecideAncestry(a, i);
  }

  lemma RangeWidth(i: TreeIndex)
    ensures Level(i) <= 8 && RangeOf(i).1 - RangeOf(i).0 + 1 == Pow2(8 - Level(i))
  {
    LevelBound(i);
    Pow2Table();
  }

  /** `prefix` inverts `from_prefix`, up to the host bits `from_prefix` drops. */
  lemma PrefixOfFromPrefix(octet: Octet, len: nat)
    requires len <= 7
    ensures Prefix(FromPrefix(octet, len)) == (octet - octet % Pow2(8 - len), len)
  {
    var i := FromPrefix(octet, len);
    IndexAtLevel(i, len);
    QuotientTimes(octet, Pow2(8 - len));
  }

  lemma QuotientTimes(x: int, q: nat)
    requires q > 0
    ensures x / q * q == x - x % q
  {
  }

  /** `from_prefix` inverts `prefix`: the numbering is a bijection. */
  lemma FromPrefixOfPrefix(i: Index)
    ensures FromPrefix(Prefix(i).0, Prefix(i).1) == i
  {
    LevelIndex(i);
    IndexAtLevel(i, Level(i));
  }
}
