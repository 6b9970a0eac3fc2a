/**
  The port trie (ts_bart_packetfilter/src/port_trie/mod.rs) as the destination lookup uses it: each id is
  stored under the blocks of its port range, and a port is looked up by its two bytes.
 */
module PortTrie {
  import opened Wrappers
  import opened IdIndex
  import opened BaseIndex
  import opened Lpm
  import P = PortPrefix

  type Key = P.PortPrefix

  datatype Trie<T> = Trie(prefixes: map<int, T>, children: map<int, map<int, T>>, singletons: map<int, T>)

  function Get<T>(t: Trie<T>, p: Key): Option<T> {
    match p
    case Prefix(idx) => MapGet(t.prefixes, idx)
    case ChildPrefix(hi, lo) => if hi in t.children then MapGet(t.children[hi], lo) else None
    case Singleton(port) => MapGet(t.singletons, port)
  }

  /** One turn of the loop in `modify`, for an entry that becomes `v`. A child is made for its first entry
      and stays when its last one goes. */
  function Put<T>(t: Trie<T>, p: Key, v: Option<T>): Trie<T> {
    match p
    case Prefix(idx) => t.(prefixes := SetEntry(t.prefixes, idx, v))
    case ChildPrefix(hi, lo) =>
      if hi in t.children then t.(children := t.children[hi := SetEntry(t.children[hi], lo, v)])
      else if v.Some? then t.(children := t.children[hi := map[lo := v.value]])
      else t
    case Singleton(port) => t.(singletons := SetEntry(t.singletons, port, v))
  }

  lemma GetPut<T>(t: Trie<T>, p: Key, v: Option<T>, q: Key)
    ensures Get(Put(t, p, v), q) == if q == p then v else Get(t, q)
  {
  }

  /** `modify`: `f` gives what becomes of an entry, absent entries included. */
  function Modified<T>(t: Trie<T>, ps: seq<Key>, f: Option<T> -> Option<T>): Trie<T> {
    if ps == [] then t else
    var before := Modified(t, ps[..|ps| - 1], f);
    var p := ps[|ps| - 1];
    Put(before, p, f(Get(before, p)))
  }

  /** Doing it twice is doing it once. */
  ghost predicate Idempotent<T(!new)>(f: Option<T> -> Option<T>) { forall x :: f(f(x)) == f(x) }

  lemma {:induction false} ModifiedIs<T(!new)>(t: Trie<T>, ps: seq<Key>, f: Option<T> -> Option<T>, q: Key)
    requires Idempotent(f)
    ensures Get(Modified(t, ps, f), q) == if q in ps then f(Get(t, q)) else Get(t, q)
  {
    if ps != [] {
      var p := ps[|ps| - 1];
      ModifiedIs(t, ps[..|ps| - 1], f, q);
      var before := Modified(t, ps[..|ps| - 1], f);
      GetPut(before, p, f(Get(before, p)), q);
      assert q in ps <==> q in ps[..|ps| - 1] || q == p;
    }
  }

  lemma PutSame<T>(t: Trie<T>, p: Key)
    requires Get(t, p).Some?
    ensures Put(t, p, Get(t, p)) == t
  {
    match p {
      case Prefix(idx) => assert t.prefixes[idx := t.prefixes[idx]] == t.prefixes;
      case ChildPrefix(hi, lo) =>
        assert t.children[hi][lo := t.children[hi][lo]] == t.children[hi];
        assert t.children[hi := t.children[hi]] == t.children;
      case Singleton(port) => assert t.singletons[port := t.singletons[port]] == t.singletons;
    }
  }

  /** An edit that changes none of the listed entries changes nothing. */
  lemma {:induction false} ModifiedSame<T>(t: Trie<T>, ps: seq<Key>, f: Option<T> -> Option<T>)
    requires forall p :: p in ps ==> Get(t, p).Some? && f(Get(t, p)) == Get(t, p)
    ensures Modified(t, ps, f) == t
  {
    if ps != [] {
      ModifiedSame(t, ps[..|ps| - 1], f);
      PutSame(t, ps[|ps| - 1]);
    }
  }

  // Where a port is looked up.

  lemma PrefixSpan(idx: Index)
    ensures P.Start(P.Prefix(idx)) == 256 * RangeOf(idx).0 && P.End(P.Prefix(idx)) == 256 * RangeOf(idx).1 + 255
  {
    var (first, len) := Prefix(idx);
    P.HighPower(len);
    RangeClosedForm(idx);
    RangeWidth(idx);
    P.EndIs(P.Prefix(idx), 256 * first, len);
  }

  lemma ChildSpan(hi: Octet, lo: Index)
    ensures P.Start(P.ChildPrefix(hi, lo)) == 256 * (hi as int) + RangeOf(lo).0
    ensures P.End(P.ChildPrefix(hi, lo)) == 256 * (hi as int) + RangeOf(lo).1
  {
    var (first, len) := Prefix(lo);
    RangeClosedForm(lo);
    RangeWidth(lo);
    assert P.Form(P.ChildPrefix(hi, lo)) == (256 * (hi as int) + first, 8 + len);
    P.EndIs(P.ChildPrefix(hi, lo), 256 * (hi as int) + first, 8 + len);
  }

  lemma InHigh(a: int, b: int, port: P.Port)
    ensures 256 * a <= port <= 256 * b + 255 <==> a <= port / 256 <= b
  {
  }

  lemma InLow(hi: Octet, a: int, b: int, port: P.Port)
    requires 0 <= a && b < 256
    ensures 256 * (hi as int) + a <= port <= 256 * (hi as int) + b <==> hi == port / 256 && a <= port % 256 <= b
  {
  }

  lemma InRangeIsAncestor(i: Index, o: Octet)
    ensures RangeOf(i).0 <= o <= RangeOf(i).1 <==> IsAncestor(i, FromPfx7(o))
    ensures 0 <= RangeOf(i).0 && RangeOf(i).1 < 256
  {
    RangeIsDescent(i, o);
    FringeAncestors(i, o);
    RangeClosedForm(i);
  }

  predicate Holds(p: Key, port: P.Port) { P.Start(p) <= port <= P.End(p) }

  /** The entries a lookup of `port` visits: the ancestors of its high byte, those of its low byte in the child
      of its high byte, and the port itself. */
  predicate Visits(p: Key, port: P.Port) {
    match p
    case Prefix(idx) => idx in Ancestors(FromPfx7(port / 256))
    case ChildPrefix(hi, lo) => hi == port / 256 && lo in Ancestors(FromPfx7(port % 256))
    case Singleton(q) => q == port
  }

  /** They are the blocks that hold the port. */
  lemma VisitsIsHolds(p: Key, port: P.Port)
    ensures Visits(p, port) <==> Holds(p, port)
  {
    match p {
      case Prefix(idx) =>
        AncestorsAre(FromPfx7(port / 256));
        PrefixSpan(idx);
        InHigh(RangeOf(idx).0, RangeOf(idx).1, port);
        InRangeIsAncestor(idx, port / 256);
      case ChildPrefix(hi, lo) =>
        AncestorsAre(FromPfx7(port % 256));
        ChildSpan(hi, lo);
        InRangeIsAncestor(lo, port % 256);
        InLow(hi, RangeOf(lo).0, RangeOf(lo).1, port);
      case Singleton(q) => SingletonSpan(q);
    }
  }

  lemma SingletonSpan(q: P.Port)
    ensures P.Start(P.Singleton(q)) == q == P.End(P.Singleton(q))
  {
    assert Pow2(0) == 1;
    P.EndIs(P.Singleton(q), q, 16);
  }

  // Ids by port range.

  type Range = (int, int)

  predicate ValidRange(r: Range) { 0 <= r.0 < 0x1_0000 && 0 <= r.1 < 0x1_0000 }

  function Keys(r: Range): seq<Key>
    requires ValidRange(r)
  {
    P.Prefixes(P.Decompose(r.0, r.1))
  }

  /** Id `id` is where it belongs as far as `p` is concerned, and `p` is not empty. */
  predicate RightAt(e: Option<set<nat>>, ranges: map<nat, Range>, p: Key, id: nat)
    requires id in ranges ==> ValidRange(ranges[id])
  {
    && (e.Some? && id in e.value <==> id in ranges && p in Keys(ranges[id]))
    && e != Some({})
  }

  ghost predicate ValidRanges(ranges: map<nat, Range>) { forall id :: id in ranges ==> ValidRange(ranges[id]) }

  /** The trie holds exactly the ids of `ranges`, each under the blocks of its range, and no empty entries. */
  ghost predicate Represents(t: Trie<set<nat>>, ranges: map<nat, Range>) {
    ValidRanges(ranges) && forall p, id :: RightAt(Get(t, p), ranges, p, id)
  }

  /** What `insert` does to an entry of the port trie. */
  function Mark(id: nat): Option<set<nat>> -> Option<set<nat>> { (x: Option<set<nat>>) => With(x, id) }

  /** What `remove` does to an entry of the port trie. */
  function Unmark(id: nat): Option<set<nat>> -> Option<set<nat>> { (x: Option<set<nat>>) => Without(x, id) }

  lemma MarkTwice(id: nat)
    ensures Idempotent(Mark(id)) && Idempotent(Unmark(id))
  {
    forall x: Option<set<nat>>
      ensures With(With(x, id), id) == With(x, id) && Without(Without(x, id), id) == Without(x, id)
    {
      assert {id} + {id} == {id};
      assert x.Some? ==> x.value + {id} + {id} == x.value + {id} && x.value - {id} - {id} == x.value - {id};
    }
  }

  lemma WithIsRight(e: Option<set<nat>>, ranges: map<nat, Range>, id: nat, r: Range, p: Key, j: nat)
    requires ValidRanges(ranges) && ValidRange(r) && (id in ranges ==> ranges[id] == r)
    requires RightAt(e, ranges, p, j) && RightAt(e, ranges, p, id)
    ensures RightAt(if p in Keys(r) then With(e, id) else e, ranges[id := r], p, j)
  {
    if p in Keys(r) { assert id in With(e, id).value; }
  }

  lemma WithoutIsRight(e: Option<set<nat>>, ranges: map<nat, Range>, id: nat, p: Key, j: nat)
    requires ValidRanges(ranges) && id in ranges
    requires RightAt(e, ranges, p, j) && RightAt(e, ranges, p, id)
    ensures RightAt(if p in Keys(ranges[id]) then Without(e, id) else e, ranges - {id}, p, j)
  {
    if e.Some? && j in e.value && j != id { assert j in e.value - {id}; }
  }

  lemma MarkRepresents(t: Trie<set<nat>>, ranges: map<nat, Range>, id: nat, r: Range)
    requires Represents(t, ranges) && ValidRange(r) && (id in ranges ==> ranges[id] == r)
    ensures Represents(Modified(t, Keys(r), Mark(id)), ranges[id := r])
  {
    var t', ranges' := Modified(t, Keys(r), Mark(id)), ranges[id := r];
    MarkTwice(id);
    forall p, j ensures RightAt(Get(t', p), ranges', p, j) {
      ModifiedIs(t, Keys(r), Mark(id), p);
      WithIsRight(Get(t, p), ranges, id, r, p, j);
    }
  }

  /** Entering an id again changes nothing. */
  lemma MarkAgain(t: Trie<set<nat>>, ranges: map<nat, Range>, id: nat)
    requires Represents(t, ranges) && id in ranges
    ensures Modified(t, Keys(ranges[id]), Mark(id)) == t
  {
    forall p | p in Keys(ranges[id]) ensures Get(t, p).Some? && With(Get(t, p), id) == Get(t, p) {
      assert RightAt(Get(t, p), ranges, p, id);
      assert Get(t, p).value + {id} == Get(t, p).value;
    }
    ModifiedSame(t, Keys(ranges[id]), Mark(id));
  }

  lemma UnmarkRepresents(t: Trie<set<nat>>, ranges: map<nat, Range>, id: nat)
    requires Represents(t, ranges) && id in ranges
    ensures Represents(Modified(t, Keys(ranges[id]), Unmark(id)), ranges - {id})
  {
    var t', ranges' := Modified(t, Keys(ranges[id]), Unmark(id)), ranges - {id};
    MarkTwice(id);
    forall p, j ensures RightAt(Get(t', p), ranges', p, j) {
      ModifiedIs(t, Keys(ranges[id]), Unmark(id), p);
      WithoutIsRight(Get(t, p), ranges, id, p, j);
    }
  }

  // What a lookup finds.

  /** An id is found at a port: some visited entry holds it. */
  ghost predicate Found(t: Trie<set<nat>>, port: P.Port, id: nat) {
    exists p :: Visits(p, port) && Get(t, p).Some? && id in Get(t, p).value
  }

  lemma {:induction false} PrefixAt(bs: seq<P.Block>, i: nat)
    requires i < |bs|
    ensures P.Prefixes(bs)[i] == P.PrefixOf(bs[i])
  {
    if i < |bs| - 1 {
      PrefixAt(bs[..|bs| - 1], i);
    }
  }

  lemma BlockHolds(bs: seq<P.Block>, i: nat, port: P.Port)
    requires i < |bs|
    ensures Holds(P.Prefixes(bs)[i], port) <==> P.Holds(bs[i], port)
  {
    PrefixAt(bs, i);
    P.PrefixOfIs(bs[i]);
  }

  lemma {:induction false} AnyHoldsAt(bs: seq<P.Block>, port: P.Port) returns (i: int)
    ensures P.AnyHolds(bs, port) ==> 0 <= i < |bs| && P.Holds(bs[i], port)
  {
    i := -1;
    if bs != [] {
      if P.Holds(bs[0], port) { return 0; }
      i := AnyHoldsAt(bs[1..], port);
      i := i + 1;
    }
  }

  lemma {:induction false} HoldsAny(bs: seq<P.Block>, port: P.Port, i: nat)
    requires i < |bs| && P.Holds(bs[i], port)
    ensures P.AnyHolds(bs, port)
  {
    if i > 0 { HoldsAny(bs[1..], port, i - 1); }
  }

  /** The ports an id answers to: its range, or all of them when its range has 65535 ports. */
  predicate Answers(r: Range, port: P.Port) { r.0 <= port <= r.1 || r.1 - r.0 + 1 == 0xFFFF }

  lemma KeyAnswers(r: Range, port: P.Port, p: Key)
    requires ValidRange(r) && p in Keys(r) && Holds(p, port)
    ensures Answers(r, port)
  {
    var bs := P.Decompose(r.0, r.1);
    var i :| 0 <= i < |bs| && P.Prefixes(bs)[i] == p;
    BlockHolds(bs, i, port);
    HoldsAny(bs, port, i);
    P.DecomposeCovers(r.0, r.1, port);
  }

  lemma AnswerHasKey(r: Range, port: P.Port) returns (p: Key)
    requires ValidRange(r) && Answers(r, port)
    ensures p in Keys(r) && Holds(p, port)
  {
    var bs := P.Decompose(r.0, r.1);
    P.DecomposeCovers(r.0, r.1, port);
    var i := AnyHoldsAt(bs, port);
    BlockHolds(bs, i, port);
    p := P.Prefixes(bs)[i];
  }

  /** A lookup finds exactly the ids that answer to the port. */
  lemma FoundIs(t: Trie<set<nat>>, ranges: map<nat, Range>, port: P.Port, id: nat)
    requires Represents(t, ranges)
    ensures Found(t, port, id) <==> id in ranges && Answers(ranges[id], port)
  {
    if Found(t, port, id) {
      var p :| Visits(p, port) && Get(t, p).Some? && id in Get(t, p).value;
      assert RightAt(Get(t, p), ranges, p, id);
      VisitsIsHolds(p, port);
      KeyAnswers(ranges[id], port, p);
    }
    if id in ranges && Answers(ranges[id], port) {
      var p := AnswerHasKey(ranges[id], port);
      assert RightAt(Get(t, p), ranges, p, id);
      VisitsIsHolds(p, port);
    }
  }

  /** The ids found at both ends of the port space are those of the whole range and, beside it, those of the
      two ranges one port short of it. */
  lemma AllPortsIds(t: Trie<set<nat>>, ranges: map<nat, Range>, id: nat)
    requires Represents(t, ranges)
    ensures Found(t, 0, id) && Found(t, 0xFFFF, id) <==>
            id in ranges && (ranges[id] == (0, 0xFFFF) || ranges[id] == (0, 0xFFFE) || ranges[id] == (1, 0xFFFF))
  {
    FoundIs(t, ranges, 0, id);
    FoundIs(t, ranges, 0xFFFF, id);
    if id in ranges { AnswersAtBothEnds(ranges[id]); }
  }

  lemma AnswersAtBothEnds(r: Range)
    requires ValidRange(r)
    ensures Answers(r, 0) && Answers(r, 0xFFFF) <==> r == (0, 0xFFFF) || r == (0, 0xFFFE) || r == (1, 0xFFFF)
  {
  }

  // The code.

  /** The union of the entries of `m` under the set bits of `bits`, in ascending order. */
  method UnionAt(m: map<int, set<nat>>, bits: set<int>, acc: set<nat>) returns (ids: set<nat>)
    requires forall b :: b in bits ==> 0 <= b < 256
    ensures forall id :: id in ids <==> id in acc || exists b :: b in bits && b in m && id in m[b]
  {
    ids := acc;
    var i := 0;
    while i < 256
      invariant 0 <= i <= 256
      invariant forall id :: id in ids <==> id in acc || exists b :: b in bits && b in m && b < i && id in m[b]
    {
      if i in bits && i in m { ids := ids + m[i]; }
      i := i + 1;
    }
  }

  /** `id` is in an entry of `m` that a lookup of `octet` visits. */
  ghost predicate FoundIn(m: map<int, set<nat>>, octet: Octet, id: nat) {
    exists b :: b in Ancestors(FromPfx7(octet)) && b in m && id in m[b]
  }

  lemma FoundParts(t: Trie<set<nat>>, port: P.Port, id: nat)
    ensures Found(t, port, id) <==>
            || FoundIn(t.prefixes, port / 256, id)
            || (port / 256 in t.children && FoundIn(t.children[port / 256], port % 256, id))
            || (port in t.singletons && id in t.singletons[port])
  {
    var hi, lo := port / 256, port % 256;
    if FoundIn(t.prefixes, hi, id) {
      var b :| b in Ancestors(FromPfx7(hi)) && b in t.prefixes && id in t.prefixes[b];
      AncestorIsIndex(b, hi);
      assert Visits(P.Prefix(b), port);
    }
    if hi in t.children && FoundIn(t.children[hi], lo, id) {
      var b :| b in Ancestors(FromPfx7(lo)) && b in t.children[hi] && id in t.children[hi][b];
      AncestorIsIndex(b, lo);
      assert Visits(P.ChildPrefix(hi, b), port);
    }
    if port in t.singletons && id in t.singletons[port] { assert Visits(P.Singleton(port), port); }
  }

  lemma AncestorIsIndex(b: int, octet: Octet)
    ensures b in Ancestors(FromPfx7(octet)) ==> 1 <= b < 256
  {
    AncestorsAre(FromPfx7(octet));
    if IsAncestor(b, FromPfx7(octet)) { AncestorBounds(b, FromPfx7(octet)); }
  }

  /** What `lookup` yields, united. */
  method Union(t: Trie<set<nat>>, port: P.Port) returns (ids: set<nat>)
    ensures forall id :: id in ids <==> Found(t, port, id)
  {
    forall b, octet: Octet ensures b in Ancestors(FromPfx7(octet)) ==> 1 <= b < 256 { AncestorIsIndex(b, octet); }
    ids := UnionAt(t.prefixes, Ancestors(FromPfx7(port / 256)), {});
    if port / 256 in t.children {
      ids := UnionAt(t.children[port / 256], Ancestors(FromPfx7(port % 256)), ids);
    }
    if port in t.singletons { ids := ids + t.singletons[port]; }
    forall id ensures id in ids <==> Found(t, port, id) { FoundParts(t, port, id); }
  }

  class Ports {
    var trie: Trie<set<nat>>
    ghost var ranges: map<nat, Range>

    ghost predicate Valid()
      reads this
    {
      Represents(trie, ranges)
    }

    constructor ()
      ensures Valid() && ranges == map[]
    {
      trie, ranges := Trie(map[], map[], map[]), map[];
    }

    /** `modify`, over the blocks of the range in turn. */
    method Modify(r: Range, f: Option<set<nat>> -> Option<set<nat>>)
      requires ValidRange(r)
      modifies this`trie
      ensures trie == Modified(old(trie), Keys(r), f)
    {
      var ps := P.IterPrefixes(r.0, r.1);
      var i := 0;
      while i < |ps|
        invariant 0 <= i <= |ps| && trie == Modified(old(trie), ps[..i], f)
      {
        assert ps[..i + 1][..i] == ps[..i];
        trie := Put(trie, ps[i], f(Get(trie, ps[i])));
        i := i + 1;
      }
      assert ps[..|ps|] == ps;
    }

    method Insert(id: nat, r: Range)
      requires Valid() && ValidRange(r) && (id in ranges ==> ranges[id] == r)
      modifies this
      ensures Valid() && ranges == old(ranges)[id := r]
    {
      MarkRepresents(trie, ranges, id, r);
      Modify(r, Mark(id));
      ranges := ranges[id := r];
    }

    method Remove(id: nat, r: Range)
      requires Valid() && id in ranges && ranges[id] == r
      modifies this
      ensures Valid() && ranges == old(ranges) - {id}
    {
      UnmarkRepresents(trie, ranges, id);
      Modify(r, Unmark(id));
      ranges := ranges - {id};
    }

    /** `port_bitset`: the union of what `lookup` yields. */
    method Lookup(port: P.Port) returns (ids: set<nat>)
      requires Valid()
      ensures forall id :: id in ids <==> id in ranges && Answers(ranges[id], port)
    {
      ids := Union(trie, port);
      forall id ensures id in ids <==> id in ranges && Answers(ranges[id], port) { FoundIs(trie, ranges, port, id); }
    }
  }
}
