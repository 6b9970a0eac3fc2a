/** A routing table of one address family (`ts_bart::SimpleTable`): the trie root and a route count. */
module Table {
  import opened Wrappers
  import opened Trie
  import opened TrieMatches
  import opened Nets
  import TrieInsert
  import TrieRemove
  import TrieModify
  import TrieLookup

  /** The trie stands for the map: exactly its keys are found, with its values. */
  ghost predicate Represents<T>(root: Node<T>, n: nat, routes: map<Key, T>) {
    && WellFormed(root, n, [])
    && (forall k :: k in routes ==> ValidKey(k, n))
    && forall k :: ValidKey(k, n) ==> Find(root, k, 0) == MapGet(routes, k)
  }

  lemma SizeAfterUpdate<T>(m: map<Key, T>, k: Key, v: T)
    ensures |m[k := v]| == |m| + (if k in m then 0 else 1)
    ensures |m - {k}| == |m| - (if k in m then 1 else 0)
  {
    assert m[k := v].Keys == m.Keys + {k};
    assert (m - {k}).Keys == m.Keys - {k};
    assert |m| == |m.Keys| && |m[k := v]| == |m[k := v].Keys| && |m - {k}| == |(m - {k}).Keys|;
  }

  lemma EmptyTrie<T>(n: nat)
    requires n > 0
    ensures Represents(EmptyNode<T>(), n, map[])
  {
  }

  lemma InsertRepresents<T>(root: Node<T>, n: nat, routes: map<Key, T>, k: Key, v: T)
    requires Represents(root, n, routes) && ValidKey(k, n)
    ensures var r := TrieInsert.Insert(root, n, k, v, 0);
            r.0 == MapGet(routes, k) && Represents(r.1, n, routes[k := v])
  {
    TrieInsert.InsertKeepsShape(root, n, [], k, v);
    var root' := TrieInsert.Insert(root, n, k, v, 0).1;
    forall q | ValidKey(q, n) ensures Find(root', q, 0) == MapGet(routes[k := v], q) {
      TrieInsert.FindAfterInsert(root, n, [], k, v, q);
    }
  }

  lemma RemoveRepresents<T>(root: Node<T>, n: nat, routes: map<Key, T>, k: Key)
    requires Represents(root, n, routes) && ValidKey(k, n)
    ensures var r := TrieRemove.Remove(root, n, k);
            r.0 == MapGet(routes, k) && Represents(r.1, n, routes - {k})
  {
    TrieRemove.RemoveIsMapRemoval(root, n, k, k);
    var root' := TrieRemove.Remove(root, n, k).1;
    forall q | ValidKey(q, n) ensures Find(root', q, 0) == MapGet(routes - {k}, q) {
      TrieRemove.RemoveIsMapRemoval(root, n, k, q);
    }
  }

  function EditedMap<T>(routes: map<Key, T>, k: Key, edit: TrieModify.Edit<T>, touch: T -> T): map<Key, T> {
    var now := TrieModify.Edited(MapGet(routes, k), edit, touch);
    if now.Some? then routes[k := now.value] else routes - {k}
  }

  lemma ModifyRepresents<T>(root: Node<T>, n: nat, routes: map<Key, T>, k: Key,
                            decide: Option<T> -> TrieModify.Edit<T>, touch: T -> T)
    requires Represents(root, n, routes) && ValidKey(k, n)
    ensures var edit := decide(MapGet(routes, k));
            var r := TrieModify.Modify(root, n, k, decide, touch);
            && Represents(r.1, n, EditedMap(routes, k, edit, touch))
            && r.0 == if edit.Noop? then None else TrieModify.Touched(MapGet(routes, k), touch)
  {
    TrieModify.ModifyIsMapEdit(root, n, k, decide, touch, k);
    var root' := TrieModify.Modify(root, n, k, decide, touch).1;
    var routes' := EditedMap(routes, k, decide(MapGet(routes, k)), touch);
    forall q | ValidKey(q, n) ensures Find(root', q, 0) == MapGet(routes', q) {
      TrieModify.ModifyIsMapEdit(root, n, k, decide, touch, q);
    }
  }

  /** The table is determined by its routes: two histories with the same outcome build the same trie. */
  lemma SameRoutesSameTrie<T(!new)>(a: Node<T>, b: Node<T>, n: nat, routes: map<Key, T>)
    requires Represents(a, n, routes) && Represents(b, n, routes)
    ensures a == b
  {
    forall q | Below(q, n, []) ensures Find(a, q, 0) == Find(b, q, 0) {}
    TrieRemove.Canonical(a, b, n, []);
  }

  /** `k` is the longest of the map's prefixes that contain `addr`. */
  ghost predicate IsLongest<T>(routes: map<Key, T>, addr: seq<int>, k: Key) {
    && k in routes && CoversKey(k, Key(addr, 1)) && k.idx >= 1
    && forall j :: j in routes && CoversKey(j, Key(addr, 1)) && j != k ==> j.idx >= 1 && Bits(j) < Bits(k)
  }

  /** What a table keeps: the trie stands for the routes, and `size` counts them. */
  ghost predicate Holds<T>(root: Node<T>, size: nat, n: nat, routes: map<Key, T>) {
    n > 0 && Represents(root, n, routes) && size == |routes|
  }

  lemma InsertHolds<T>(root: Node<T>, size: nat, n: nat, routes: map<Key, T>, k: Key, v: T)
    requires Holds(root, size, n, routes) && ValidKey(k, n)
    ensures var r := TrieInsert.Insert(root, n, k, v, 0);
            && r.0 == MapGet(routes, k)
            && Holds(r.1, if r.0.None? then size + 1 else size, n, routes[k := v])
  {
    InsertRepresents(root, n, routes, k, v);
    SizeAfterUpdate(routes, k, v);
  }

  lemma RemoveHolds<T>(root: Node<T>, size: nat, n: nat, routes: map<Key, T>, k: Key)
    requires Holds(root, size, n, routes) && ValidKey(k, n)
    ensures var r := TrieRemove.Remove(root, n, k);
            && r.0 == MapGet(routes, k)
            && (r.0.Some? ==> size > 0)
            && Holds(r.1, if r.0.Some? then size - 1 else size, n, routes - {k})
  {
    RemoveRepresents(root, n, routes, k);
    if k in routes { SizeAfterUpdate(routes, k, routes[k]); } else { assert routes - {k} == routes; }
  }

  class SimpleTable<T> {
    const n: nat
    var root: Node<T>
    var size: nat
    /** The map the table stands for. */
    ghost var routes: map<Key, T>

    ghost predicate Valid() reads this { Holds(root, size, n, routes) }

    constructor (n: nat)
      requires n > 0
      ensures Valid() && this.n == n && routes == map[]
    {
      this.n, root, size, routes := n, EmptyNode(), 0, map[];
      new;
      EmptyTrie<T>(n);
    }

    method Insert(net: Net, val: T) returns (r: Option<T>)
      requires Valid() && ValidNet(net, n)
      modifies this
      ensures Valid() && routes == old(routes)[KeyOf(net, n) := val]
      ensures r == MapGet(old(routes), KeyOf(net, n))
    {
      var k := KeyOf(net, n);
      InsertHolds(root, size, n, routes, k, val);
      var (replaced, root') := TrieInsert.Insert(root, n, k, val, 0);
      root, r, routes := root', replaced, routes[k := val];
      if r.None? { size := size + 1; }
    }

    method Remove(net: Net) returns (r: Option<T>)
      requires Valid() && ValidNet(net, n)
      modifies this
      ensures Valid() && routes == old(routes) - {KeyOf(net, n)}
      ensures r == MapGet(old(routes), KeyOf(net, n))
    {
      var k := KeyOf(net, n);
      RemoveHolds(root, size, n, routes, k);
      var (removed, root') := TrieRemove.Remove(root, n, k);
      r := removed;
      root, size, routes := root', if r.Some? then size - 1 else size, routes - {k};
    }

    method Modify(net: Net, decide: Option<T> -> TrieModify.Edit<T>, touch: T -> T) returns (r: Option<T>)
      requires Valid() && ValidNet(net, n)
      modifies this
      ensures Valid()
      ensures var k := KeyOf(net, n); routes == EditedMap(old(routes), k, decide(MapGet(old(routes), k)), touch)
      ensures var was := MapGet(old(routes), KeyOf(net, n));
              r == if decide(was).Noop? then None else TrieModify.Touched(was, touch)
    {
      var k := KeyOf(net, n);
      ghost var before := MapGet(routes, k);
      ModifyRepresents(root, n, routes, k, decide, touch);
      EditSize(routes, k, decide(before), touch);
      assert Find(root, k, 0) == before;
      var edit := decide(Find(root, k, 0));
      var (replaced, root') := TrieModify.Modify(root, n, k, decide, touch);
      root, r, routes := root', replaced, EditedMap(routes, k, edit, touch);
      if r.None? && edit.InsertValue? {
        size := size + 1;
      } else if r.Some? && edit.RemoveRoute? {
        size := size - 1;
      }
    }

    method Clear()
      requires Valid()
      modifies this
      ensures Valid() && routes == map[]
    {
      root, size, routes := EmptyNode(), 0, map[];
      EmptyTrie<T>(n);
    }

    /** `lookup`: longest-prefix match over the map. */
    method Lookup(addr: seq<int>) returns (r: Option<T>)
      requires Valid() && ValidAddr(addr, n)
      ensures r.None? <==> forall k :: k in routes ==> !CoversKey(k, Key(addr, 1))
      ensures r.Some? ==> exists k :: IsLongest(routes, addr, k) && routes[k] == r.value
    {
      r := TrieLookup.LookupAddress(root, n, addr);
      LongestInMap(root, n, routes, addr);
    }
  }

  lemma EditSize<T>(routes: map<Key, T>, k: Key, edit: TrieModify.Edit<T>, touch: T -> T)
    ensures |EditedMap(routes, k, edit, touch)| ==
            |routes| + (if edit.InsertValue? && k !in routes then 1
                        else if edit.RemoveRoute? && k in routes then -1 else 0)
  {
    var now := TrieModify.Edited(MapGet(routes, k), edit, touch);
    if now.Some? { SizeAfterUpdate(routes, k, now.value); }
    if k in routes { SizeAfterUpdate(routes, k, routes[k]); } else { assert routes - {k} == routes; }
  }

  lemma LongestInMap<T>(root: Node<T>, n: nat, routes: map<Key, T>, addr: seq<int>)
    requires Represents(root, n, routes) && ValidAddr(addr, n)
    ensures TrieLookup.IsUncovered(root, n, Key(addr, 1)) <==> forall k :: k in routes ==> !CoversKey(k, Key(addr, 1))
    ensures forall k :: TrieLookup.IsLongestRoute(root, n, Key(addr, 1), k)
                        ==> IsLongest(routes, addr, k) && Find(root, k, 0) == Some(routes[k])
  {
  }
}
