/** The multi-level routing trie (`ts_bart`, `node` and `iptrie`): its data, what it stores, and the
    shape every operation keeps. */
module Trie {
  import opened Wrappers
  import opened BaseIndex

  /** A truncated prefix as the trie addresses it: the full octets (strides), then the base index of
      the left-over bits.  A prefix on an octet boundary has index 1. */
  datatype Key = Key(path: seq<int>, idx: int) {

    /** The octet at `depth`; the walk never asks past the full strides. */
    function Octet(depth: nat): int { if depth < |path| then path[depth] else 0 }

    /** `is_fringe`: this is the /8 of the stride at `depth`. */
    predicate IsFringe(depth: nat) { |path| == depth + 1 && idx == 1 }
  }

  /** A key of an `n`-octet address family: 4 for IPv4, 16 for IPv6. */
  predicate ValidKey(k: Key, n: nat) {
    && |k.path| <= n && 1 <= k.idx < 256
    && (|k.path| == n ==> k.idx == 1)
    && forall j :: 0 <= j < |k.path| ==> 0 <= k.path[j] < 256
  }

  /** A stride node.  Each map stands for an `Array256`. */
  datatype Node<T> = Node(prefixes: map<int, T>, children: map<int, Child<T>>)

  datatype Child<T> = Path(node: Node<T>) | Leaf(key: Key, value: T) | Fringe(fringeValue: T)

  function EmptyNode<T>(): Node<T> { Node(map[], map[]) }

  predicate IsEmpty<T>(node: Node<T>) { |node.prefixes| == 0 && |node.children| == 0 }

  function Put<T>(node: Node<T>, o: int, c: Child<T>): Node<T> { node.(children := node.children[o := c]) }

  /** A route stored directly under its octet, without a node of its own. */
  function Entry<T>(k: Key, v: T, depth: nat): Child<T> {
    if k.IsFringe(depth) then Fringe(v) else Leaf(k, v)
  }

  /** `lookup_prefix_exact` for a truncated prefix.  Read as a function of the key, it is the map the
      trie stands for. */
  function Find<T>(node: Node<T>, k: Key, depth: nat): Option<T>
    decreases |k.path| - depth
  {
    if depth >= |k.path| then MapGet(node.prefixes, k.idx)
    else if k.path[depth] !in node.children then None
    else
      match node.children[k.path[depth]]
      case Path(m) => Find(m, k, depth + 1)
      case Leaf(lk, v) => if lk == k then Some(v) else None
      case Fringe(v) => if k.IsFringe(depth) then Some(v) else None
  }

  /** Fewer than two routes below: such a node is never kept as a child. */
  predicate IsLight<T>(node: Node<T>) {
    || (|node.prefixes| == 0 && |node.children| == 0)
    || (|node.prefixes| == 1 && |node.children| == 0)
    || (|node.prefixes| == 0 && |node.children| == 1 && forall o | o in node.children :: !node.children[o].Path?)
  }

  /** The shape of a node reached by `path`: every route below sits where its octets say, no prefix that
      could be a fringe is a leaf, and no child node is light (path compression). */
  ghost predicate WellFormed<T>(node: Node<T>, n: nat, path: seq<int>)
    decreases node
  {
    && |path| < n
    && (forall i :: i in node.prefixes ==> 1 <= i < 256)
    && (forall o :: o in node.children ==> 0 <= o < 256)
    && (forall o :: o in node.children ==> WellFormedChild(node.children[o], n, path + [o]))
  }

  ghost predicate WellFormedChild<T>(c: Child<T>, n: nat, path: seq<int>)
    decreases c
  {
    match c
    case Path(m) => WellFormed(m, n, path) && !IsLight(m)
    case Leaf(k, _) => ValidKey(k, n) && path <= k.path && !(k.path == path && k.idx == 1)
    case Fringe(_) => true
  }

  /** A key that belongs below the node at `path`. */
  predicate Below(k: Key, n: nat, path: seq<int>) { ValidKey(k, n) && path <= k.path }

  /** The route of a directly stored child, if it is not a node. */
  function RouteOf<T>(c: Child<T>, path: seq<int>): Key
    requires !c.Path?
  {
    if c.Leaf? then c.key else Key(path, 1)
  }

  /** What `Find` sees through the child it descends into. */
  lemma FindThroughChild<T>(node: Node<T>, n: nat, path: seq<int>, k: Key)
    requires WellFormed(node, n, path) && Below(k, n, path) && |path| < |k.path|
    ensures var o := k.path[|path|];
            && Below(k, n, path + [o])
            && (o !in node.children ==> Find(node, k, |path|) == None)
            && (o in node.children && node.children[o].Path? ==>
                  Find(node, k, |path|) == Find(node.children[o].node, k, |path| + 1))
            && (o in node.children && node.children[o].Leaf? ==>
                  Find(node, k, |path|) == if k == node.children[o].key then Some(node.children[o].value) else None)
            && (o in node.children && node.children[o].Fringe? ==>
                  Find(node, k, |path|) == if k == Key(path + [o], 1) then Some(node.children[o].fringeValue) else None)
  {
    var o := k.path[|path|];
    assert k.path[..|path| + 1] == path + [o];
    if k.IsFringe(|path|) { assert k == Key(path + [o], 1); }
  }

  lemma EntryShape<T>(k: Key, v: T, n: nat, path: seq<int>, o: int)
    requires Below(k, n, path + [o])
    ensures WellFormedChild(Entry(k, v, |path|), n, path + [o])
    ensures var e := Entry(k, v, |path|); RouteOf(e, path + [o]) == k
  {
    if k.IsFringe(|path|) { assert k.path == path + [o]; }
  }

  /** Putting a good child under an octet keeps the shape. */
  lemma PutShape<T>(node: Node<T>, n: nat, path: seq<int>, o: int, c: Child<T>)
    requires WellFormed(node, n, path) && 0 <= o < 256 && WellFormedChild(c, n, path + [o])
    ensures WellFormed(Put(node, o, c), n, path)
  {
    var node' := Put(node, o, c);
    forall u | u in node'.children ensures WellFormedChild(node'.children[u], n, path + [u]) {
      if u != o { assert WellFormedChild(node.children[u], n, path + [u]); }
    }
  }

  lemma PutSize<V>(m: map<int, V>, x: int, v: V)
    ensures |m[x := v]| == |m| + (if x in m then 0 else 1)
    ensures |m[x := v]| >= 1
  {
    assert m[x := v].Keys == m.Keys + {x};
    assert |m| == |m.Keys| && |m[x := v]| == |m[x := v].Keys|;
    if x in m { assert m.Keys + {x} == m.Keys; }
    EmptyOrMember(m.Keys);
  }

  lemma OnlyMember<V>(m: map<int, V>, x: int)
    requires x in m && |m| == 1
    ensures forall y :: y in m ==> y == x
  {
    assert |m| == |m.Keys|;
    forall y | y in m ensures y == x {
      if y != x {
        assert {x, y} <= m.Keys;
        SubsetSize({x, y}, m.Keys);
      }
    }
  }

  lemma SubsetSize(a: set<int>, b: set<int>)
    requires a <= b
    ensures |a| <= |b|
  {
    assert b == a + (b - a);
  }

  /** `Put` leaves a light node only where it replaces the only entry, or fills an empty node, with a route. */
  lemma PutIsNotLight<T>(node: Node<T>, o: int, c: Child<T>)
    requires c.Path? || !(|node.prefixes| == 0 && |node.children| == (if o in node.children then 1 else 0))
    ensures !IsLight(Put(node, o, c))
  {
    PutSize(node.children, o, c);
    assert Put(node, o, c).children[o] == c;
  }

  /** Routes under another octet are not affected by what happens to one child. */
  lemma FindElsewhere<T>(node: Node<T>, node': Node<T>, k: Key, depth: nat)
    requires depth < |k.path|
    requires k.path[depth] in node.children <==> k.path[depth] in node'.children
    requires k.path[depth] in node.children ==> node.children[k.path[depth]] == node'.children[k.path[depth]]
    ensures Find(node, k, depth) == Find(node', k, depth)
  {
  }

  /** A node that is neither empty nor light stores at least two routes. */
  lemma TwoRoutes<T>(node: Node<T>, n: nat, path: seq<int>) returns (a: Key, b: Key)
    requires WellFormed(node, n, path) && !IsLight(node)
    requires forall j :: 0 <= j < |path| ==> 0 <= path[j] < 256
    ensures a != b && Below(a, n, path) && Below(b, n, path)
    ensures Find(node, a, |path|).Some? && Find(node, b, |path|).Some?
    decreases node
  {
    if i, j :| i in node.prefixes && j in node.prefixes && i != j {
      a := OwnRoute(node, n, path, i);
      b := OwnRoute(node, n, path, j);
    } else if i, o :| i in node.prefixes && o in node.children {
      a := OwnRoute(node, n, path, i);
      b := SomeRoute(node, n, path, o);
    } else if o, u :| o in node.children && u in node.children && o != u {
      a := SomeRoute(node, n, path, o);
      b := SomeRoute(node, n, path, u);
    } else {
      var o := OnlyChildIsPath(node);
      a, b := TwoRoutesBelow(node, n, path, o);
    }
  }

  lemma TwoRoutesBelow<T>(node: Node<T>, n: nat, path: seq<int>, o: int) returns (a: Key, b: Key)
    requires WellFormed(node, n, path) && o in node.children && node.children[o].Path?
    requires forall j :: 0 <= j < |path| ==> 0 <= path[j] < 256
    ensures a != b && Below(a, n, path) && Below(b, n, path)
    ensures Find(node, a, |path|).Some? && Find(node, b, |path|).Some?
    decreases node, 0
  {
    assert WellFormedChild(node.children[o], n, path + [o]);
    a, b := TwoRoutes(node.children[o].node, n, path + [o]);
    assert a.path[|path|] == o && b.path[|path|] == o;
    FindThroughChild(node, n, path, a);
    FindThroughChild(node, n, path, b);
  }

  lemma OwnRoute<T>(node: Node<T>, n: nat, path: seq<int>, i: int) returns (k: Key)
    requires WellFormed(node, n, path) && i in node.prefixes
    requires forall j :: 0 <= j < |path| ==> 0 <= path[j] < 256
    ensures k == Key(path, i) && Below(k, n, path) && Find(node, k, |path|).Some?
  {
    k := Key(path, i);
  }

  lemma OnlyChildIsPath<T>(node: Node<T>) returns (o: int)
    requires !IsLight(node)
    requires forall i, j :: i in node.prefixes && j in node.prefixes ==> i == j
    requires forall i, o :: i in node.prefixes ==> o !in node.children
    requires forall o, u :: o in node.children && u in node.children ==> o == u
    ensures o in node.children && node.children[o].Path?
  {
    AtMostOne(node.prefixes);
    AtMostOne(node.children);
    o :| o in node.children && node.children[o].Path?;
  }

  lemma AtMostOne<V>(m: map<int, V>)
    requires forall i, j :: i in m && j in m ==> i == j
    ensures |m| <= 1
    ensures |m| == 0 <==> forall i :: i !in m
  {
    if i :| i in m {
      assert forall j :: j in m.Keys <==> j in {i};
      assert m.Keys == {i};
    }
    EmptyOrMember(m.Keys);
    assert |m| == |m.Keys|;
  }

  /** Every child stores a route. */
  lemma SomeRoute<T>(node: Node<T>, n: nat, path: seq<int>, o: int) returns (k: Key)
    requires WellFormed(node, n, path) && o in node.children
    requires forall j :: 0 <= j < |path| ==> 0 <= path[j] < 256
    ensures Below(k, n, path + [o]) && path + [o] <= k.path
    ensures Find(node, k, |path|).Some?
    decreases node, 0
  {
    var c := node.children[o];
    assert WellFormedChild(c, n, path + [o]);
    if c.Path? {
      var b;
      k, b := TwoRoutes(c.node, n, path + [o]);
    } else {
      k := RouteOf(c, path + [o]);
    }
    assert k.path[|path|] == o;
    FindThroughChild(node, n, path, k);
  }
}
