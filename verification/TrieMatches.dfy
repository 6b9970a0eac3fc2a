/** The routes of a trie that cover an address or a prefix, most specific first. */
module TrieMatches {
  import opened Wrappers
  import opened BaseIndex
  import opened Trie

  /** Prefix `k` contains prefix `q`.  An address is the key of its full-length prefix. */
  predicate CoversKey(k: Key, q: Key) {
    && k.path <= q.path
    && if |k.path| < |q.path| then Covers(k.idx, q.path[|k.path|]) else IsAncestor(k.idx, q.idx)
  }

  /** The length of a prefix in bits. */
  function Bits(k: Key): nat
    requires k.idx >= 1
  {
    8 * |k.path| + Level(k.idx)
  }

  /** Where the stride at `depth` starts its ancestor walk: the octet's /7, or the query's own index in the
      query's last stride. */
  function Start(q: Key, depth: nat): int
    requires depth <= |q.path|
  {
    if depth == |q.path| then q.idx else 128 + q.path[depth] / 2
  }

  /** The matches of one node: the stored ancestors of index `i`, from the longest. */
  ghost function NodeMatches<T>(prefixes: map<int, T>, path: seq<int>, i: int): seq<(Key, T)>
    decreases i
  {
    if i < 1 then []
    else (if i in prefixes then [(Key(path, i), prefixes[i])] else []) + NodeMatches(prefixes, path, i / 2)
  }

  ghost function Matches<T>(node: Node<T>, q: Key, depth: nat): seq<(Key, T)>
    requires depth <= |q.path|
    decreases |q.path| - depth, 1
  {
    ChildMatches(node, q, depth) + NodeMatches(node.prefixes, q.path[..depth], Start(q, depth))
  }

  ghost function ChildMatches<T>(node: Node<T>, q: Key, depth: nat): seq<(Key, T)>
    requires depth <= |q.path|
    decreases |q.path| - depth, 0
  {
    if depth == |q.path| || q.path[depth] !in node.children then []
    else
      match node.children[q.path[depth]]
      case Path(m) => Matches(m, q, depth + 1)
      case Leaf(k, v) => if CoversKey(k, q) then [(k, v)] else []
      case Fringe(v) => [(Key(q.path[..depth + 1], 1), v)]
  }

  /** The walk of a stride stays inside the base indices. */
  lemma StartIsIndex(q: Key, n: nat, depth: nat)
    requires ValidKey(q, n) && depth <= |q.path|
    ensures 1 <= Start(q, depth) < 256
  {
  }

  lemma {:induction false} NodeMatchesAre<T>(prefixes: map<int, T>, path: seq<int>, i: int, k: Key, v: T)
    ensures (k, v) in NodeMatches(prefixes, path, i)
            <==> k.path == path && IsAncestor(k.idx, i) && k.idx in prefixes && prefixes[k.idx] == v
    decreases i
  {
    if i >= 1 { NodeMatchesAre(prefixes, path, i / 2, k, v); }
  }

  /** A key held by the node at `path` covers the query exactly when its index is on the walk. */
  lemma OwnKeyCovers(q: Key, n: nat, path: seq<int>, k: Key)
    requires ValidKey(q, n) && path <= q.path && Below(k, n, path) && k.path == path
    ensures CoversKey(k, q) <==> IsAncestor(k.idx, Start(q, |path|))
  {
    if |path| < |q.path| { FringeAncestors(k.idx, q.path[|path|]); }
  }

  /** A key held further down covers the query only through the octet the query goes through. */
  lemma DeeperKeyCovers(q: Key, path: seq<int>, k: Key)
    requires path <= q.path && path <= k.path && |path| < |k.path| && CoversKey(k, q)
    ensures |path| < |q.path| && k.path[|path|] == q.path[|path|] && k.path[..|path| + 1] == q.path[..|path| + 1]
  {
    assert k.path[..|path| + 1] == q.path[..|path| + 1];
  }

  lemma IsAncestorOfRoot(i: int)
    requires i >= 1
    ensures IsAncestor(1, i)
    decreases i
  {
    if i > 1 { IsAncestorOfRoot(i / 2); }
  }

  /** The match list is exact: it holds a route if and only if the route is stored and covers the
      query. */
  lemma {:induction false} MatchesAre<T>(node: Node<T>, n: nat, path: seq<int>, q: Key, k: Key, v: T)
    requires WellFormed(node, n, path) && Below(q, n, path) && Below(k, n, path)
    ensures (k, v) in Matches(node, q, |path|) <==> CoversKey(k, q) && Find(node, k, |path|) == Some(v)
    decreases n - |path|
  {
    assert q.path[..|path|] == path;
    NodeMatchesAre(node.prefixes, path, Start(q, |path|), k, v);
    ChildMatchesAre(node, n, path, q, k, v);
    if |k.path| == |path| {
      assert k.path == path;
      OwnKeyCovers(q, n, path, k);
    }
  }

  lemma {:induction false} ChildMatchesAre<T>(node: Node<T>, n: nat, path: seq<int>, q: Key, k: Key, v: T)
    requires WellFormed(node, n, path) && Below(q, n, path) && Below(k, n, path)
    ensures (k, v) in ChildMatches(node, q, |path|)
            <==> |path| < |k.path| && CoversKey(k, q) && Find(node, k, |path|) == Some(v)
    decreases n - |path|, 0
  {
    if |path| < |k.path| && CoversKey(k, q) { DeeperKeyCovers(q, path, k); }
    if |path| < |q.path| && q.path[|path|] in node.children {
      var o := q.path[|path|];
      var c := node.children[o];
      assert WellFormedChild(c, n, path + [o]);
      assert q.path[..|path| + 1] == path + [o];
      if path + [o] <= k.path {
        FindThroughChild(node, n, path, k);
        if c.Path? { MatchesAre(c.node, n, path + [o], q, k, v); }
        FringeCovers(q, n, path + [o]);
      } else {
        OutsideIsNotMatched(node, n, path, q, k, v);
        if |path| < |k.path| { assert k.path[..|path| + 1] == path + [k.path[|path|]]; }
      }
    } else if |path| < |k.path| {
      FindThroughChild(node, n, path, k);
    }
  }

  lemma FringeCovers(q: Key, n: nat, path: seq<int>)
    requires Below(q, n, path)
    ensures CoversKey(Key(path, 1), q)
  {
    if |path| < |q.path| { IsAncestorOfRoot(256 + q.path[|path|]); } else { IsAncestorOfRoot(q.idx); }
  }

  /** Every match found through a child lies below that child. */
  lemma {:induction false} OutsideIsNotMatched<T>(node: Node<T>, n: nat, path: seq<int>, q: Key, k: Key, v: T)
    requires WellFormed(node, n, path) && Below(q, n, path) && |path| < |q.path|
    requires !(path + [q.path[|path|]] <= k.path)
    ensures (k, v) !in ChildMatches(node, q, |path|)
    decreases n - |path|
  {
    var o := q.path[|path|];
    assert q.path[..|path| + 1] == path + [o];
    if o in node.children {
      var c := node.children[o];
      assert WellFormedChild(c, n, path + [o]);
      if c.Path? {
        NodeMatchesAre(c.node.prefixes, path + [o], Start(q, |path| + 1), k, v);
        if |path| + 1 < |q.path| {
          assert !(path + [o] + [q.path[|path| + 1]] <= k.path);
          OutsideIsNotMatched(c.node, n, path + [o], q, k, v);
        }
        assert (k, v) !in NodeMatches(c.node.prefixes, q.path[..|path| + 1], Start(q, |path| + 1));
        assert (k, v) !in ChildMatches(c.node, q, |path| + 1);
      }
    }
  }

  /** Strictly decreasing prefix length. */
  ghost predicate MostSpecificFirst<T>(m: seq<(Key, T)>) {
    && (forall i :: 0 <= i < |m| ==> m[i].0.idx >= 1)
    && (forall i, j :: 0 <= i < j < |m| ==> Bits(m[i].0) > Bits(m[j].0))
  }

  ghost predicate AllBitsIn<T>(m: seq<(Key, T)>, lo: int, hi: int) {
    forall i :: 0 <= i < |m| ==> m[i].0.idx >= 1 && lo <= Bits(m[i].0) <= hi
  }

  lemma AppendSorted<T>(a: seq<(Key, T)>, b: seq<(Key, T)>, lo: int, mid: int, hi: int)
    requires MostSpecificFirst(a) && MostSpecificFirst(b)
    requires AllBitsIn(a, mid, hi) && AllBitsIn(b, lo, mid - 1) && lo <= mid <= hi + 1
    ensures MostSpecificFirst(a + b) && AllBitsIn(a + b, lo, hi)
  {
    assert forall i :: 0 <= i < |a + b| ==> (a + b)[i] == if i < |a| then a[i] else b[i - |a|];
  }

  /** The bits a walk from index `i` can still find. */
  ghost function WalkBits(i: int): int
    requires i >= 0
  {
    if i == 0 then -1 else Level(i)
  }

  lemma HalfWalk(i: int)
    requires i >= 1
    ensures WalkBits(i / 2) == WalkBits(i) - 1
  {
  }

  lemma OwnSorted<T>(prefixes: map<int, T>, path: seq<int>, i: int)
    requires i >= 1
    ensures var own := if i in prefixes then [(Key(path, i), prefixes[i])] else [];
            MostSpecificFirst(own) && AllBitsIn(own, 8 * |path| + Level(i), 8 * |path| + Level(i))
  {
  }

  lemma {:induction false} NodeMatchesSorted<T>(prefixes: map<int, T>, path: seq<int>, i: int)
    requires i >= 0
    ensures var m := NodeMatches(prefixes, path, i);
            && MostSpecificFirst(m)
            && AllBitsIn(m, 8 * |path|, 8 * |path| + WalkBits(i))
    decreases i
  {
    if i >= 1 {
      NodeMatchesSorted(prefixes, path, i / 2);
      HalfWalk(i);
      OwnSorted(prefixes, path, i);
      var own := if i in prefixes then [(Key(path, i), prefixes[i])] else [];
      var b, w := 8 * |path|, WalkBits(i);
      AppendSorted(own, NodeMatches(prefixes, path, i / 2), b, b + w, b + w);
    }
  }

  /** The match list is in order: strictly most specific to least specific. */
  lemma {:induction false} MatchesSorted<T>(node: Node<T>, n: nat, path: seq<int>, q: Key)
    requires WellFormed(node, n, path) && Below(q, n, path)
    ensures var m := Matches(node, q, |path|);
            MostSpecificFirst(m) && AllBitsIn(m, 8 * |path|, 8 * n)
    decreases n - |path|
  {
    assert q.path[..|path|] == path;
    var i := Start(q, |path|);
    LevelIndex(i);
    NodeMatchesSorted(node.prefixes, path, i);
    var below := ChildMatches(node, q, |path|);
    assert MostSpecificFirst(below) && AllBitsIn(below, 8 * |path| + 8, 8 * n) by {
      ChildMatchesSorted(node, n, path, q);
    }
    var b := 8 * |path|;
    WidenBits(NodeMatches(node.prefixes, path, i), b, b + Level(i), b, b + 7);
    AppendSorted(below, NodeMatches(node.prefixes, path, i), b, b + 8, 8 * n);
  }

  lemma WidenBits<T>(m: seq<(Key, T)>, lo: int, hi: int, lo': int, hi': int)
    requires AllBitsIn(m, lo, hi) && lo' <= lo && hi <= hi'
    ensures AllBitsIn(m, lo', hi')
  {
  }

  lemma {:induction false} ChildMatchesSorted<T>(node: Node<T>, n: nat, path: seq<int>, q: Key)
    requires WellFormed(node, n, path) && Below(q, n, path)
    ensures var m := ChildMatches(node, q, |path|);
            MostSpecificFirst(m) && AllBitsIn(m, 8 * |path| + 8, 8 * n)
    decreases n - |path|, 0
  {
    if |path| < |q.path| && q.path[|path|] in node.children {
      var o := q.path[|path|];
      var c := node.children[o];
      assert WellFormedChild(c, n, path + [o]);
      assert q.path[..|path| + 1] == path + [o];
      match c {
        case Path(m) => MatchesSorted(m, n, path + [o], q);
        case Leaf(k, v) => KeyBits(k, n);
        case Fringe(v) =>
      }
    }
  }

  lemma KeyBits(k: Key, n: nat)
    requires ValidKey(k, n)
    ensures 8 * |k.path| <= Bits(k) <= 8 * n
  {
    LevelIndex(k.idx);
  }
}
