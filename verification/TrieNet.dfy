/** Lookups by prefix (`lookup_prefix_lpm`, `lookup_prefix_exact`), on prefixes as callers write them. */
module TrieNet {
  import opened Wrappers
  import opened BaseIndex
  import opened Trie
  import opened TrieMatches
  import opened Nets
  import TrieInsert
  import TrieLookup

  datatype Answer<T> = NoRoute | Route(net: Net, value: T) {
    function Else(other: Answer<T>): Answer<T> { if NoRoute? then other else this }
  }

  /** The node's own best match for index `i`.  The prefix handed out is the query's address with the
      match's length. */
  ghost function NodeAnswer<T>(prefixes: map<int, T>, i: int, addr: seq<int>, depth: nat): Answer<T>
    decreases i
  {
    if i < 1 then NoRoute
    else if i in prefixes then Route(Net(addr, 8 * depth + Level(i)), prefixes[i])
    else NodeAnswer(prefixes, i / 2, addr, depth)
  }

  /** What `lookup_prefix_lpm` answers from the node at `depth` on. */
  ghost function LpmAnswer<T>(node: Node<T>, n: nat, q: Key, depth: nat): Answer<T>
    requires ValidKey(q, n) && depth <= |q.path|
    decreases |q.path| - depth
  {
    var addr := AddrOf(q, n);
    var own := NodeAnswer(node.prefixes, Start(q, depth), addr, depth);
    if depth == |q.path| || q.path[depth] !in node.children then own
    else
      match node.children[q.path[depth]]
      case Path(m) => LpmAnswer(m, n, q, depth + 1).Else(own)
      case Leaf(k, v) => if ValidKey(k, n) && CoversKey(k, q) then Route(NetOf(k, n), v) else own
      case Fringe(v) => Route(Net(addr, 8 * (depth + 1)), v)
  }

  /** The route is stored path-compressed, directly under an octet. */
  ghost predicate HeldAsLeaf<T>(node: Node<T>, k: Key, depth: nat)
    decreases |k.path| - depth
  {
    && depth < |k.path| && k.path[depth] in node.children
    && match node.children[k.path[depth]]
       case Path(m) => HeldAsLeaf(m, k, depth + 1)
       case Leaf(lk, _) => lk == k
       case Fringe(_) => false
  }

  /** An index that covers an octet is what cutting the octet at its length gives. */
  lemma CutAtLevel(i: Index, o: Octet)
    requires Covers(i, o)
    ensures Level(i) <= 7 && FromPrefix(o, Level(i)) == i
  {
    LevelIndex(i);
    var j := FromPrefix(o, Level(i));
    CoversIsAgreement(o, o, Level(i));
    if i <= j { AncestorsAreAChain(i, j, 256 + o); } else { AncestorsAreAChain(j, i, 256 + o); }
  }

  /** Cutting the query's address at the length of a prefix that covers it gives that prefix. */
  lemma CutQuery(q: Key, k: Key, n: nat)
    requires ValidKey(q, n) && ValidKey(k, n) && CoversKey(k, q)
    ensures Bits(k) <= 8 * n && KeyOf(Net(AddrOf(q, n), Bits(k)), n) == k
    ensures Trunc(Net(AddrOf(q, n), Bits(k)), n) == NetOf(k, n)
  {
    KeyBits(k, n);
    LevelIndex(k.idx);
    var addr, s := AddrOf(q, n), |k.path|;
    var net := Net(addr, Bits(k));
    assert net.len / 8 == s && net.len % 8 == Level(k.idx);
    assert addr[..s] == k.path;
    if s < n {
      if s == |q.path| { FirstOctetDecides(k.idx, q.idx); }
      CutAtLevel(k.idx, addr[s]);
    }
    NetOfKeyOf(net, n);
  }

  /** An answer gives route `k`: its value, its length, and its prefix up to host bits.  The prefix is the
      route's own exactly when the route is a leaf, or the query's address has no bit set past the route's
      length. */
  ghost predicate Gives<T>(r: Answer<T>, n: nat, q: Key, k: Key, v: T, leaf: bool)
    requires ValidKey(q, n)
  {
    && ValidKey(k, n) && Bits(k) <= 8 * n && r.Route? && r.value == v
    && ValidNet(r.net, n) && Trunc(r.net, n) == NetOf(k, n)
    && (r.net == NetOf(k, n) <==> leaf || IsTruncated(Net(AddrOf(q, n), Bits(k)), n))
  }

  lemma CutGives<T>(n: nat, q: Key, k: Key, v: T)
    requires ValidKey(q, n) && ValidKey(k, n) && CoversKey(k, q)
    ensures Gives(Route(Net(AddrOf(q, n), Bits(k)), v), n, q, k, v, false)
  {
    CutQuery(q, k, n);
  }

  lemma LeafGives<T>(n: nat, q: Key, k: Key, v: T)
    requires ValidKey(q, n) && ValidKey(k, n)
    ensures Gives(Route(NetOf(k, n), v), n, q, k, v, true)
  {
    KeyBits(k, n);
    KeyOfNetOf(k, n);
    NetOfKeyOf(NetOf(k, n), n);
  }

  lemma {:induction false} NodeFirst<T>(prefixes: map<int, T>, i: int, addr: seq<int>, path: seq<int>)
    ensures var r := NodeAnswer(prefixes, i, addr, |path|);
            var m := NodeMatches(prefixes, path, i);
            && (r.NoRoute? <==> m == [])
            && (m != [] ==> m[0].0.path == path && IsAncestor(m[0].0.idx, i))
            && (m != [] ==> m[0].0.idx >= 1 && r == Route(Net(addr, Bits(m[0].0)), m[0].1))
    decreases i
  {
    if i >= 1 && i !in prefixes { NodeFirst(prefixes, i / 2, addr, path); }
  }

  lemma NodeAnswerIs<T>(prefixes: map<int, T>, n: nat, q: Key, path: seq<int>)
    requires ValidKey(q, n) && path <= q.path && |path| < n
    ensures var r := NodeAnswer(prefixes, Start(q, |path|), AddrOf(q, n), |path|);
            var m := NodeMatches(prefixes, path, Start(q, |path|));
            && (r.NoRoute? <==> m == [])
            && (m != [] ==> Gives(r, n, q, m[0].0, m[0].1, false))
  {
    var i := Start(q, |path|);
    NodeFirst(prefixes, i, AddrOf(q, n), path);
    var m := NodeMatches(prefixes, path, i);
    if m != [] {
      StartIsIndex(q, n, |path|);
      AncestorBounds(m[0].0.idx, i);
      OwnKeyCovers(q, n, path, m[0].0);
      CutGives(n, q, m[0].0, m[0].1);
    }
  }

  /** The answer is the first match, with the leaf flag read off the trie. */
  lemma {:induction false} LpmAnswerIs<T>(node: Node<T>, n: nat, path: seq<int>, q: Key)
    requires WellFormed(node, n, path) && Below(q, n, path)
    ensures var r := LpmAnswer(node, n, q, |path|);
            var m := Matches(node, q, |path|);
            && (r.NoRoute? <==> m == [])
            && (m != [] ==> Gives(r, n, q, m[0].0, m[0].1, HeldAsLeaf(node, m[0].0, |path|)))
    decreases n - |path|
  {
    assert q.path[..|path|] == path;
    NodeAnswerIs(node.prefixes, n, q, path);
    OwnIsNotLeaf(node, path, Start(q, |path|));
    if |path| < |q.path| && q.path[|path|] in node.children {
      ChildAnswerIs(node, n, path, q);
    }
  }

  lemma OwnIsNotLeaf<T>(node: Node<T>, path: seq<int>, i: int)
    ensures var m := NodeMatches(node.prefixes, path, i);
            m != [] ==> m[0].0.path == path && !HeldAsLeaf(node, m[0].0, |path|)
  {
    var m := NodeMatches(node.prefixes, path, i);
    if m != [] { NodeMatchesAre(node.prefixes, path, i, m[0].0, m[0].1); }
  }

  lemma FringeGives<T>(n: nat, q: Key, path: seq<int>, v: T)
    requires Below(q, n, path)
    ensures Gives(Route(Net(AddrOf(q, n), 8 * |path|), v), n, q, Key(path, 1), v, false)
  {
    FringeCovers(q, n, path);
    CutGives(n, q, Key(path, 1), v);
  }

  lemma {:induction false} ChildAnswerIs<T>(node: Node<T>, n: nat, path: seq<int>, q: Key)
    requires WellFormed(node, n, path) && Below(q, n, path)
    requires |path| < |q.path| && q.path[|path|] in node.children
    ensures var r := LpmAnswer(node, n, q, |path|);
            var below := ChildMatches(node, q, |path|);
            && (below == [] ==> r == NodeAnswer(node.prefixes, Start(q, |path|), AddrOf(q, n), |path|))
            && (below != [] ==> Gives(r, n, q, below[0].0, below[0].1, HeldAsLeaf(node, below[0].0, |path|)))
    decreases n - |path|, 0
  {
    var o := q.path[|path|];
    var c := node.children[o];
    assert WellFormedChild(c, n, path + [o]);
    assert q.path[..|path| + 1] == path + [o];
    match c {
      case Path(m) =>
        LpmAnswerIs(m, n, path + [o], q);
        var below := Matches(m, q, |path| + 1);
        if below != [] {
          TrieLookup.MatchKeysBelow(m, n, path + [o], q, 0);
          assert below[0].0.path[|path|] == o;
        }
      case Leaf(k, v) =>
        assert k.path[|path|] == o;
        LeafGives(n, q, k, v);
      case Fringe(v) =>
        FringeGives(n, q, path + [o], v);
    }
  }

  /** The answer the nodes on the stack give, the deepest first. */
  ghost function StackAnswer<T>(stack: seq<Node<T>>, n: nat, q: Key): Answer<T>
    requires ValidKey(q, n) && |stack| <= |q.path| + 1
  {
    if stack == [] then NoRoute
    else
      var d := |stack| - 1;
      NodeAnswer(stack[d].prefixes, Start(q, d), AddrOf(q, n), d).Else(StackAnswer(stack[..d], n, q))
  }

  /** The state of the descent: the root's answer is the answer from here on, else the stack's. */
  ghost predicate Descending<T>(root: Node<T>, n: nat, q: Key, node: Node<T>, stack: seq<Node<T>>) {
    && ValidKey(q, n) && |stack| <= |q.path|
    && WellFormed(node, n, q.path[..|stack|])
    && TrieLookup.StackOk(stack)
    && LpmAnswer(root, n, q, 0) == LpmAnswer(node, n, q, |stack|).Else(StackAnswer(stack, n, q))
  }

  /** The descent is over and the stack decides. */
  ghost predicate Landed<T>(root: Node<T>, n: nat, q: Key, stack: seq<Node<T>>) {
    && ValidKey(q, n) && |stack| <= |q.path| + 1 && TrieLookup.StackOk(stack)
    && LpmAnswer(root, n, q, 0) == StackAnswer(stack, n, q)
  }

  lemma LandHere<T>(root: Node<T>, n: nat, q: Key, node: Node<T>, stack: seq<Node<T>>)
    requires Descending(root, n, q, node, stack)
    requires LpmAnswer(node, n, q, |stack|) == NodeAnswer(node.prefixes, Start(q, |stack|), AddrOf(q, n), |stack|)
    ensures Landed(root, n, q, stack + [node])
  {
    var s := stack + [node];
    assert s[..|stack|] == stack && s[|stack|] == node;
  }

  lemma GoDown<T>(root: Node<T>, n: nat, q: Key, node: Node<T>, stack: seq<Node<T>>)
    requires Descending(root, n, q, node, stack) && |stack| < |q.path|
    requires q.path[|stack|] in node.children && node.children[q.path[|stack|]].Path?
    ensures Descending(root, n, q, node.children[q.path[|stack|]].node, stack + [node])
  {
    var s, o := stack + [node], q.path[|stack|];
    assert s[..|stack|] == stack && s[|stack|] == node;
    assert WellFormedChild(node.children[o], n, q.path[..|stack|] + [o]);
    assert q.path[..|stack|] + [o] == q.path[..|stack| + 1];
  }

  /** The query's last stride has no child to follow, and lands. */
  lemma LastStrideLands<T>(root: Node<T>, n: nat, q: Key, node: Node<T>, stack: seq<Node<T>>, o: int)
    requires Descending(root, n, q, node, stack) && |stack| == |q.path| && o in node.children
    ensures Landed(root, n, q, stack + [node])
    ensures node.children[o].Leaf? ==> ValidKey(node.children[o].key, n) && Bits(node.children[o].key) > Bits(q)
    ensures 8 * (|stack| + 1) > Bits(q)
  {
    LandHere(root, n, q, node, stack);
    var c := node.children[o];
    assert WellFormedChild(c, n, q.path[..|stack|] + [o]);
    LevelIndex(q.idx);
    if c.Leaf? { KeyBits(c.key, n); }
  }

  /** What each kind of child makes of the descent, stated with the tests the lookup makes. */
  lemma FollowChild<T>(root: Node<T>, n: nat, q: Key, node: Node<T>, stack: seq<Node<T>>)
    requires Descending(root, n, q, node, stack) && |stack| < |q.path|
    requires q.path[|stack|] in node.children
    ensures var c := node.children[q.path[|stack|]];
            && (c.Path? ==> Descending(root, n, q, c.node, stack + [node]))
            && (c.Leaf? ==>
                  && ValidKey(c.key, n)
                  && if Bits(c.key) <= Bits(q) && CoversKey(c.key, Key(AddrOf(q, n), 1))
                     then LpmAnswer(root, n, q, 0) == Route(NetOf(c.key, n), c.value)
                     else Landed(root, n, q, stack + [node]))
            && (c.Fringe? ==>
                  && 8 * (|stack| + 1) <= Bits(q)
                  && LpmAnswer(root, n, q, 0) == Route(Net(AddrOf(q, n), 8 * (|stack| + 1)), c.fringeValue))
  {
    var c := node.children[q.path[|stack|]];
    assert WellFormedChild(c, n, q.path[..|stack|] + [q.path[|stack|]]);
    if c.Path? {
      GoDown(root, n, q, node, stack);
    } else if c.Leaf? {
      LeafTestIsCovers(c.key, q, n);
      if !CoversKey(c.key, q) { LandHere(root, n, q, node, stack); }
    }
  }

  /** The second half of `lookup_prefix_lpm`: pop the stack until a node has a match. */
  method FirstAnswer<T>(nodes: seq<Node<T>>, n: nat, q: Key, addr: seq<int>) returns (r: Answer<T>)
    requires ValidKey(q, n) && |nodes| <= |q.path| + 1 && |nodes| <= n
    requires TrieLookup.StackOk(nodes) && addr == AddrOf(q, n)
    ensures r == StackAnswer(nodes, n, q)
  {
    var stack := nodes;
    while stack != []
      invariant |stack| <= |nodes| && TrieLookup.StackOk(stack)
      invariant StackAnswer(nodes, n, q) == StackAnswer(stack, n, q)
      decreases |stack|
    {
      var d := |stack| - 1;
      var prefixes := stack[d].prefixes;
      StartIsIndex(q, n, d);
      var found, top := TrieLookup.NodeTop(prefixes, q.path[..d], Start(q, d));
      NodeAnswerTop(prefixes, Start(q, d), addr, q.path[..d]);
      if found { return Route(Net(addr, 8 * d + Level(top)), prefixes[top]); }
      stack := stack[..d];
    }
    r := NoRoute;
  }

  lemma {:induction false} NodeAnswerTop<T>(prefixes: map<int, T>, i: int, addr: seq<int>, path: seq<int>)
    ensures var m := NodeMatches(prefixes, path, i);
            var r := NodeAnswer(prefixes, i, addr, |path|);
            && (m == [] ==> r.NoRoute?)
            && (m != [] ==> m[0].0.idx >= 1 && r == Route(Net(addr, 8 * |path| + Level(m[0].0.idx)), m[0].1))
    decreases i
  {
    if i >= 1 && i !in prefixes { NodeAnswerTop(prefixes, i / 2, addr, path); }
  }

  /** `lookup_prefix_lpm`. */
  method LookupPrefixLpm<T>(root: Node<T>, n: nat, query: Net) returns (r: Answer<T>)
    requires WellFormed(root, n, []) && ValidNet(query, n)
    ensures r == LpmAnswer(root, n, KeyOf(query, n), 0)
  {
    var q := KeyOf(query, n);
    var addr := AddrOf(q, n);
    var stack: seq<Node<T>> := [];
    var node := root;
    assert q.path[..0] == [];
    var depth := 0;
    while depth < n
      invariant depth == |stack| <= n && depth <= |q.path| + 1
      invariant depth <= |q.path| ==> Descending(root, n, q, node, stack)
      invariant depth > |q.path| ==> Landed(root, n, q, stack)
    {
      if depth > |q.path| { break; }
      var octet := addr[depth];
      if depth == |q.path| || octet !in node.children { LandHere(root, n, q, node, stack); }
      if octet !in node.children {
        stack := stack + [node];
        break;
      }
      if depth == |q.path| {
        LastStrideLands(root, n, q, node, stack, octet);
      } else {
        FollowChild(root, n, q, node, stack);
      }
      stack := stack + [node];
      match node.children[octet] {
        case Path(m) =>
          node := m;
        case Leaf(k, v) =>
          if Bits(k) > Bits(q) || !CoversKey(k, Key(addr, 1)) { break; }
          return Route(NetOf(k, n), v);
        case Fringe(v) =>
          if 8 * (depth + 1) > Bits(q) { break; }
          return Route(Net(addr, 8 * (depth + 1)), v);
      }
      depth := depth + 1;
    }
    r := FirstAnswer(stack, n, q, addr);
  }

  // Which routes are leaves, told from the stored routes.

  /** The octets a route does not share as a leaf: all the full ones, but not a last one that is all of it. */
  function Strides(k: Key): int { if k.idx == 1 then |k.path| - 1 else |k.path| }

  /** No other stored route starts with the octets of `k`, its own stride apart, and there are some. */
  ghost predicate IsAlone<T>(node: Node<T>, n: nat, k: Key, depth: nat) {
    && depth < Strides(k)
    && forall q :: Below(q, n, k.path[..Strides(k)]) && q != k ==> Find(node, q, depth) == None
  }

  lemma AloneInLeaf<T>(node: Node<T>, n: nat, path: seq<int>, k: Key)
    requires WellFormed(node, n, path) && Below(k, n, path) && |path| < |k.path|
    requires k.path[|path|] in node.children && node.children[k.path[|path|]].Leaf?
    requires node.children[k.path[|path|]].key == k
    ensures IsAlone(node, n, k, |path|)
  {
    var o := k.path[|path|];
    assert WellFormedChild(node.children[o], n, path + [o]);
    assert k.path[..|path| + 1] == path + [o];
    forall q | Below(q, n, k.path[..Strides(k)]) && q != k ensures Find(node, q, |path|) == None {
      assert q.path[..|path|] == path && q.path[|path|] == o;
      FindThroughChild(node, n, path, q);
    }
  }

  lemma AloneThroughPath<T>(node: Node<T>, n: nat, path: seq<int>, k: Key)
    requires WellFormed(node, n, path) && Below(k, n, path) && |path| + 1 < Strides(k)
    requires k.path[|path|] in node.children && node.children[k.path[|path|]].Path?
    ensures IsAlone(node, n, k, |path|) <==> IsAlone(node.children[k.path[|path|]].node, n, k, |path| + 1)
  {
    var o := k.path[|path|];
    forall q | Below(q, n, k.path[..Strides(k)])
      ensures Find(node, q, |path|) == Find(node.children[o].node, q, |path| + 1)
    {
      assert q.path[..|path|] == path && q.path[|path|] == o;
      FindThroughChild(node, n, path, q);
    }
  }

  lemma PathIsShared<T>(node: Node<T>, n: nat, path: seq<int>, k: Key)
    requires WellFormed(node, n, path) && Below(k, n, path) && Strides(k) == |path| + 1
    requires k.path[|path|] in node.children && node.children[k.path[|path|]].Path?
    ensures !IsAlone(node, n, k, |path|)
  {
    var o := k.path[|path|];
    assert WellFormedChild(node.children[o], n, path + [o]);
    assert k.path[..|path| + 1] == path + [o];
    var x, y := TwoRoutes(node.children[o].node, n, path + [o]);
    var q := if x == k then y else x;
    assert q.path[|path|] == o;
    FindThroughChild(node, n, path, q);
  }

  /** A stored route is a leaf exactly when it is alone. */
  lemma {:induction false} LeafIsAlone<T>(node: Node<T>, n: nat, path: seq<int>, k: Key)
    requires WellFormed(node, n, path) && Below(k, n, path) && Find(node, k, |path|).Some?
    ensures HeldAsLeaf(node, k, |path|) <==> IsAlone(node, n, k, |path|)
    decreases n - |path|
  {
    if |path| < |k.path| {
      var o := k.path[|path|];
      FindThroughChild(node, n, path, k);
      var c := node.children[o];
      assert WellFormedChild(c, n, path + [o]);
      if c.Leaf? {
        AloneInLeaf(node, n, path, k);
      } else if c.Path? {
        LeafIsAlone(c.node, n, path + [o], k);
        if |path| + 1 < Strides(k) {
          AloneThroughPath(node, n, path, k);
        } else if |path| + 1 == Strides(k) {
          PathIsShared(node, n, path, k);
        }
      }
    }
  }

  /** `lookup_prefix_lpm` finds the longest stored prefix that contains the query, and nothing exactly when
      none does.  What it returns as "the matching prefix" is that prefix only up to host bits: it is the prefix
      itself exactly when the route is alone below its octets, or the query has no bit set past its length. */
  lemma LpmIsLongest<T>(root: Node<T>, n: nat, query: Net)
    requires WellFormed(root, n, []) && ValidNet(query, n)
    ensures var q := KeyOf(query, n);
            var r := LpmAnswer(root, n, q, 0);
            && (r.NoRoute? <==> TrieLookup.IsUncovered(root, n, q))
            && (r.Route? ==> exists k :: TrieLookup.IsLongestRoute(root, n, q, k)
                                         && Gives(r, n, q, k, Find(root, k, 0).value, IsAlone(root, n, k, 0)))
  {
    var q := KeyOf(query, n);
    LpmAnswerIs(root, n, [], q);
    TrieLookup.FirstIsLongest(root, n, q);
    var m := Matches(root, q, 0);
    if m != [] { LeafIsAlone(root, n, [], m[0].0); }
  }

  lemma {:induction false} OnlyDefault<T>(v: T, i: int, addr: seq<int>)
    requires i >= 1
    ensures NodeAnswer(map[1 := v], i, addr, 0) == Route(Net(addr, 0), v)
    decreases i
  {
    if i > 1 { OnlyDefault(v, i / 2, addr); }
  }

  /** With only the default route stored, every query is answered by its own address with length 0, as
      1.2.3.4/32 is by "1.2.3.4/0". */
  lemma AnswerKeepsHostBits<T>(v: T, n: nat, q: Key)
    requires ValidKey(q, n) && n > 0
    ensures var root := Node(map[1 := v], map[]);
            && WellFormed(root, n, [])
            && LpmAnswer(root, n, q, 0) == Route(Net(AddrOf(q, n), 0), v)
            && forall k :: ValidKey(k, n) && Find(root, k, 0).Some? ==> k == Key([], 1)
  {
    StartIsIndex(q, n, 0);
    OnlyDefault(v, Start(q, 0), AddrOf(q, n));
  }

  predicate AllZero(a: seq<int>) { forall j :: 0 <= j < |a| ==> a[j] == 0 }

  /** The prefix handed out is a stored route's, the longest one's. */
  ghost predicate RightPrefix<T>(root: Node<T>, n: nat, q: Key)
    requires ValidKey(q, n)
  {
    var r := LpmAnswer(root, n, q, 0);
    r.Route? ==> exists k :: TrieLookup.IsLongestRoute(root, n, q, k) && ValidKey(k, n) && r.net == NetOf(k, n)
  }

  lemma ZerosAreTruncated(net: Net, n: nat)
    requires ValidNet(net, n) && AllZero(net.addr)
    ensures IsTruncated(net, n)
  {
    assert forall bits :: 0 < bits < 8 ==> TruncOctet(0, bits) == 0;
    assert Trunc(net, n).addr == net.addr;
  }

  lemma ZeroQueryIsRight<T>(root: Node<T>, n: nat, query: Net)
    requires WellFormed(root, n, []) && ValidNet(query, n) && AllZero(AddrOf(KeyOf(query, n), n))
    ensures RightPrefix(root, n, KeyOf(query, n))
  {
    var q := KeyOf(query, n);
    LpmIsLongest(root, n, query);
    if LpmAnswer(root, n, q, 0).Route? {
      var k :| TrieLookup.IsLongestRoute(root, n, q, k)
               && Gives(LpmAnswer(root, n, q, 0), n, q, k, Find(root, k, 0).value, IsAlone(root, n, k, 0));
      ZerosAreTruncated(Net(AddrOf(q, n), Bits(k)), n);
    }
  }

  /** So the prefix is right on every trie if and only if the truncated query is all zeros. */
  lemma LpmNeedsZeros(query: Net, n: nat)
    requires ValidNet(query, n) && n > 0
    ensures (forall root: Node<int> :: WellFormed(root, n, []) ==> RightPrefix(root, n, KeyOf(query, n)))
            <==> AllZero(AddrOf(KeyOf(query, n), n))
  {
    var q := KeyOf(query, n);
    if AllZero(AddrOf(q, n)) {
      forall root: Node<int> | WellFormed(root, n, []) ensures RightPrefix(root, n, q) {
        ZeroQueryIsRight(root, n, query);
      }
    } else {
      AnswerKeepsHostBits(7, n, q);
      DefaultIsZero(n);
      assert !RightPrefix(Node(map[1 := 7], map[]), n, q);
    }
  }

  lemma DefaultIsZero(n: nat)
    requires n > 0
    ensures ValidKey(Key([], 1), n) && AllZero(NetOf(Key([], 1), n).addr)
  {
    assert Prefix(1).0 == 0;
  }

  /** `lookup_prefix_exact` as written: no truncation, and a leaf is compared by its whole prefix. */
  ghost function FindNet<T>(node: Node<T>, net: Net, n: nat, depth: nat): Option<T>
    requires ValidNet(net, n)
    decreases |KeyOf(net, n).path| - depth
  {
    var k := KeyOf(net, n);
    if depth >= |k.path| then MapGet(node.prefixes, k.idx)
    else if k.path[depth] !in node.children then None
    else
      match node.children[k.path[depth]]
      case Path(m) => FindNet(m, net, n, depth + 1)
      case Leaf(lk, v) => if ValidKey(lk, n) && NetOf(lk, n) == net then Some(v) else None
      case Fringe(v) => if k.IsFringe(depth) then Some(v) else None
  }

  /** An exact lookup finds the stored route of the truncated prefix, unless the caller's prefix has host
      bits and the route happens to be held as a leaf. */
  lemma {:induction false} FindNetIs<T>(node: Node<T>, net: Net, n: nat, path: seq<int>)
    requires ValidNet(net, n) && WellFormed(node, n, path) && Below(KeyOf(net, n), n, path)
    ensures var k := KeyOf(net, n);
            FindNet(node, net, n, |path|)
              == if !IsTruncated(net, n) && HeldAsLeaf(node, k, |path|) then None else Find(node, k, |path|)
    decreases n - |path|
  {
    var k := KeyOf(net, n);
    if |path| < |k.path| && k.path[|path|] in node.children {
      var o := k.path[|path|];
      var c := node.children[o];
      FindThroughChild(node, n, path, k);
      assert WellFormedChild(c, n, path + [o]);
      match c {
        case Path(m) => FindNetIs(m, net, n, path + [o]);
        case Leaf(lk, v) => LeafIsNet(lk, net, n);
        case Fringe(v) =>
      }
    }
  }

  /** The comparison with a leaf's own prefix: the same key, and no host bits in the query. */
  lemma LeafIsNet(lk: Key, net: Net, n: nat)
    requires ValidKey(lk, n) && ValidNet(net, n)
    ensures NetOf(lk, n) == net <==> lk == KeyOf(net, n) && IsTruncated(net, n)
  {
    KeyOfNetOf(lk, n);
    NetOfKeyOf(net, n);
  }

  /** So an exact lookup is right on every trie if and only if the prefix is truncated or at most eight
      bits long (then it is never a leaf). */
  lemma ExactNeedsTruncation(net: Net, n: nat)
    requires ValidNet(net, n) && n > 0
    ensures (forall root: Node<int> ::
               WellFormed(root, n, []) ==> FindNet(root, net, n, 0) == Find(root, KeyOf(net, n), 0))
            <==> IsTruncated(net, n) || net.len <= 8
  {
    var k := KeyOf(net, n);
    if IsTruncated(net, n) || net.len <= 8 {
      forall root: Node<int> | WellFormed(root, n, []) ensures FindNet(root, net, n, 0) == Find(root, k, 0) {
        FindNetIs(root, net, n, []);
        if net.len <= 8 { ShortIsNotLeaf(root, n, k); }
      }
    } else {
      var root := TrieInsert.Insert(EmptyNode<int>(), n, k, 7, 0).1;
      TrieInsert.SingleRoute(n, [], k, 7, k);
      FindNetIs(root, net, n, []);
      LongAloneIsLeaf(n, k);
    }
  }

  lemma ShortIsNotLeaf<T>(root: Node<T>, n: nat, k: Key)
    requires WellFormed(root, n, []) && ValidKey(k, n) && Bits(k) <= 8
    ensures !HeldAsLeaf(root, k, 0)
  {
    LevelIndex(k.idx);
    if |k.path| > 0 && k.path[0] in root.children {
      assert WellFormedChild(root.children[k.path[0]], n, [] + [k.path[0]]);
      assert k.path == [k.path[0]];
    }
  }

  lemma LongAloneIsLeaf(n: nat, k: Key)
    requires ValidKey(k, n) && n > 0 && Bits(k) > 8
    ensures HeldAsLeaf(TrieInsert.Insert(EmptyNode<int>(), n, k, 7, 0).1, k, 0)
  {
    LevelIndex(k.idx);
  }

  /** `lookup_prefix_exact`. */
  method LookupPrefixExact<T>(root: Node<T>, n: nat, net: Net) returns (r: Option<T>)
    requires WellFormed(root, n, []) && ValidNet(net, n)
    ensures r == FindNet(root, net, n, 0)
  {
    var k := KeyOf(net, n);
    var node := root;
    var depth := 0;
    assert k.path[..0] == [];
    while depth < n
      invariant 0 <= depth <= |k.path|
      invariant WellFormed(node, n, k.path[..depth])
      invariant FindNet(root, net, n, 0) == FindNet(node, net, n, depth)
    {
      if depth == |k.path| { return MapGet(node.prefixes, k.idx); }
      var octet := net.addr[depth];
      if octet !in node.children { return None; }
      assert WellFormedChild(node.children[octet], n, k.path[..depth] + [octet]);
      assert k.path[..depth] + [octet] == k.path[..depth + 1];
      match node.children[octet] {
        case Path(m) =>
          node := m;
        case Leaf(lk, v) =>
          if NetOf(lk, n) == net { return Some(v); }
          return None;
        case Fringe(v) =>
          if k.IsFringe(depth) { return Some(v); }
          return None;
      }
      depth := depth + 1;
    }
    // No node lies below the last octet.
    r := None;
    assert false;
  }
}
