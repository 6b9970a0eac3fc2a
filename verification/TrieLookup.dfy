/** Lookups in the routing trie (`iptrie::lookup`, `iptrie::contains`). */
module TrieLookup {
  import opened Wrappers
  import opened BaseIndex
  import opened Trie
  import opened TrieMatches
  import Lpm

  ghost function Values<T>(m: seq<(Key, T)>): seq<T> { seq(|m|, i requires 0 <= i < |m| => m[i].1) }

  lemma ValuesAppend<T>(a: seq<(Key, T)>, b: seq<(Key, T)>)
    ensures Values(a + b) == Values(a) + Values(b)
  {
  }

  ghost predicate KeysInRange<T>(prefixes: map<int, T>) { forall x :: x in prefixes ==> 1 <= x < 256 }

  /** One node's part of the walk: with `top` the highest stored ancestor of `i`, the list is `top` and
      then the list of `top`'s parent. */
  lemma {:induction false} TopStep<T>(prefixes: map<int, T>, path: seq<int>, i: int, top: int)
    requires top in prefixes && IsAncestor(top, i)
    requires forall x :: x in prefixes && IsAncestor(x, i) ==> x <= top
    ensures top >= 1
    ensures NodeMatches(prefixes, path, i) == [(Key(path, top), prefixes[top])] + NodeMatches(prefixes, path, top / 2)
    decreases i
  {
    AncestorBounds(top, i);
    if top != i { TopStep(prefixes, path, i / 2, top); }
  }

  lemma {:induction false} NoTop<T>(prefixes: map<int, T>, path: seq<int>, i: int)
    requires forall x :: x in prefixes ==> !IsAncestor(x, i)
    ensures NodeMatches(prefixes, path, i) == []
    decreases i
  {
    if i >= 1 { NoTop(prefixes, path, i / 2); }
  }

  /** Below the highest stored ancestor, the ancestors of `i` are the ancestors of its parent. */
  lemma AncestorsBelowTop(x: int, i: int, top: int)
    requires x >= 1 && IsAncestor(top, i) && top >= 1
    ensures (IsAncestor(x, i) && x < top) <==> IsAncestor(x, top / 2)
  {
    if IsAncestor(x, i) && x < top { AncestorsAreAChain(x, top, i); }
    if IsAncestor(x, top / 2) {
      AncestorTransitive(x, top, i);
      AncestorBounds(x, top / 2);
    }
  }

  /** `last_set`. */
  method LastSet(s: set<int>) returns (found: bool, top: int)
    requires forall x :: x in s ==> 0 <= x < 256
    ensures found <==> exists x :: x in s
    ensures found ==> top in s && forall x :: x in s ==> x <= top
  {
    top := 256;
    while top > 0
      invariant 0 <= top <= 256
      invariant forall x :: x in s ==> x < top
    {
      top := top - 1;
      if top in s { return true, top; }
    }
    found := false;
  }

  /** `NodePrefixIter`, drained: start from the stored ancestors, repeatedly take out the top bit. */
  method NodeIter<T>(prefixes: map<int, T>, ghost path: seq<int>, i: int) returns (out: seq<T>)
    requires KeysInRange(prefixes) && 1 <= i < 256
    ensures out == Values(NodeMatches(prefixes, path, i))
  {
    var lpm := Lpm.LpmEntry(i);
    Lpm.AncestorsAre(i);
    var yieldState := set x | x in prefixes && x in lpm;
    out := [];
    ghost var j := i;
    while true
      invariant 0 <= j <= i
      invariant forall x :: x in yieldState <==> x in prefixes && IsAncestor(x, j)
      invariant out + Values(NodeMatches(prefixes, path, j)) == Values(NodeMatches(prefixes, path, i))
      decreases j
    {
      var found, bit := LastSet(yieldState);
      if !found {
        NoTop(prefixes, path, j);
        return;
      }
      IterStep(prefixes, path, j, bit);
      yieldState := yieldState - {bit};
      out := out + [prefixes[bit]];
      j := bit / 2;
    }
  }

  lemma IterStep<T>(prefixes: map<int, T>, path: seq<int>, j: int, bit: int)
    requires KeysInRange(prefixes) && bit in prefixes && IsAncestor(bit, j)
    requires forall x :: x in prefixes && IsAncestor(x, j) ==> x <= bit
    ensures 1 <= bit <= j
    ensures Values(NodeMatches(prefixes, path, j)) == [prefixes[bit]] + Values(NodeMatches(prefixes, path, bit / 2))
    ensures forall x :: x in prefixes ==> (IsAncestor(x, j) && x != bit <==> IsAncestor(x, bit / 2))
  {
    AncestorBounds(bit, j);
    TopStep(prefixes, path, j, bit);
    ValuesAppend([(Key(path, bit), prefixes[bit])], NodeMatches(prefixes, path, bit / 2));
    forall x | x in prefixes ensures IsAncestor(x, j) && x != bit <==> IsAncestor(x, bit / 2) {
      AncestorsBelowTop(x, j, bit);
    }
  }

  /** What the nodes on the stack still have to yield, the deepest first. */
  ghost function StackMatches<T>(stack: seq<Node<T>>, q: Key): seq<(Key, T)>
    requires |stack| <= |q.path| + 1
  {
    if stack == [] then []
    else
      var d := |stack| - 1;
      NodeMatches(stack[d].prefixes, q.path[..d], Start(q, d)) + StackMatches(stack[..d], q)
  }

  ghost predicate StackOk<T>(stack: seq<Node<T>>) {
    forall i :: 0 <= i < |stack| ==> KeysInRange(stack[i].prefixes)
  }

  /** The state of a descent: `node` is at depth `|stack|` on the query's path, and the matches of the
      root are those from here on, then those of the stack. */
  ghost predicate Descending<T>(root: Node<T>, n: nat, q: Key, node: Node<T>, stack: seq<Node<T>>) {
    && ValidKey(q, n) && |stack| <= |q.path|
    && WellFormed(node, n, q.path[..|stack|])
    && StackOk(stack)
    && Matches(root, q, 0) == Matches(node, q, |stack|) + StackMatches(stack, q)
  }

  /** The end of a descent: `head` is the match of the last child, if it is a route that covers. */
  ghost predicate Landed<T>(root: Node<T>, q: Key, head: seq<(Key, T)>, stack: seq<Node<T>>) {
    && |stack| <= |q.path| + 1 && StackOk(stack)
    && Matches(root, q, 0) == head + StackMatches(stack, q)
  }

  lemma Pushed<T>(root: Node<T>, n: nat, q: Key, node: Node<T>, stack: seq<Node<T>>)
    requires Descending(root, n, q, node, stack)
    ensures Landed(root, q, ChildMatches(node, q, |stack|), stack + [node])
  {
    var s := stack + [node];
    assert s[..|stack|] == stack && s[|stack|] == node;
    var own := NodeMatches(node.prefixes, q.path[..|stack|], Start(q, |stack|));
    assert ChildMatches(node, q, |stack|) + own + StackMatches(stack, q)
        == ChildMatches(node, q, |stack|) + (own + StackMatches(stack, q));
  }

  lemma WentDown<T>(root: Node<T>, n: nat, q: Key, node: Node<T>, stack: seq<Node<T>>)
    requires Descending(root, n, q, node, stack) && |stack| < |q.path|
    requires q.path[|stack|] in node.children && node.children[q.path[|stack|]].Path?
    ensures Descending(root, n, q, node.children[q.path[|stack|]].node, stack + [node])
  {
    Pushed(root, n, q, node, stack);
    var o := q.path[|stack|];
    assert WellFormedChild(node.children[o], n, q.path[..|stack|] + [o]);
    assert q.path[..|stack|] + [o] == q.path[..|stack| + 1];
  }

  lemma StartDescent<T>(root: Node<T>, n: nat, q: Key)
    requires WellFormed(root, n, []) && ValidKey(q, n)
    ensures Descending(root, n, q, root, [])
  {
    assert q.path[..0] == [];
  }

  ghost function Head<T>(m: seq<(Key, T)>): Option<T> { if m == [] then None else Some(m[0].1) }

  /** The descent that `lookup_address` and `lookup_address_all` share: push the node of each octet, and
      stop at a missing child, a fringe or a leaf. */
  method Descend<T>(root: Node<T>, n: nat, addr: seq<int>)
    returns (value: Option<T>, stack: seq<Node<T>>, ghost head: seq<(Key, T)>)
    requires WellFormed(root, n, []) && |addr| == n && ValidKey(Key(addr, 1), n)
    ensures Landed(root, Key(addr, 1), head, stack)
    ensures |head| <= 1 && value == Head(head)
  {
    var q := Key(addr, 1);
    var node := root;
    stack, value, head := [], None, [];
    StartDescent(root, n, q);
    var depth := 0;
    while depth < |addr|
      invariant depth == |stack| && Descending(root, n, q, node, stack)
      invariant value == None && head == []
    {
      var octet := addr[depth];
      Pushed(root, n, q, node, stack);
      head := ChildMatches(node, q, depth);
      if octet !in node.children {
        stack := stack + [node];
        return;
      }
      match node.children[octet] {
        case Path(m) =>
          WentDown(root, n, q, node, stack);
          stack, node, head := stack + [node], m, [];
        case Fringe(v) =>
          stack, value := stack + [node], Some(v);
          return;
        case Leaf(k, v) =>
          if CoversKey(k, q) { value := Some(v); }
          stack := stack + [node];
          return;
      }
      depth := depth + 1;
    }
  }

  /** `lookup_address_all`, the iterator drained: every route that covers the address, most specific
      first. */
  method LookupAddressAll<T>(root: Node<T>, n: nat, addr: seq<int>) returns (vals: seq<T>)
    requires WellFormed(root, n, []) && |addr| == n && ValidKey(Key(addr, 1), n)
    ensures vals == Values(Matches(root, Key(addr, 1), 0))
  {
    var q := Key(addr, 1);
    var value, stack, head := Descend(root, n, addr);
    vals := if value.Some? then [value.value] else [];
    ValuesAppend(head, StackMatches(stack, q));
    while stack != []
      invariant |stack| <= |q.path| + 1 && StackOk(stack)
      invariant vals + Values(StackMatches(stack, q)) == Values(Matches(root, q, 0))
      decreases |stack|
    {
      var d := |stack| - 1;
      StartIsIndex(q, n, d);
      var own := NodeIter(stack[d].prefixes, q.path[..d], Start(q, d));
      ValuesAppend(NodeMatches(stack[d].prefixes, q.path[..d], Start(q, d)), StackMatches(stack[..d], q));
      vals := vals + own;
      stack := stack[..d];
    }
  }

  /** Route `k` is the longest stored prefix that covers `q`. */
  ghost predicate IsLongestRoute<T>(root: Node<T>, n: nat, q: Key, k: Key) {
    && ValidKey(k, n) && CoversKey(k, q) && Find(root, k, 0).Some?
    && forall j :: ValidKey(j, n) && CoversKey(j, q) && Find(root, j, 0).Some? && j != k ==> Bits(j) < Bits(k)
  }

  ghost predicate IsUncovered<T>(root: Node<T>, n: nat, q: Key) {
    forall k :: ValidKey(k, n) && CoversKey(k, q) ==> Find(root, k, 0) == None
  }

  /** Every stored route that covers the query has a position in the list. */
  lemma MatchPosition<T>(root: Node<T>, n: nat, q: Key, k: Key) returns (i: nat)
    requires WellFormed(root, n, []) && ValidKey(q, n) && ValidKey(k, n)
    requires CoversKey(k, q) && Find(root, k, 0).Some?
    ensures i < |Matches(root, q, 0)| && Matches(root, q, 0)[i].0 == k
  {
    var m, v := Matches(root, q, 0), Find(root, k, 0).value;
    MatchesAre(root, n, [], q, k, v);
    i :| 0 <= i < |m| && m[i] == (k, v);
  }

  lemma FirstIsAMatch<T>(root: Node<T>, n: nat, q: Key)
    requires WellFormed(root, n, []) && ValidKey(q, n) && Matches(root, q, 0) != []
    ensures var e := Matches(root, q, 0)[0];
            ValidKey(e.0, n) && CoversKey(e.0, q) && Find(root, e.0, 0) == Some(e.1)
  {
    var m := Matches(root, q, 0);
    MatchKeysBelow(root, n, [], q, 0);
    assert m[0] in m;
    MatchesAre(root, n, [], q, m[0].0, m[0].1);
  }

  /** The first match is the longest-prefix match, and there is a match exactly when some route
      covers. */
  lemma FirstIsLongest<T>(root: Node<T>, n: nat, q: Key)
    requires WellFormed(root, n, []) && ValidKey(q, n)
    ensures var m := Matches(root, q, 0);
            && (m == [] <==> IsUncovered(root, n, q))
            && (m != [] ==> IsLongestRoute(root, n, q, m[0].0) && Find(root, m[0].0, 0) == Some(m[0].1))
  {
    var m := Matches(root, q, 0);
    if m == [] {
      forall k | ValidKey(k, n) && CoversKey(k, q) ensures Find(root, k, 0) == None {
        if Find(root, k, 0).Some? { var i := MatchPosition(root, n, q, k); }
      }
    } else {
      FirstIsAMatch(root, n, q);
      MatchesSorted(root, n, [], q);
      forall j | ValidKey(j, n) && CoversKey(j, q) && Find(root, j, 0).Some? && j != m[0].0
        ensures Bits(j) < Bits(m[0].0)
      {
        var i := MatchPosition(root, n, q, j);
      }
    }
  }

  /** The list holds keys of the address family, below the node's path. */
  lemma {:induction false} MatchKeysBelow<T>(node: Node<T>, n: nat, path: seq<int>, q: Key, i: nat)
    requires WellFormed(node, n, path) && Below(q, n, path)
    requires i < |Matches(node, q, |path|)|
    ensures Below(Matches(node, q, |path|)[i].0, n, path)
    decreases n - |path|
  {
    assert q.path[..|path|] == path;
    var below := ChildMatches(node, q, |path|);
    var own := NodeMatches(node.prefixes, path, Start(q, |path|));
    var m := Matches(node, q, |path|);
    if i < |below| {
      assert m[i] == below[i];
      var o := q.path[|path|];
      assert WellFormedChild(node.children[o], n, path + [o]);
      assert q.path[..|path| + 1] == path + [o];
      if node.children[o].Path? { MatchKeysBelow(node.children[o].node, n, path + [o], q, i); }
    } else {
      assert m[i] == own[i - |below|];
      OwnMatchBelow(node, n, path, q, i - |below|);
    }
  }

  lemma OwnMatchBelow<T>(node: Node<T>, n: nat, path: seq<int>, q: Key, i: nat)
    requires WellFormed(node, n, path) && Below(q, n, path)
    requires i < |NodeMatches(node.prefixes, path, Start(q, |path|))|
    ensures Below(NodeMatches(node.prefixes, path, Start(q, |path|))[i].0, n, path)
  {
    var own := NodeMatches(node.prefixes, path, Start(q, |path|));
    assert own[i] in own;
    NodeMatchesAre(node.prefixes, path, Start(q, |path|), own[i].0, own[i].1);
  }

  /** `lookup_index` on one node of the stack. */
  method NodeTop<T>(prefixes: map<int, T>, ghost path: seq<int>, i: int) returns (found: bool, top: int)
    requires KeysInRange(prefixes) && 1 <= i < 256
    ensures !found <==> NodeMatches(prefixes, path, i) == []
    ensures found ==> top in prefixes && NodeMatches(prefixes, path, i)[0] == (Key(path, top), prefixes[top])
  {
    var lpm := Lpm.LpmEntry(i);
    Lpm.AncestorsAre(i);
    found, top := Lpm.IntersectionTop(prefixes.Keys, lpm);
    if found {
      TopStep(prefixes, path, i, top);
    } else {
      NoTop(prefixes, path, i);
    }
  }

  /** `walk_stack`, up to its first value. */
  method FirstOfStack<T>(nodes: seq<Node<T>>, n: nat, q: Key) returns (r: Option<T>)
    requires ValidKey(q, n) && |nodes| <= |q.path| + 1 && StackOk(nodes)
    ensures r == Head(StackMatches(nodes, q))
  {
    var stack := nodes;
    while stack != []
      invariant |stack| <= |q.path| + 1 && StackOk(stack)
      invariant StackMatches(nodes, q) == StackMatches(stack, q)
      decreases |stack|
    {
      var d := |stack| - 1;
      StartIsIndex(q, n, d);
      var found, top := NodeTop(stack[d].prefixes, q.path[..d], Start(q, d));
      if found { return Some(stack[d].prefixes[top]); }
      stack := stack[..d];
    }
    r := None;
  }

  /** `lookup_address`: the value of the longest route that covers the address; none exactly when no
      stored route covers it. */
  method LookupAddress<T>(root: Node<T>, n: nat, addr: seq<int>) returns (r: Option<T>)
    requires WellFormed(root, n, []) && |addr| == n && ValidKey(Key(addr, 1), n)
    ensures r.None? <==> IsUncovered(root, n, Key(addr, 1))
    ensures r.Some? ==> exists k :: IsLongestRoute(root, n, Key(addr, 1), k) && Find(root, k, 0) == r
  {
    var value, stack, head := Descend(root, n, addr);
    r := value;
    if value.None? { r := FirstOfStack(stack, n, Key(addr, 1)); }
    assert r == Head(Matches(root, Key(addr, 1), 0));
    FirstIsLongest(root, n, Key(addr, 1));
  }

  /** `contains`: whether any route covers the address. */
  method Contains<T>(root: Node<T>, n: nat, addr: seq<int>) returns (r: bool)
    requires WellFormed(root, n, []) && |addr| == n && ValidKey(Key(addr, 1), n)
    ensures !r <==> IsUncovered(root, n, Key(addr, 1))
  {
    var q := Key(addr, 1);
    var node := root;
    FirstIsLongest(root, n, q);
    StartDescent(root, n, q);
    ghost var stack: seq<Node<T>> := [];
    var depth := 0;
    while depth < |addr|
      invariant depth == |stack| && Descending(root, n, q, node, stack)
      invariant StackMatches(stack, q) == []
    {
      var octet := addr[depth];
      Pushed(root, n, q, node, stack);
      StartIsIndex(q, n, depth);
      var found, _ := NodeTop(node.prefixes, q.path[..depth], 128 + octet / 2);
      assert (stack + [node])[..depth] == stack;
      if |node.prefixes| != 0 && found { return true; }
      if found { EmptyOrMember(node.prefixes.Keys); }
      if octet !in node.children { return false; }
      match node.children[octet] {
        case Path(m) =>
          WentDown(root, n, q, node, stack);
          stack := stack + [node];
          node := m;
        case Fringe(v) =>
          return true;
        case Leaf(k, v) =>
          return CoversKey(k, q);
      }
      depth := depth + 1;
    }
    r := false;
  }
}
