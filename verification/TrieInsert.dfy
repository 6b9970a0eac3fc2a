/** Inserting a route (`iptrie::insert`). */
module TrieInsert {
  import opened Wrappers
  import opened Trie

  /** `insert_inner`: walk the octets of the key; the result is the replaced value and the new node.
      A directly stored route that is in the way is pushed one level down first. */
  function Insert<T>(node: Node<T>, n: nat, k: Key, v: T, depth: nat): (r: (Option<T>, Node<T>))
    requires depth <= n
    decreases n - depth
  {
    if depth == n then (None, node)
    else if depth == |k.path| then (MapGet(node.prefixes, k.idx), node.(prefixes := node.prefixes[k.idx := v]))
    else
      var o := k.Octet(depth);
      if o !in node.children then (None, Put(node, o, Entry(k, v, depth)))
      else
        match node.children[o]
        case Leaf(lk, lv) =>
          if lk == k then (Some(lv), Put(node, o, Leaf(lk, v)))
          else
            var r := Insert(Insert(EmptyNode(), n, lk, lv, depth + 1).1, n, k, v, depth + 1);
            (r.0, Put(node, o, Path(r.1)))
        case Fringe(fv) =>
          if k.IsFringe(depth) then (Some(fv), Put(node, o, Fringe(v)))
          else
            var r := Insert(Node(map[1 := fv], map[]), n, k, v, depth + 1);
            (r.0, Put(node, o, Path(r.1)))
        case Path(m) =>
          var r := Insert(m, n, k, v, depth + 1);
          (r.0, Put(node, o, Path(r.1)))
  }

  /** The node a directly stored child is replaced by, before the new key goes in. */
  ghost function PushedDown<T>(c: Child<T>, n: nat, depth: nat): Node<T>
    requires depth < n
  {
    match c
    case Leaf(lk, lv) => Insert(EmptyNode(), n, lk, lv, depth + 1).1
    case Fringe(fv) => Node(map[1 := fv], map[])
    case Path(m) => m
  }

  /** Storing one route in an empty node gives a node with that route and nothing else. */
  lemma SingleRoute<T>(n: nat, path: seq<int>, k: Key, v: T, q: Key)
    requires |path| < n && Below(k, n, path) && Below(q, n, path)
    ensures var m := Insert(EmptyNode<T>(), n, k, v, |path|).1;
            && WellFormed(m, n, path) && !IsEmpty(m)
            && Find(m, q, |path|) == if q == k then Some(v) else None
  {
    var m := Insert(EmptyNode<T>(), n, k, v, |path|).1;
    if |path| == |k.path| {
      assert m == Node(map[k.idx := v], map[]);
      assert k.path == path;
    } else {
      var o := k.path[|path|];
      assert m == Node(map[], map[o := Entry(k, v, |path|)]);
      assert k.path[..|path| + 1] == path + [o];
      if |path| < |q.path| { FindThroughChild(m, n, path, q); }
    }
  }

  /** Pushing a child down keeps the routes it stands for. */
  lemma PushDown<T>(node: Node<T>, n: nat, path: seq<int>, o: int, q: Key)
    requires WellFormed(node, n, path) && o in node.children && |path| + 1 < n
    requires Below(q, n, path + [o])
    ensures var m := PushedDown(node.children[o], n, |path|);
            && WellFormed(m, n, path + [o]) && !IsEmpty(m)
            && Find(m, q, |path| + 1) == Find(node, q, |path|)
  {
    var c := node.children[o];
    assert WellFormedChild(c, n, path + [o]);
    assert q.path[|path|] == o;
    FindThroughChild(node, n, path, q);
    match c {
      case Leaf(lk, lv) => SingleRoute(n, path + [o], lk, lv, q);
      case Fringe(fv) =>
      case Path(m) =>
    }
  }

  /** Where the recursive step of an insertion goes, and that there is room for it. */
  lemma Descend<T>(node: Node<T>, n: nat, path: seq<int>, k: Key, v: T)
    requires WellFormed(node, n, path) && Below(k, n, path) && |path| < |k.path|
    requires k.path[|path|] in node.children
    requires Find(node, k, |path|) == None || node.children[k.path[|path|]].Path?
    ensures var o := k.path[|path|];
            && |path| + 1 < n
            && Below(k, n, path + [o])
            && var r := Insert(PushedDown(node.children[o], n, |path|), n, k, v, |path| + 1);
               Insert(node, n, k, v, |path|) == (r.0, Put(node, o, Path(r.1)))
  {
    var o := k.path[|path|];
    FindThroughChild(node, n, path, k);
    assert WellFormedChild(node.children[o], n, path + [o]);
    LastStride(node.children[o], n, path + [o]);
    FullLengthKey(k, n, path + [o]);
  }

  /** In the last stride only fringes are left. */
  lemma LastStride<T>(c: Child<T>, n: nat, path: seq<int>)
    requires WellFormedChild(c, n, path)
    ensures |path| == n ==> c.Fringe?
  {
    if c.Leaf? { FullLengthKey(c.key, n, path); }
  }

  /** Below a full-length path there is one key. */
  lemma FullLengthKey(k: Key, n: nat, path: seq<int>)
    requires Below(k, n, path)
    ensures |path| == n ==> k == Key(path, 1)
  {
    assert |path| == n ==> k.path == path;
  }

  /** An insertion returns the value the key had, keeps the shape, and leaves a node that is not light
      unless the key was the only route. */
  lemma {:induction false} InsertReturns<T>(node: Node<T>, n: nat, path: seq<int>, k: Key, v: T)
    requires WellFormed(node, n, path) && Below(k, n, path)
    ensures Insert(node, n, k, v, |path|).0 == Find(node, k, |path|)
    decreases n - |path|
  {
    if |path| < |k.path| {
      var o := k.path[|path|];
      FindThroughChild(node, n, path, k);
      if o in node.children && (Find(node, k, |path|) == None || node.children[o].Path?) {
        Descend(node, n, path, k, v);
        PushDown(node, n, path, o, k);
        InsertReturns(PushedDown(node.children[o], n, |path|), n, path + [o], k, v);
      }
    }
  }

  ghost predicate Sound<T>(node: Node<T>, n: nat, path: seq<int>, k: Key, node': Node<T>) {
    && WellFormed(node', n, path)
    && (!IsEmpty(node) && (!IsLight(node) || Find(node, k, |path|) == None) ==> !IsLight(node'))
  }

  /** The insertion ends in this node: its own table, a free slot, or the entry that holds the route. */
  lemma InsertHere<T>(node: Node<T>, n: nat, path: seq<int>, k: Key, v: T)
    requires WellFormed(node, n, path) && Below(k, n, path)
    requires |path| < |k.path| && k.path[|path|] in node.children ==>
               Find(node, k, |path|).Some? && !node.children[k.path[|path|]].Path?
    ensures Sound(node, n, path, k, Insert(node, n, k, v, |path|).1)
  {
    if |path| < |k.path| {
      var o := k.path[|path|];
      FindThroughChild(node, n, path, k);
      EntryShape(k, v, n, path, o);
      EntryIsPut(node, n, path, k, v);
      PutShape(node, n, path, o, Entry(k, v, |path|));
      if !IsEmpty(node) && (!IsLight(node) || o !in node.children) {
        if o in node.children && |node.children| == 1 { OnlyMember(node.children, o); }
        PutIsNotLight(node, o, Entry(k, v, |path|));
      }
    } else {
      PrefixIsPut(node, n, path, k.idx, v);
      if !IsEmpty(node) && (!IsLight(node) || k.idx !in node.prefixes) { PrefixIsNotLight(node, k.idx, v); }
    }
  }

  lemma EntryIsPut<T>(node: Node<T>, n: nat, path: seq<int>, k: Key, v: T)
    requires WellFormed(node, n, path) && Below(k, n, path) && |path| < |k.path|
    requires k.path[|path|] in node.children ==> Find(node, k, |path|).Some? && !node.children[k.path[|path|]].Path?
    ensures Insert(node, n, k, v, |path|).1 == Put(node, k.path[|path|], Entry(k, v, |path|))
  {
    var o := k.path[|path|];
    FindThroughChild(node, n, path, k);
    if o in node.children { assert WellFormedChild(node.children[o], n, path + [o]); }
  }

  lemma PrefixIsPut<T>(node: Node<T>, n: nat, path: seq<int>, i: int, v: T)
    requires WellFormed(node, n, path) && 1 <= i < 256
    ensures WellFormed(node.(prefixes := node.prefixes[i := v]), n, path)
  {
    forall o | o in node.children ensures WellFormedChild(node.children[o], n, path + [o]) { }
  }

  lemma PrefixIsNotLight<T>(node: Node<T>, i: int, v: T)
    requires !IsEmpty(node) && (!IsLight(node) || i !in node.prefixes)
    ensures !IsLight(node.(prefixes := node.prefixes[i := v]))
  {
    PutSize(node.prefixes, i, v);
  }

  /** The insertion goes on in a child node. */
  lemma InsertBelow<T>(node: Node<T>, n: nat, path: seq<int>, k: Key, m: Node<T>, m': Node<T>)
    requires WellFormed(node, n, path) && Below(k, n, path)
    requires |path| < |k.path| && k.path[|path|] in node.children && |path| + 1 < n
    requires !IsEmpty(m) && Sound(m, n, path + [k.path[|path|]], k, m')
    requires !IsLight(m) || Find(m, k, |path| + 1) == None
    ensures Sound(node, n, path, k, Put(node, k.path[|path|], Path(m')))
  {
    PutShape(node, n, path, k.path[|path|], Path(m'));
    PutIsNotLight(node, k.path[|path|], Path(m'));
  }

  lemma {:induction false} InsertKeepsShape<T>(node: Node<T>, n: nat, path: seq<int>, k: Key, v: T)
    requires WellFormed(node, n, path) && Below(k, n, path)
    ensures var r := Insert(node, n, k, v, |path|);
            && r.0 == Find(node, k, |path|)
            && WellFormed(r.1, n, path)
            && (!IsEmpty(node) && (!IsLight(node) || Find(node, k, |path|) == None) ==> !IsLight(r.1))
    decreases n - |path|
  {
    InsertReturns(node, n, path, k, v);
    if |path| < |k.path| && k.path[|path|] in node.children
       && (Find(node, k, |path|) == None || node.children[k.path[|path|]].Path?) {
      var o := k.path[|path|];
      Descend(node, n, path, k, v);
      PushDown(node, n, path, o, k);
      var m := PushedDown(node.children[o], n, |path|);
      InsertKeepsShape(m, n, path + [o], k, v);
      assert WellFormedChild(node.children[o], n, path + [o]);
      InsertBelow(node, n, path, k, m, Insert(m, n, k, v, |path| + 1).1);
    } else {
      InsertHere(node, n, path, k, v);
    }
  }

  /** Insertion is the map update: the key gets the value, every other key keeps what it had. */
  lemma {:induction false} FindAfterInsert<T>(node: Node<T>, n: nat, path: seq<int>, k: Key, v: T, q: Key)
    requires WellFormed(node, n, path) && Below(k, n, path) && Below(q, n, path)
    ensures Find(Insert(node, n, k, v, |path|).1, q, |path|) == if q == k then Some(v) else Find(node, q, |path|)
    decreases n - |path|
  {
    var node' := Insert(node, n, k, v, |path|).1;
    if |path| == |k.path| {
      if |q.path| > |path| { FindElsewhere(node, node', q, |path|); }
    } else if |q.path| == |path| {
    } else if q.path[|path|] != k.path[|path|] {
      FindElsewhere(node, node', q, |path|);
    } else {
      FindBelowInsert(node, n, path, k, v, q);
    }
  }

  lemma {:induction false} FindBelowInsert<T>(node: Node<T>, n: nat, path: seq<int>, k: Key, v: T, q: Key)
    requires WellFormed(node, n, path) && Below(k, n, path) && Below(q, n, path)
    requires |path| < |k.path| && |path| < |q.path| && q.path[|path|] == k.path[|path|]
    ensures Find(Insert(node, n, k, v, |path|).1, q, |path|) == if q == k then Some(v) else Find(node, q, |path|)
    decreases n - |path|, 0
  {
    var o := k.path[|path|];
    FindThroughChild(node, n, path, k);
    FindThroughChild(node, n, path, q);
    InsertKeepsShape(node, n, path, k, v);
    FindThroughChild(Insert(node, n, k, v, |path|).1, n, path, q);
    if o in node.children && (Find(node, k, |path|) == None || node.children[o].Path?) {
      Descend(node, n, path, k, v);
      PushDown(node, n, path, o, q);
      FindAfterInsert(PushedDown(node.children[o], n, |path|), n, path + [o], k, v, q);
    }
  }
}
