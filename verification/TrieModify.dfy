/** In-place modification of a route (`iptrie::modify`), and what the canonical form gives. */
module TrieModify {
  import opened Wrappers
  import opened Trie
  import opened TrieInsert
  import opened TrieRemove

  /** `RouteModification`. */
  datatype Edit<T> = InsertValue(value: T) | RemoveRoute | Noop

  function Touched<T>(was: Option<T>, touch: T -> T): Option<T> {
    if was.Some? then Some(touch(was.value)) else None
  }

  /** `modify_inner`.  The caller's closure is two functions of the value it is shown: `touch`, what it
      writes through the reference, and `decide`, what it returns. */
  function ModifyInner<T>(node: Node<T>, n: nat, k: Key, decide: Option<T> -> Edit<T>, touch: T -> T,
                          depth: nat, root: nat): Outcome<T>
    requires depth <= n
    decreases n - depth
  {
    if depth == n || depth > |k.path| then Outcome(None, node, None)
    else if depth == |k.path| then
      var was := MapGet(node.prefixes, k.idx);
      var node1 := if was.Some? then node.(prefixes := node.prefixes[k.idx := touch(was.value)]) else node;
      match decide(was)
      case RemoveRoute => Finish(MapGet(node1.prefixes, k.idx), WithoutPrefix(node1, k.idx), k.path[..depth], root)
      case InsertValue(t) =>
        Outcome(MapGet(node1.prefixes, k.idx), node1.(prefixes := node1.prefixes[k.idx := t]), None)
      case Noop => Outcome(None, node1, None)
    else
      var o := k.path[depth];
      if o !in node.children then
        match decide(None)
        case InsertValue(t) => Outcome(None, Put(node, o, Entry(k, t, depth)), None)
        case _ => Outcome(None, node, None)
      else
        var c := node.children[o];
        if (c.Leaf? && c.key != k) || (c.Fringe? && !k.IsFringe(depth)) then
          match decide(None)
          case InsertValue(t) => var r := Insert(node, n, k, t, depth); Outcome(r.0, r.1, None)
          case _ => Outcome(None, node, None)
        else if !c.Path? then
          var v := if c.Leaf? then c.value else c.fringeValue;
          match decide(Some(v))
          case Noop => Outcome(None, Put(node, o, if c.Leaf? then c.(value := touch(v)) else Fringe(touch(v))), None)
          case InsertValue(t) => Outcome(Some(touch(v)), Put(node, o, Entry(k, t, depth)), None)
          case RemoveRoute => Finish(Some(touch(v)), WithoutChild(node, o), k.path[..depth], root)
        else
          var dissolvable := |node.children| == 1 && |node.prefixes| == 0;
          var r := ModifyInner(c.node, n, k, decide, touch, depth + 1, if dissolvable then root else depth);
          Outcome(r.value, Put(node, o, Path(r.node)), r.removal)
  }

  /** `modify`. */
  function Modify<T>(root: Node<T>, n: nat, k: Key, decide: Option<T> -> Edit<T>, touch: T -> T): (Option<T>, Node<T>)
  {
    var r := ModifyInner(root, n, k, decide, touch, 0, 0);
    if r.removal.Some? && r.removal.value.root <= n then (r.value, Compress(r.node, n, r.removal.value, 0))
    else (r.value, r.node)
  }

  /** What the decision turns the walk into: a removal, an insertion, or an insertion of the touched
      value. */
  ghost predicate SameAs<T>(node: Node<T>, n: nat, k: Key, touch: T -> T, depth: nat, root: nat,
                            edit: Edit<T>, r: Outcome<T>)
    requires depth <= n
  {
    var was := Find(node, k, depth);
    match edit
    case RemoveRoute =>
      var s := RemoveInner(node, n, k, depth, root);
      r.node == s.node && r.removal == s.removal && r.value == Touched(was, touch)
    case InsertValue(t) =>
      r.node == Insert(node, n, k, t, depth).1 && r.removal == None && r.value == Touched(was, touch)
    case Noop =>
      && r.removal == None && r.value == None
      && r.node == if was.Some? then Insert(node, n, k, touch(was.value), depth).1 else node
  }

  lemma {:induction false} ModifyInnerIs<T>(node: Node<T>, n: nat, path: seq<int>, k: Key,
                                            decide: Option<T> -> Edit<T>, touch: T -> T, root: nat)
    requires WellFormed(node, n, path) && Below(k, n, path)
    ensures SameAs(node, n, k, touch, |path|, root, decide(Find(node, k, |path|)),
                   ModifyInner(node, n, k, decide, touch, |path|, root))
    decreases n - |path|
  {
    if |path| == |k.path| {
      assert k.path[..|path|] == path;
      ModifyPrefixIs(node, n, path, k, decide, touch, root);
    } else {
      var o := k.path[|path|];
      FindThroughChild(node, n, path, k);
      if o in node.children && node.children[o].Path? {
        var c := node.children[o];
        assert WellFormedChild(c, n, path + [o]);
        ModifyInnerIs(c.node, n, path + [o], k, decide, touch, PassedRoot(node, |path|, root));
        PutBack(node, o);
      } else {
        ModifyEntryIs(node, n, path, k, decide, touch, root);
      }
    }
  }

  /** The slot of the octet is free, or holds a route directly. */
  lemma ModifyEntryIs<T>(node: Node<T>, n: nat, path: seq<int>, k: Key,
                         decide: Option<T> -> Edit<T>, touch: T -> T, root: nat)
    requires WellFormed(node, n, path) && Below(k, n, path) && |path| < |k.path|
    requires k.path[|path|] in node.children ==> !node.children[k.path[|path|]].Path?
    ensures SameAs(node, n, k, touch, |path|, root, decide(Find(node, k, |path|)),
                   ModifyInner(node, n, k, decide, touch, |path|, root))
  {
    var o := k.path[|path|];
    FindThroughChild(node, n, path, k);
    if o in node.children {
      assert WellFormedChild(node.children[o], n, path + [o]);
      if decide(Find(node, k, |path|)).InsertValue? {
        InsertReturns(node, n, path, k, decide(Find(node, k, |path|)).value);
      }
    }
  }

  lemma PutBack<T>(node: Node<T>, o: int)
    requires o in node.children
    ensures Put(node, o, node.children[o]) == node
  {
    assert node.children[o := node.children[o]] == node.children;
  }

  lemma ModifyPrefixIs<T>(node: Node<T>, n: nat, path: seq<int>, k: Key,
                          decide: Option<T> -> Edit<T>, touch: T -> T, root: nat)
    requires WellFormed(node, n, path) && Below(k, n, path) && |path| == |k.path|
    ensures SameAs(node, n, k, touch, |path|, root, decide(Find(node, k, |path|)),
                   ModifyInner(node, n, k, decide, touch, |path|, root))
  {
    var was := MapGet(node.prefixes, k.idx);
    if was.Some? {
      var p := node.prefixes[k.idx := touch(was.value)];
      assert p - {k.idx} == node.prefixes - {k.idx};
      var edit := decide(was);
      if edit.InsertValue? { assert p[k.idx := edit.value] == node.prefixes[k.idx := edit.value]; }
    }
  }

  /** What a key holds after the closure has run. */
  function Edited<T>(was: Option<T>, edit: Edit<T>, touch: T -> T): Option<T> {
    match edit
    case InsertValue(t) => Some(t)
    case RemoveRoute => None
    case Noop => Touched(was, touch)
  }

  /** `modify` edits one key of the map: the closure is shown what the key holds, its decision is applied
      to that key alone, and a replaced or removed route returns its (touched) value. */
  lemma ModifyIsMapEdit<T>(root: Node<T>, n: nat, k: Key, decide: Option<T> -> Edit<T>, touch: T -> T, q: Key)
    requires WellFormed(root, n, []) && ValidKey(k, n) && ValidKey(q, n)
    ensures var was := Find(root, k, 0);
            var r := Modify(root, n, k, decide, touch);
            && WellFormed(r.1, n, [])
            && Find(r.1, q, 0) == (if q == k then Edited(was, decide(was), touch) else Find(root, q, 0))
            && r.0 == (if decide(was).Noop? then None else Touched(was, touch))
  {
    ModifyInnerIs(root, n, [], k, decide, touch, 0);
    var was := Find(root, k, 0);
    match decide(was) {
      case RemoveRoute => RemoveInnerOk(root, n, [], k, 0, q);
      case InsertValue(t) =>
        InsertKeepsShape(root, n, [], k, t);
        FindAfterInsert(root, n, [], k, t, q);
      case Noop =>
        if was.Some? {
          InsertKeepsShape(root, n, [], k, touch(was.value));
          FindAfterInsert(root, n, [], k, touch(was.value), q);
        }
    }
  }

  /** Removing a route just added gives back the very same tree. */
  lemma RemoveUndoesInsert<T(!new)>(root: Node<T>, n: nat, k: Key, v: T)
    requires WellFormed(root, n, []) && ValidKey(k, n) && Find(root, k, 0) == None
    ensures Remove(Insert(root, n, k, v, 0).1, n, k) == (Some(v), root)
  {
    var added := Insert(root, n, k, v, 0).1;
    InsertKeepsShape(root, n, [], k, v);
    FindAfterInsert(root, n, [], k, v, k);
    var r := Remove(added, n, k);
    RemoveIsMapRemoval(added, n, k, k);
    forall q | Below(q, n, []) ensures Find(r.1, q, 0) == Find(root, q, 0) {
      FindAfterInsert(root, n, [], k, v, q);
      RemoveIsMapRemoval(added, n, k, q);
    }
    Canonical(r.1, root, n, []);
  }

  /** The order in which two different routes are added leaves no trace in the tree. */
  lemma InsertsCommute<T(!new)>(root: Node<T>, n: nat, j: Key, u: T, k: Key, v: T)
    requires WellFormed(root, n, []) && ValidKey(j, n) && ValidKey(k, n) && j != k
    ensures Insert(Insert(root, n, j, u, 0).1, n, k, v, 0).1 == Insert(Insert(root, n, k, v, 0).1, n, j, u, 0).1
  {
    var a, b := Insert(root, n, j, u, 0).1, Insert(root, n, k, v, 0).1;
    InsertKeepsShape(root, n, [], j, u);
    InsertKeepsShape(root, n, [], k, v);
    InsertKeepsShape(a, n, [], k, v);
    InsertKeepsShape(b, n, [], j, u);
    var c, d := Insert(a, n, k, v, 0).1, Insert(b, n, j, u, 0).1;
    forall q | Below(q, n, []) ensures Find(c, q, 0) == Find(d, q, 0) {
      FindAfterInsert(root, n, [], j, u, q);
      FindAfterInsert(root, n, [], k, v, q);
      FindAfterInsert(a, n, [], k, v, q);
      FindAfterInsert(b, n, [], j, u, q);
    }
    Canonical(c, d, n, []);
  }
}
