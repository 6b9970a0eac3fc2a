/** Removing a route, with path re-compression (`iptrie::remove`). */
module TrieRemove {
  import opened Wrappers
  import opened Trie
  import opened TrieInsert

  /** `RemovalInfo`: the one route left in a node that is to be dissolved, and the depth of the node it
      moves up to. */
  datatype Removal<T> = Removal(key: Key, value: T, root: nat)

  datatype Outcome<T> = Outcome(value: Option<T>, node: Node<T>, removal: Option<Removal<T>>)

  /** `first_set` of an occupancy set, scanning up from `i`. */
  function FirstSet(s: set<int>, i: nat): int
    decreases 256 - i
  {
    if i >= 256 || i in s then i else FirstSet(s, i + 1)
  }

  function WithoutPrefix<T>(node: Node<T>, i: int): Node<T> { node.(prefixes := node.prefixes - {i}) }

  function WithoutChild<T>(node: Node<T>, o: int): Node<T> { node.(children := node.children - {o}) }

  /** `try_remove_last_child`: below the compression root, take out a last route that has no node of its
      own.  `path` is the node's own path. */
  function TryRemoveLast<T>(node: Node<T>, path: seq<int>, root: nat): (Option<Removal<T>>, Node<T>)
  {
    if |path| == root then (None, node)
    else if |node.children| == 0 && |node.prefixes| == 1 then
      var i := FirstSet(node.prefixes.Keys, 0);
      if i !in node.prefixes then (None, node)
      else (Some(Removal(Key(path, i), node.prefixes[i], root)), WithoutPrefix(node, i))
    else if |node.children| == 1 && |node.prefixes| == 0 then
      var o := FirstSet(node.children.Keys, 0);
      if o !in node.children || node.children[o].Path? then (None, node)
      else
        var c := node.children[o];
        var value := if c.Leaf? then c.value else c.fringeValue;
        (Some(Removal(RouteOf(c, path + [o]), value, root)), WithoutChild(node, o))
    else (None, node)
  }

  function Finish<T>(value: Option<T>, node: Node<T>, path: seq<int>, root: nat): Outcome<T> {
    var (removal, node') := TryRemoveLast(node, path, root);
    Outcome(value, node', removal)
  }

  /** `remove_inner`: walk down, remembering the depth of the last node that cannot be dissolved. */
  function RemoveInner<T>(node: Node<T>, n: nat, k: Key, depth: nat, root: nat): Outcome<T>
    requires depth <= n
    decreases n - depth
  {
    if depth == n || depth > |k.path| then Outcome(None, node, None)
    else if depth == |k.path| then
      Finish(MapGet(node.prefixes, k.idx), WithoutPrefix(node, k.idx), k.path[..depth], root)
    else
      var o := k.path[depth];
      if o !in node.children then Outcome(None, node, None)
      else
        match node.children[o]
        case Leaf(lk, lv) =>
          if lk != k then Outcome(None, node, None)
          else Finish(Some(lv), WithoutChild(node, o), k.path[..depth], root)
        case Fringe(fv) =>
          if !k.IsFringe(depth) then Outcome(None, node, None)
          else Finish(Some(fv), WithoutChild(node, o), k.path[..depth], root)
        case Path(m) =>
          var dissolvable := |node.children| == 1 && |node.prefixes| == 0;
          var r := RemoveInner(m, n, k, depth + 1, if dissolvable then root else depth);
          Outcome(r.value, Put(node, o, Path(r.node)), r.removal)
  }

  /** `compress_removal_path`: go down to the compression root, drop the whole dissolved chain and put the
      last route back there. */
  function Compress<T>(node: Node<T>, n: nat, removal: Removal<T>, depth: nat): Node<T>
    requires depth <= removal.root <= n
    decreases removal.root - depth
  {
    var o := removal.key.Octet(depth);
    if depth == removal.root then Insert(WithoutChild(node, o), n, removal.key, removal.value, depth).1
    else if o in node.children && node.children[o].Path? then
      Put(node, o, Path(Compress(node.children[o].node, n, removal, depth + 1)))
    else node
  }

  /** `remove`: the removed value and the new root. */
  function Remove<T>(root: Node<T>, n: nat, k: Key): (Option<T>, Node<T>)
  {
    var r := RemoveInner(root, n, k, 0, 0);
    if r.removal.Some? && r.removal.value.root <= n then (r.value, Compress(r.node, n, r.removal.value, 0))
    else (r.value, r.node)
  }

  lemma {:induction false} FirstSetFound(s: set<int>, i: nat, x: int)
    requires x in s && i <= x < 256
    ensures FirstSet(s, i) in s && i <= FirstSet(s, i) <= x
    decreases 256 - i
  {
    if i !in s { FirstSetFound(s, i + 1, x); }
  }

  /** The only member of a singleton occupancy map is what the scan finds. */
  lemma OnlyMember<V>(m: map<int, V>)
    requires |m| == 1 && forall x :: x in m ==> 0 <= x < 256
    ensures FirstSet(m.Keys, 0) in m
    ensures forall x :: x in m <==> x == FirstSet(m.Keys, 0)
  {
    assert |m.Keys| == 1;
    var x := Member(m.Keys);
    FirstSetFound(m.Keys, 0, x);
  }

  lemma Member(s: set<int>) returns (x: int)
    requires |s| == 1
    ensures s == {x}
  {
    EmptyOrMember(s);
    x :| x in s;
    EmptyOrMember(s - {x});
  }

  /** What a node looks like when only one route is left in it: the step fires exactly then. */
  lemma LastRoute<T>(node: Node<T>, n: nat, path: seq<int>, root: nat, q: Key)
    requires WellFormed(node, n, path) && !IsEmpty(node) && |path| != root
    requires forall j :: 0 <= j < |path| ==> 0 <= path[j] < 256
    requires Below(q, n, path)
    ensures var (removal, node') := TryRemoveLast(node, path, root);
            && (removal.Some? <==> IsLight(node))
            && (removal.None? ==> node' == node)
            && (removal.Some? ==>
                  var r := removal.value;
                  && r.root == root && Below(r.key, n, path)
                  && Find(node, q, |path|) == if q == r.key then Some(r.value) else None)
  {
    if |node.children| == 0 && |node.prefixes| == 1 {
      OnlyMember(node.prefixes);
      assert forall o :: o !in node.children.Keys;
    } else if |node.children| == 1 && |node.prefixes| == 0 {
      OnlyMember(node.children);
      LastChild(node, n, path, FirstSet(node.children.Keys, 0), q);
    }
  }

  lemma LastChild<T>(node: Node<T>, n: nat, path: seq<int>, o: int, q: Key)
    requires WellFormed(node, n, path) && |node.prefixes| == 0
    requires o in node.children && forall u :: u in node.children ==> u == o
    requires forall j :: 0 <= j < |path| ==> 0 <= path[j] < 256
    requires Below(q, n, path)
    ensures var c := node.children[o];
            c.Path? || (&& Below(RouteOf(c, path + [o]), n, path)
                        && Find(node, q, |path|) == if q == RouteOf(c, path + [o])
                                                    then Some(if c.Leaf? then c.value else c.fringeValue) else None)
  {
    var c := node.children[o];
    assert WellFormedChild(c, n, path + [o]);
    assert forall i :: i !in node.prefixes.Keys;
    if |q.path| > |path| { FindThroughChild(node, n, path, q); }
  }

  /** What `q` finds once `k` is gone. */
  ghost function Dropped<T>(node: Node<T>, k: Key, q: Key, depth: nat): Option<T> {
    if q == k then None else Find(node, q, depth)
  }

  /** The outcome of removing `k` below the node at `path`, as to shape.  Either the node is finished; or
      one route is left in flight, bound for a node above (then the whole node is to go), or for a node
      at or below this one (then compressing there finishes it). */
  ghost predicate ShapeOk<T>(node: Node<T>, n: nat, path: seq<int>, k: Key, root: nat, r: Outcome<T>) {
    && r.value == Find(node, k, |path|)
    && (r.removal.None? ==> Kept(r.node, n, path))
    && (r.removal.Some? ==>
          var x := r.removal.value;
          && Below(x.key, n, path) && x.key != k && r.value.Some?
          && x.root < n
          && (x.root < |path| ==> x.root == root)
          && (x.root >= |path| ==> |x.key.path| > x.root && Kept(Compress(r.node, n, x, |path|), n, path)))
  }

  ghost predicate Kept<T>(node: Node<T>, n: nat, path: seq<int>) {
    WellFormed(node, n, path) && (|path| > 0 ==> !IsLight(node))
  }

  /** The same outcome, as to the routes found below. */
  ghost predicate RoutesOk<T>(node: Node<T>, n: nat, path: seq<int>, k: Key, r: Outcome<T>, q: Key)
    requires r.removal.Some? ==> r.removal.value.root <= n
  {
    if r.removal.None? then Find(r.node, q, |path|) == Dropped(node, k, q, |path|)
    else
      var x := r.removal.value;
      if x.root < |path| then
        Find(node, q, |path|) == if q == k then r.value else if q == x.key then Some(x.value) else None
      else Find(Compress(r.node, n, x, |path|), q, |path|) == Dropped(node, k, q, |path|)
  }

  /** Taking `k`'s own entry out of the node that holds it. */
  lemma TakePrefix<T>(node: Node<T>, n: nat, path: seq<int>, k: Key, q: Key)
    requires WellFormed(node, n, path) && Below(k, n, path) && Below(q, n, path) && k.path == path
    ensures var node' := WithoutPrefix(node, k.idx);
            && WellFormed(node', n, path)
            && Find(node', q, |path|) == Dropped(node, k, q, |path|)
            && (Find(node, k, |path|) == None ==> node' == node)
            && (!IsLight(node) ==> !IsEmpty(node'))
  {
    TakenShape(node, n, path, k.idx);
    TakenRoutes(node, path, k, q);
    if k.idx !in node.prefixes { assert WithoutPrefix(node, k.idx).prefixes == node.prefixes; }
    TakenIsNotEmpty(node, k.idx);
  }

  lemma TakenIsNotEmpty<T>(node: Node<T>, i: int)
    ensures !IsLight(node) ==> !IsEmpty(WithoutPrefix(node, i))
  {
    SmallerByOne(node.prefixes, i);
  }

  lemma TakenShape<T>(node: Node<T>, n: nat, path: seq<int>, i: int)
    requires WellFormed(node, n, path)
    ensures WellFormed(WithoutPrefix(node, i), n, path)
  {
    forall o | o in node.children ensures WellFormedChild(node.children[o], n, path + [o]) { }
  }

  lemma TakenRoutes<T>(node: Node<T>, path: seq<int>, k: Key, q: Key)
    requires path <= q.path && k.path == path
    ensures Find(WithoutPrefix(node, k.idx), q, |path|) == Dropped(node, k, q, |path|)
  {
    if |q.path| == |path| {
      assert q.path == path;
    } else {
      FindElsewhere(node, WithoutPrefix(node, k.idx), q, |path|);
    }
  }

  lemma SmallerByOne<V>(m: map<int, V>, x: int)
    ensures |m - {x}| == |m| - (if x in m then 1 else 0)
  {
    assert (m - {x}).Keys == m.Keys - {x};
    assert |m| == |m.Keys| && |m - {x}| == |(m - {x}).Keys|;
  }

  lemma TakeChild<T>(node: Node<T>, n: nat, path: seq<int>, o: int, q: Key)
    requires WellFormed(node, n, path) && Below(q, n, path)
    requires o in node.children && !node.children[o].Path?
    ensures var node' := WithoutChild(node, o);
            && WellFormed(node', n, path)
            && Find(node', q, |path|) == Dropped(node, RouteOf(node.children[o], path + [o]), q, |path|)
            && (!IsLight(node) ==> !IsEmpty(node'))
  {
    var node' := WithoutChild(node, o);
    var c := node.children[o];
    assert WellFormedChild(c, n, path + [o]);
    if |q.path| > |path| {
      FindThroughChild(node, n, path, q);
      if q.path[|path|] != o { FindElsewhere(node, node', q, |path|); }
    }
    SmallerByOne(node.children, o);
  }

  /** The base of the recursion: `k` was held by this node, or was not there at all. */
  lemma FinishOk<T>(node: Node<T>, node1: Node<T>, n: nat, path: seq<int>, k: Key, root: nat, q: Key)
    requires WellFormed(node, n, path) && Below(k, n, path) && Below(q, n, path)
    requires if |path| == 0 then root == 0 else root < |path| && !IsLight(node)
    requires WellFormed(node1, n, path) && (|path| > 0 ==> !IsEmpty(node1))
    requires Find(node1, k, |path|) == None && Find(node1, q, |path|) == Dropped(node, k, q, |path|)
    requires Find(node, k, |path|) == None ==> node1 == node
    ensures var r := Finish(Find(node, k, |path|), node1, path, root);
            ShapeOk(node, n, path, k, root, r) && RoutesOk(node, n, path, k, r, q)
  {
    if |path| > 0 {
      LastRoute(node1, n, path, root, q);
      LastRoute(node1, n, path, root, k);
    }
  }

  /** Compressing at this very node puts the last route where the dissolved child was. */
  lemma CompressPuts<T>(node: Node<T>, n: nat, path: seq<int>, o: int, m: Node<T>, x: Removal<T>)
    requires o in node.children && Below(x.key, n, path + [o]) && x.root == |path|
    ensures Compress(Put(node, o, Path(m)), n, x, |path|) == Put(node, o, Entry(x.key, x.value, |path|))
  {
    assert x.key.path[|path|] == o;
    var e := Entry(x.key, x.value, |path|);
    assert (node.children[o := Path(m)] - {o})[o := e] == node.children[o := e];
  }

  lemma EntryKept<T>(node: Node<T>, n: nat, path: seq<int>, o: int, k: Key, v: T)
    requires WellFormed(node, n, path) && o in node.children && Below(k, n, path + [o])
    requires |path| > 0 ==> !(|node.children| == 1 && |node.prefixes| == 0)
    ensures Kept(Put(node, o, Entry(k, v, |path|)), n, path)
  {
    EntryShape(k, v, n, path, o);
    PutShape(node, n, path, o, Entry(k, v, |path|));
    if |path| > 0 { PutIsNotLight(node, o, Entry(k, v, |path|)); }
  }

  lemma EntryFound<T>(node: Node<T>, n: nat, path: seq<int>, o: int, k: Key, v: T, q: Key)
    requires WellFormed(Put(node, o, Entry(k, v, |path|)), n, path) && Below(k, n, path + [o]) && Below(q, n, path)
    requires |q.path| > |path| && q.path[|path|] == o
    ensures Find(Put(node, o, Entry(k, v, |path|)), q, |path|) == if q == k then Some(v) else None
  {
    EntryShape(k, v, n, path, o);
    FindThroughChild(Put(node, o, Entry(k, v, |path|)), n, path, q);
  }

  lemma CompressHere<T>(node: Node<T>, n: nat, path: seq<int>, o: int, m: Node<T>, x: Removal<T>, q: Key)
    requires WellFormed(node, n, path) && o in node.children && node.children[o].Path?
    requires Below(x.key, n, path + [o]) && x.root == |path| && Below(q, n, path)
    requires |path| > 0 ==> !(|node.children| == 1 && |node.prefixes| == 0)
    ensures var c := Compress(Put(node, o, Path(m)), n, x, |path|);
            && c == Put(node, o, Entry(x.key, x.value, |path|))
            && Kept(c, n, path)
            && (|q.path| > |path| && q.path[|path|] == o ==>
                  Find(c, q, |path|) == if q == x.key then Some(x.value) else None)
  {
    CompressPuts(node, n, path, o, m, x);
    EntryKept(node, n, path, o, x.key, x.value);
    if |q.path| > |path| && q.path[|path|] == o { EntryFound(node, n, path, o, x.key, x.value, q); }
  }

  /** Replacing a node child by another well-formed, not-light node. */
  lemma PutPath<T>(node: Node<T>, n: nat, path: seq<int>, o: int, m: Node<T>, q: Key)
    requires WellFormed(node, n, path) && o in node.children && node.children[o].Path?
    requires WellFormed(m, n, path + [o]) && !IsLight(m) && Below(q, n, path)
    requires |path| > 0 ==> !IsLight(node)
    ensures var c := Put(node, o, Path(m));
            && Kept(c, n, path)
            && (|q.path| > |path| && q.path[|path|] == o ==> Find(c, q, |path|) == Find(m, q, |path| + 1))
  {
    var c := Put(node, o, Path(m));
    PutShape(node, n, path, o, Path(m));
    PutIsNotLight(node, o, Path(m));
    if |q.path| > |path| { FindThroughChild(c, n, path, q); }
  }

  /** The depth of compression that a node passes down. */
  ghost function PassedRoot<T>(node: Node<T>, depth: nat, root: nat): nat {
    if |node.children| == 1 && |node.prefixes| == 0 then root else depth
  }

  /** One step up the recursion: from the outcome for the child node to the outcome for this one. */
  lemma StepShape<T>(node: Node<T>, n: nat, path: seq<int>, k: Key, root: nat, o: int, r: Outcome<T>)
    requires WellFormed(node, n, path) && Below(k, n, path + [o])
    requires if |path| == 0 then root == 0 else root < |path| && !IsLight(node)
    requires o in node.children && node.children[o].Path?
    requires ShapeOk(node.children[o].node, n, path + [o], k, PassedRoot(node, |path|, root), r)
    ensures ShapeOk(node, n, path, k, root, Outcome(r.value, Put(node, o, Path(r.node)), r.removal))
  {
    assert k.path[|path|] == o;
    FindThroughChild(node, n, path, k);
    if r.removal.None? {
      PutPath(node, n, path, o, r.node, k);
    } else {
      var x := r.removal.value;
      assert x.key.path[|path|] == o;
      if x.root == |path| {
        CompressHere(node, n, path, o, r.node, x, k);
      } else if x.root > |path| {
        CompressBelow(node, n, path, o, r.node, x, k);
      }
    }
  }

  lemma CompressBelow<T>(node: Node<T>, n: nat, path: seq<int>, o: int, m: Node<T>, x: Removal<T>, q: Key)
    requires WellFormed(node, n, path) && o in node.children && node.children[o].Path?
    requires Below(x.key, n, path + [o]) && |path| < x.root <= n && Below(q, n, path)
    requires |path| > 0 ==> !IsLight(node)
    requires WellFormed(Compress(m, n, x, |path| + 1), n, path + [o]) && !IsLight(Compress(m, n, x, |path| + 1))
    ensures var c := Compress(Put(node, o, Path(m)), n, x, |path|);
            && c == Put(node, o, Path(Compress(m, n, x, |path| + 1)))
            && Kept(c, n, path)
            && (|q.path| > |path| && q.path[|path|] == o ==>
                  Find(c, q, |path|) == Find(Compress(m, n, x, |path| + 1), q, |path| + 1))
  {
    assert x.key.path[|path|] == o;
    var m' := Compress(m, n, x, |path| + 1);
    assert node.children[o := Path(m)][o := Path(m')] == node.children[o := Path(m')];
    PutPath(node, n, path, o, m', q);
  }

  /** The same step for a route `q` below the child. */
  lemma StepRoutesThrough<T>(node: Node<T>, n: nat, path: seq<int>, k: Key, root: nat, o: int, r: Outcome<T>, q: Key)
    requires WellFormed(node, n, path) && Below(k, n, path + [o]) && Below(q, n, path + [o])
    requires if |path| == 0 then root == 0 else root < |path| && !IsLight(node)
    requires o in node.children && node.children[o].Path?
    requires ShapeOk(node.children[o].node, n, path + [o], k, PassedRoot(node, |path|, root), r)
    requires RoutesOk(node.children[o].node, n, path + [o], k, r, q)
    ensures RoutesOk(node, n, path, k, Outcome(r.value, Put(node, o, Path(r.node)), r.removal), q)
  {
    assert q.path[|path|] == o;
    FindThroughChild(node, n, path, q);
    if r.removal.None? {
      PutPath(node, n, path, o, r.node, q);
    } else {
      var x := r.removal.value;
      if x.root == |path| {
        CompressHere(node, n, path, o, r.node, x, q);
      } else if x.root > |path| {
        CompressBelow(node, n, path, o, r.node, x, q);
      }
    }
  }

  /** And for a route that does not go through the child. */
  lemma StepRoutesAround<T>(node: Node<T>, n: nat, path: seq<int>, k: Key, root: nat, o: int, r: Outcome<T>, q: Key)
    requires WellFormed(node, n, path) && Below(k, n, path + [o]) && Below(q, n, path)
    requires |q.path| == |path| || q.path[|path|] != o
    requires if |path| == 0 then root == 0 else root < |path| && !IsLight(node)
    requires o in node.children && node.children[o].Path?
    requires ShapeOk(node.children[o].node, n, path + [o], k, PassedRoot(node, |path|, root), r)
    ensures RoutesOk(node, n, path, k, Outcome(r.value, Put(node, o, Path(r.node)), r.removal), q)
  {
    assert k.path[|path|] == o;
    FindAround(node, o, Path(r.node), q, |path|);
    if r.removal.Some? {
      var x := r.removal.value;
      assert x.key.path[|path|] == o;
      if x.root < |path| {
        NothingElse(node, o, q, |path|);
      } else if x.root == |path| {
        CompressHere(node, n, path, o, r.node, x, k);
        FindAround(node, o, Entry(x.key, x.value, |path|), q, |path|);
      } else {
        CompressBelow(node, n, path, o, r.node, x, k);
        FindAround(node, o, Path(Compress(r.node, n, x, |path| + 1)), q, |path|);
      }
    }
  }

  lemma FindAround<T>(node: Node<T>, o: int, c: Child<T>, q: Key, depth: nat)
    requires |q.path| <= depth || q.path[depth] != o
    ensures Find(Put(node, o, c), q, depth) == Find(node, q, depth)
  {
    if depth < |q.path| { FindElsewhere(node, Put(node, o, c), q, depth); }
  }

  /** A node that passed the compression root on has one child and nothing else. */
  lemma NothingElse<T>(node: Node<T>, o: int, q: Key, depth: nat)
    requires |node.children| == 1 && |node.prefixes| == 0 && o in node.children
    requires |q.path| <= depth || q.path[depth] != o
    ensures Find(node, q, depth) == None
  {
    EmptyOrMember(node.prefixes.Keys);
    assert |node.children| == |node.children.Keys|;
    var u := Member(node.children.Keys);
  }

  /** Every run of `remove_inner` ends in a good outcome. */
  lemma {:induction false} RemoveInnerOk<T>(node: Node<T>, n: nat, path: seq<int>, k: Key, root: nat, q: Key)
    requires WellFormed(node, n, path) && Below(k, n, path) && Below(q, n, path)
    requires if |path| == 0 then root == 0 else root < |path| && !IsLight(node)
    ensures var r := RemoveInner(node, n, k, |path|, root);
            ShapeOk(node, n, path, k, root, r) && RoutesOk(node, n, path, k, r, q)
    decreases n - |path|
  {
    assert k.path[..|path|] == path;
    if |path| == |k.path| {
      assert k.path == path;
      TakePrefix(node, n, path, k, q);
      TakePrefix(node, n, path, k, k);
      FinishOk(node, WithoutPrefix(node, k.idx), n, path, k, root, q);
    } else {
      var o := k.path[|path|];
      FindThroughChild(node, n, path, k);
      if o in node.children {
        var c := node.children[o];
        if c.Path? {
          RemoveThroughNode(node, n, path, k, root, q);
        } else if RouteOf(c, path + [o]) == k {
          TakeChild(node, n, path, o, q);
          TakeChild(node, n, path, o, k);
          FinishOk(node, WithoutChild(node, o), n, path, k, root, q);
        }
      }
    }
  }

  lemma {:induction false} RemoveThroughNode<T>(node: Node<T>, n: nat, path: seq<int>, k: Key, root: nat, q: Key)
    requires WellFormed(node, n, path) && Below(k, n, path) && Below(q, n, path)
    requires if |path| == 0 then root == 0 else root < |path| && !IsLight(node)
    requires |path| < |k.path| && k.path[|path|] in node.children && node.children[k.path[|path|]].Path?
    ensures var r := RemoveInner(node, n, k, |path|, root);
            ShapeOk(node, n, path, k, root, r) && RoutesOk(node, n, path, k, r, q)
    decreases n - |path|, 0
  {
    var o := k.path[|path|];
    FindThroughChild(node, n, path, k);
    assert WellFormedChild(node.children[o], n, path + [o]);
    var passed := PassedRoot(node, |path|, root);
    var through := |path| < |q.path| && q.path[|path|] == o;
    if through { FindThroughChild(node, n, path, q); }
    RemoveInnerOk(node.children[o].node, n, path + [o], k, passed, if through then q else k);
    var r := RemoveInner(node.children[o].node, n, k, |path| + 1, passed);
    StepShape(node, n, path, k, root, o, r);
    if through {
      StepRoutesThrough(node, n, path, k, root, o, r, q);
    } else {
      StepRoutesAround(node, n, path, k, root, o, r, q);
    }
  }

  /** `remove` is the map removal: it returns the value the key had, keeps the shape at the root, drops
      the key, and leaves every other key with what it had, path re-compression included. */
  lemma RemoveIsMapRemoval<T>(root: Node<T>, n: nat, k: Key, q: Key)
    requires WellFormed(root, n, []) && ValidKey(k, n) && ValidKey(q, n)
    ensures var r := Remove(root, n, k);
            && r.0 == Find(root, k, 0)
            && WellFormed(r.1, n, [])
            && Find(r.1, q, 0) == if q == k then None else Find(root, q, 0)
  {
    RemoveInnerOk(root, n, [], k, 0, q);
  }

  /** Canonical form: well-formed tries that store the same routes are the same tree, whatever the
      history of insertions and removals that built them. */
  lemma {:induction false} Canonical<T(!new)>(a: Node<T>, b: Node<T>, n: nat, path: seq<int>)
    requires WellFormed(a, n, path) && WellFormed(b, n, path)
    requires forall j :: 0 <= j < |path| ==> 0 <= path[j] < 256
    requires forall q :: Below(q, n, path) ==> Find(a, q, |path|) == Find(b, q, |path|)
    ensures a == b
    decreases n - |path|
  {
    forall i | 1 <= i < 256
      ensures i in a.prefixes <==> i in b.prefixes
      ensures i in a.prefixes ==> a.prefixes[i] == b.prefixes[i]
    {
      var q := Key(path, i);
      assert Below(q, n, path) && Find(a, q, |path|) == Find(b, q, |path|);
    }
    assert a.prefixes == b.prefixes;
    forall o | 0 <= o < 256
      ensures o in a.children <==> o in b.children
      ensures o in a.children ==> a.children[o] == b.children[o]
    {
      if o in a.children {
        SameChild(a, b, n, path, o);
      } else if o in b.children {
        var k := SomeRoute(b, n, path, o);
        assert Below(k, n, path);
        FindThroughChild(a, n, path, k);
      }
    }
    assert a.children == b.children;
  }

  lemma {:induction false} SameChild<T(!new)>(a: Node<T>, b: Node<T>, n: nat, path: seq<int>, o: int)
    requires WellFormed(a, n, path) && WellFormed(b, n, path) && o in a.children
    requires forall j :: 0 <= j < |path| ==> 0 <= path[j] < 256
    requires forall q :: Below(q, n, path) ==> Find(a, q, |path|) == Find(b, q, |path|)
    ensures o in b.children && a.children[o] == b.children[o]
    decreases n - |path|, 0
  {
    var k := SomeRoute(a, n, path, o);
    assert Below(k, n, path) && k.path[|path|] == o;
    FindThroughChild(a, n, path, k);
    FindThroughChild(b, n, path, k);
    var c, d := a.children[o], b.children[o];
    assert WellFormedChild(c, n, path + [o]) && WellFormedChild(d, n, path + [o]);
    if c.Path? && d.Path? {
      forall q | Below(q, n, path + [o]) ensures Find(c.node, q, |path| + 1) == Find(d.node, q, |path| + 1) {
        assert Below(q, n, path) && q.path[|path|] == o;
        FindThroughChild(a, n, path, q);
        FindThroughChild(b, n, path, q);
      }
      Canonical(c.node, d.node, n, path + [o]);
    } else if c.Path? {
      NodeIsNotARoute(a, b, n, path, o);
    } else if d.Path? {
      NodeIsNotARoute(b, a, n, path, o);
    }
  }

  /** A node child stores two routes, a directly stored child one: they cannot stand for the same. */
  lemma NodeIsNotARoute<T(!new)>(a: Node<T>, b: Node<T>, n: nat, path: seq<int>, o: int)
    requires WellFormed(a, n, path) && WellFormed(b, n, path) && o in a.children && o in b.children
    requires forall j :: 0 <= j < |path| ==> 0 <= path[j] < 256
    requires a.children[o].Path?
    requires forall q :: Below(q, n, path) ==> Find(a, q, |path|) == Find(b, q, |path|)
    ensures b.children[o].Path?
  {
    var m := a.children[o].node;
    assert WellFormedChild(a.children[o], n, path + [o]);
    var x, y := TwoRoutes(m, n, path + [o]);
    assert Below(x, n, path) && Below(y, n, path) && x.path[|path|] == o && y.path[|path|] == o;
    FindThroughChild(a, n, path, x);
    FindThroughChild(a, n, path, y);
    FindThroughChild(b, n, path, x);
    FindThroughChild(b, n, path, y);
  }
}
