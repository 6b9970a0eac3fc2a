/** A walk of the crate dependency graph (`checks`): a breadth-first search that reports a shortest chain. */
module DepGraph {
  import opened Wrappers

  /** Package id to the ids it depends on; an id without an entry has no dependencies. */
  function Deps<Id>(g: map<Id, seq<Id>>, x: Id): seq<Id> { if x in g then g[x] else [] }

  lemma DepsAre<Id>(g: map<Id, seq<Id>>, x: Id, y: Id)
    ensures y in Deps(g, x) <==> x in g && y in g[x]
  {
  }

  /** A walk along edges. */
  ghost predicate IsPath<Id>(g: map<Id, seq<Id>>, p: seq<Id>) {
    p != [] && forall i :: 0 <= i < |p| - 1 ==> p[i + 1] in Deps(g, p[i])
  }

  function NameOf<Id>(names: map<Id, Id>, x: Id): Id { if x in names then names[x] else x }

  /** The search's variables: the parent map, the queue, and (for the proof) the distance of every package
      seen. */
  datatype Bfs<Id> = Bfs(parent: map<Id, Id>, dist: map<Id, nat>, queue: seq<Id>)

  /** Parents are one step closer to the root. */
  ghost predicate ParentsOk<Id(!new)>(g: map<Id, seq<Id>>, root: Id, s: Bfs<Id>) {
    && s.parent.Keys == s.dist.Keys && root in s.dist && s.dist[root] == 0
    && forall x :: x in s.parent && x != root ==>
         && s.parent[x] in s.dist && x in Deps(g, s.parent[x]) && s.dist[x] == s.dist[s.parent[x]] + 1
  }

  /** What has been seen is what is done plus what is queued, without overlap. */
  ghost predicate QueueOk<Id(!new)>(s: Bfs<Id>, done: set<Id>) {
    && (forall x :: x in s.dist <==> x in done || x in s.queue)
    && (forall i :: 0 <= i < |s.queue| ==> s.queue[i] !in done)
    && (forall i, j :: 0 <= i < j < |s.queue| ==> s.queue[i] != s.queue[j])
  }

  /** Distances grow along the queue, by at most one over `lo`. */
  ghost predicate LayersOk<Id(!new)>(s: Bfs<Id>, done: set<Id>, lo: nat) {
    && (forall x :: x in done ==> x in s.dist && s.dist[x] <= lo)
    && (forall i :: 0 <= i < |s.queue| ==> s.queue[i] in s.dist && lo <= s.dist[s.queue[i]] <= lo + 1)
    && (forall i, j :: 0 <= i < j < |s.queue| ==> s.queue[i] in s.dist && s.queue[j] in s.dist
                                                  && s.dist[s.queue[i]] <= s.dist[s.queue[j]])
  }

  /** The dependencies `ds` of a package at distance `d` have been seen, in time. */
  ghost predicate Seen<Id(!new)>(s: Bfs<Id>, d: nat, ds: seq<Id>) {
    forall i :: 0 <= i < |ds| ==> ds[i] in s.dist && s.dist[ds[i]] <= d + 1
  }

  ghost predicate ClosedOk<Id(!new)>(g: map<Id, seq<Id>>, s: Bfs<Id>, done: set<Id>) {
    forall x :: x in done ==> x in s.dist && Seen(s, s.dist[x], Deps(g, x))
  }

  ghost predicate Inv<Id(!new)>(g: map<Id, seq<Id>>, root: Id, s: Bfs<Id>, done: set<Id>, lo: nat) {
    ParentsOk(g, root, s) && QueueOk(s, done) && LayersOk(s, done, lo) && ClosedOk(g, s, done)
  }

  /** One dependency of `cur`. */
  function Relax<Id>(s: Bfs<Id>, cur: Id, dep: Id): Bfs<Id>
    requires cur in s.dist
  {
    if dep in s.parent then s
    else Bfs(s.parent[dep := cur], s.dist[dep := s.dist[cur] + 1], s.queue + [dep])
  }

  lemma RelaxParents<Id(!new)>(g: map<Id, seq<Id>>, root: Id, s: Bfs<Id>, cur: Id, dep: Id)
    requires ParentsOk(g, root, s) && cur in s.dist && dep in Deps(g, cur)
    ensures ParentsOk(g, root, Relax(s, cur, dep))
  {
  }

  lemma RelaxQueue<Id(!new)>(s: Bfs<Id>, done: set<Id>, cur: Id, dep: Id)
    requires QueueOk(s, done) && cur in s.dist && s.parent.Keys == s.dist.Keys
    ensures QueueOk(Relax(s, cur, dep), done)
  {
    var t := Relax(s, cur, dep);
    if dep !in s.parent {
      assert forall x :: x in t.queue <==> x in s.queue || x == dep;
    }
  }

  lemma RelaxLayers<Id(!new)>(s: Bfs<Id>, done: set<Id>, cur: Id, dep: Id, lo: nat)
    requires LayersOk(s, done, lo) && cur in s.dist && s.dist[cur] == lo && s.parent.Keys == s.dist.Keys
    ensures LayersOk(Relax(s, cur, dep), done, lo)
  {
  }

  lemma RelaxSeen<Id(!new)>(s: Bfs<Id>, cur: Id, dep: Id, d: nat, ds: seq<Id>)
    requires Seen(s, d, ds) && cur in s.dist && s.parent.Keys == s.dist.Keys
    ensures Seen(Relax(s, cur, dep), d, ds)
  {
  }

  lemma RelaxClosed<Id(!new)>(g: map<Id, seq<Id>>, s: Bfs<Id>, done: set<Id>, cur: Id, dep: Id)
    requires ClosedOk(g, s, done) && cur in s.dist && s.parent.Keys == s.dist.Keys
    ensures ClosedOk(g, Relax(s, cur, dep), done)
  {
    forall x | x in done ensures x in Relax(s, cur, dep).dist && Seen(Relax(s, cur, dep), s.dist[x], Deps(g, x)) {
      RelaxSeen(s, cur, dep, s.dist[x], Deps(g, x));
    }
  }

  /** Along a path whose first `k` packages are done, distances are at most the position. */
  lemma {:induction false} DistAlongPath<Id(!new)>(g: map<Id, seq<Id>>, root: Id, s: Bfs<Id>, done: set<Id>,
                           lo: nat, p: seq<Id>, k: nat)
    requires Inv(g, root, s, done, lo) && IsPath(g, p) && p[0] == root && k < |p|
    requires forall i :: 0 <= i < k ==> p[i] in done
    ensures p[k] in s.dist && s.dist[p[k]] <= k
  {
    if k > 0 {
      DistAlongPath(g, root, s, done, lo, p, k - 1);
      assert p[k - 1 + 1] in Deps(g, p[k - 1]) && Seen(s, s.dist[p[k - 1]], Deps(g, p[k - 1]));
    }
  }

  /** A path that leaves the done packages is at least as long as the distance of the queue's head. */
  lemma {:induction false} LeavesAtHead<Id(!new)>(g: map<Id, seq<Id>>, root: Id, s: Bfs<Id>, done: set<Id>,
                           lo: nat, p: seq<Id>, k: nat)
    requires Inv(g, root, s, done, lo) && IsPath(g, p) && p[0] == root && k < |p|
    requires forall i :: 0 <= i < k ==> p[i] in done
    requires p[|p| - 1] !in done
    ensures s.queue != [] && s.dist[s.queue[0]] <= |p| - 1
    decreases |p| - k
  {
    if p[k] in done {
      LeavesAtHead(g, root, s, done, lo, p, k + 1);
    } else {
      DistAlongPath(g, root, s, done, lo, p, k);
      HeadIsNearest(s, done, lo, p[k]);
    }
  }

  /** Of the packages seen and not expanded, the head of the queue is nearest to the root. */
  lemma HeadIsNearest<Id(!new)>(s: Bfs<Id>, done: set<Id>, lo: nat, x: Id)
    requires QueueOk(s, done) && LayersOk(s, done, lo) && x in s.dist && x !in done
    ensures s.queue != [] && s.queue[0] in s.dist && s.dist[s.queue[0]] <= s.dist[x]
  {
    var i :| 0 <= i < |s.queue| && s.queue[i] == x;
  }

  /** Taking the head off the queue moves it to the done packages. */
  lemma PopHead<Id(!new)>(g: map<Id, seq<Id>>, root: Id, s: Bfs<Id>, done: set<Id>, lo: nat)
    requires Inv(g, root, s, done, lo) && s.queue != []
    ensures var cur, t := s.queue[0], s.(queue := s.queue[1..]);
            && ParentsOk(g, root, t) && QueueOk(t, done + {cur}) && ClosedOk(g, t, done)
            && LayersOk(t, done + {cur}, s.dist[cur]) && cur in s.dist
  {
    PopQueue(s, done);
    PopLayers(s, done, lo);
    PopClosed(g, s, done);
  }

  lemma PopQueue<Id(!new)>(s: Bfs<Id>, done: set<Id>)
    requires QueueOk(s, done) && s.queue != []
    ensures QueueOk(s.(queue := s.queue[1..]), done + {s.queue[0]})
  {
    var cur, t := s.queue[0], s.(queue := s.queue[1..]);
    assert s.queue == [cur] + t.queue;
    assert forall x :: x in s.queue <==> x == cur || x in t.queue;
    assert forall i :: 0 <= i < |t.queue| ==> t.queue[i] == s.queue[i + 1];
  }

  lemma PopLayers<Id(!new)>(s: Bfs<Id>, done: set<Id>, lo: nat)
    requires LayersOk(s, done, lo) && s.queue != []
    ensures s.queue[0] in s.dist
    ensures LayersOk(s.(queue := s.queue[1..]), done + {s.queue[0]}, s.dist[s.queue[0]])
  {
    var queue := s.queue[1..];
    assert forall i :: 0 <= i < |queue| ==> queue[i] == s.queue[i + 1];
  }

  lemma PopClosed<Id(!new)>(g: map<Id, seq<Id>>, s: Bfs<Id>, done: set<Id>)
    requires ClosedOk(g, s, done) && s.queue != []
    ensures ClosedOk(g, s.(queue := s.queue[1..]), done)
  {
    var t := s.(queue := s.queue[1..]);
    forall x | x in done ensures Seen(t, t.dist[x], Deps(g, x)) {
      assert Seen(s, s.dist[x], Deps(g, x));
    }
  }

  /** The search state after looking at the first `i` dependencies. */
  ghost function RelaxFirst<Id>(s: Bfs<Id>, cur: Id, ds: seq<Id>, i: nat): (t: Bfs<Id>)
    requires cur in s.dist && i <= |ds|
    ensures cur in t.dist
  {
    if i == 0 then s else Relax(RelaxFirst(s, cur, ds, i - 1), cur, ds[i - 1])
  }

  lemma {:induction false} RelaxFirstKeeps<Id(!new)>(s: Bfs<Id>, cur: Id, ds: seq<Id>, i: nat, x: Id)
    requires cur in s.dist && i <= |ds| && x in s.dist && s.parent.Keys == s.dist.Keys
    ensures var t := RelaxFirst(s, cur, ds, i); t.parent.Keys == t.dist.Keys && x in t.dist && t.dist[x] == s.dist[x]
  {
    if i > 0 { RelaxFirstKeeps(s, cur, ds, i - 1, x); }
  }

  lemma {:induction false} RelaxFirstParents<Id(!new)>(g: map<Id, seq<Id>>, root: Id, s: Bfs<Id>, cur: Id, i: nat)
    requires ParentsOk(g, root, s) && cur in s.dist && i <= |Deps(g, cur)|
    ensures ParentsOk(g, root, RelaxFirst(s, cur, Deps(g, cur), i))
  {
    if i > 0 {
      RelaxFirstParents(g, root, s, cur, i - 1);
      RelaxParents(g, root, RelaxFirst(s, cur, Deps(g, cur), i - 1), cur, Deps(g, cur)[i - 1]);
    }
  }

  lemma {:induction false} RelaxFirstQueue<Id(!new)>(s: Bfs<Id>, done: set<Id>, cur: Id, ds: seq<Id>, i: nat)
    requires QueueOk(s, done) && cur in s.dist && s.parent.Keys == s.dist.Keys && i <= |ds|
    ensures QueueOk(RelaxFirst(s, cur, ds, i), done)
  {
    if i > 0 {
      RelaxFirstKeeps(s, cur, ds, i - 1, cur);
      RelaxFirstQueue(s, done, cur, ds, i - 1);
      RelaxQueue(RelaxFirst(s, cur, ds, i - 1), done, cur, ds[i - 1]);
    }
  }

  lemma {:induction false} RelaxFirstLayers<Id(!new)>(s: Bfs<Id>, done: set<Id>, cur: Id, ds: seq<Id>, i: nat, lo: nat)
    requires LayersOk(s, done, lo) && cur in s.dist && s.dist[cur] == lo && s.parent.Keys == s.dist.Keys && i <= |ds|
    ensures LayersOk(RelaxFirst(s, cur, ds, i), done, lo)
  {
    if i > 0 {
      RelaxFirstKeeps(s, cur, ds, i - 1, cur);
      RelaxFirstLayers(s, done, cur, ds, i - 1, lo);
      RelaxLayers(RelaxFirst(s, cur, ds, i - 1), done, cur, ds[i - 1], lo);
    }
  }

  lemma {:induction false} RelaxFirstClosed<Id(!new)>(g: map<Id, seq<Id>>, s: Bfs<Id>, done: set<Id>, cur: Id,
                           ds: seq<Id>, i: nat)
    requires ClosedOk(g, s, done) && cur in s.dist && s.parent.Keys == s.dist.Keys && i <= |ds|
    ensures ClosedOk(g, RelaxFirst(s, cur, ds, i), done)
  {
    if i > 0 {
      RelaxFirstKeeps(s, cur, ds, i - 1, cur);
      RelaxFirstClosed(g, s, done, cur, ds, i - 1);
      RelaxClosed(g, RelaxFirst(s, cur, ds, i - 1), done, cur, ds[i - 1]);
    }
  }

  lemma {:induction false} RelaxFirstNear<Id(!new)>(s: Bfs<Id>, cur: Id, ds: seq<Id>, i: nat, x: Id)
    requires cur in s.dist && s.parent.Keys == s.dist.Keys && i <= |ds|
    requires forall y :: y in s.dist ==> s.dist[y] <= s.dist[cur] + 1
    ensures var t := RelaxFirst(s, cur, ds, i); x in t.dist ==> t.dist[x] <= s.dist[cur] + 1
  {
    if i > 0 {
      RelaxFirstKeeps(s, cur, ds, i - 1, cur);
      RelaxFirstNear(s, cur, ds, i - 1, x);
    }
  }

  lemma {:induction false} RelaxFirstSeen<Id(!new)>(s: Bfs<Id>, cur: Id, ds: seq<Id>, i: nat)
    requires cur in s.dist && s.parent.Keys == s.dist.Keys && i <= |ds|
    requires forall x :: x in s.dist ==> s.dist[x] <= s.dist[cur] + 1
    ensures Seen(RelaxFirst(s, cur, ds, i), s.dist[cur], ds[..i])
  {
    if i > 0 {
      RelaxFirstKeeps(s, cur, ds, i - 1, cur);
      RelaxFirstSeen(s, cur, ds, i - 1);
      var t := RelaxFirst(s, cur, ds, i - 1);
      RelaxSeen(t, cur, ds[i - 1], s.dist[cur], ds[..i - 1]);
      RelaxFirstNear(s, cur, ds, i, ds[i - 1]);
      assert ds[..i] == ds[..i - 1] + [ds[i - 1]];
    }
  }

  /** Everything seen so far is within one of the package being expanded. */
  lemma SeenWithinOne<Id(!new)>(s: Bfs<Id>, done: set<Id>, lo: nat)
    requires QueueOk(s, done) && LayersOk(s, done, lo)
    ensures forall x :: x in s.dist ==> s.dist[x] <= lo + 1
  {
  }

  /** Popping the head and looking at all its dependencies keeps the invariant. */
  lemma ExpandKeeps<Id(!new)>(g: map<Id, seq<Id>>, root: Id, s: Bfs<Id>, done: set<Id>, lo: nat)
    requires Inv(g, root, s, done, lo) && s.queue != [] && s.queue[0] in s.dist
    ensures var cur := s.queue[0];
            var ds := Deps(g, cur);
            var t := RelaxFirst(s.(queue := s.queue[1..]), cur, ds, |ds|);
            t.dist[cur] == s.dist[cur] && Inv(g, root, t, done + {cur}, s.dist[cur])
  {
    PopHead(g, root, s, done, lo);
    var cur, popped := s.queue[0], s.(queue := s.queue[1..]);
    var ds, d := Deps(g, cur), s.dist[cur];
    RelaxFirstKeeps(popped, cur, ds, |ds|, cur);
    RelaxFirstParents(g, root, popped, cur, |ds|);
    RelaxFirstQueue(popped, done + {cur}, cur, ds, |ds|);
    RelaxFirstLayers(popped, done + {cur}, cur, ds, |ds|, d);
    SeenWithinOne(popped, done + {cur}, d);
    ExpandClosed(g, popped, done, cur);
  }

  lemma ExpandClosed<Id(!new)>(g: map<Id, seq<Id>>, popped: Bfs<Id>, done: set<Id>, cur: Id)
    requires ClosedOk(g, popped, done) && cur in popped.dist && popped.parent.Keys == popped.dist.Keys
    requires forall x :: x in popped.dist ==> popped.dist[x] <= popped.dist[cur] + 1
    ensures ClosedOk(g, RelaxFirst(popped, cur, Deps(g, cur), |Deps(g, cur)|), done + {cur})
  {
    var ds := Deps(g, cur);
    RelaxFirstKeeps(popped, cur, ds, |ds|, cur);
    RelaxFirstClosed(g, popped, done, cur, ds, |ds|);
    RelaxFirstSeen(popped, cur, ds, |ds|);
    assert ds[..|ds|] == ds;
  }

  /** The inner loop: queue every dependency not seen before, with `cur` as its parent. */
  method Expand<Id(==)>(g: map<Id, seq<Id>>, parent: map<Id, Id>, ghost dist: map<Id, nat>, queue: seq<Id>, cur: Id)
    returns (parent': map<Id, Id>, ghost dist': map<Id, nat>, queue': seq<Id>)
    requires cur in dist
    ensures var ds := Deps(g, cur); Bfs(parent', dist', queue') == RelaxFirst(Bfs(parent, dist, queue), cur, ds, |ds|)
  {
    var ds := Deps(g, cur);
    parent', queue', dist' := parent, queue, dist;
    var i := 0;
    while i < |ds|
      invariant 0 <= i <= |ds| && cur in dist'
      invariant Bfs(parent', dist', queue') == RelaxFirst(Bfs(parent, dist, queue), cur, ds, i)
    {
      var dep := ds[i];
      if dep !in parent' {
        parent', dist', queue' := parent'[dep := cur], dist'[dep := dist'[cur] + 1], queue' + [dep];
      }
      i := i + 1;
    }
  }

  /** `chain` is the names of `ids`, a package without a name standing for itself. */
  predicate AreNames<Id(==)>(names: map<Id, Id>, ids: seq<Id>, chain: seq<Id>) {
    && |chain| == |ids|
    && forall i :: 0 <= i < |ids| ==> chain[i] == if ids[i] in names then names[ids[i]] else ids[i]
  }

  lemma PrependPath<Id>(g: map<Id, seq<Id>>, x: Id, p: seq<Id>)
    requires IsPath(g, p) && p[0] in Deps(g, x)
    ensures IsPath(g, [x] + p)
  {
    var q := [x] + p;
    forall i | 0 <= i < |q| - 1 ensures q[i + 1] in Deps(g, q[i]) {
      if i > 0 { assert q[i] == p[i - 1] && q[i + 1] == p[i - 1 + 1]; }
    }
  }

  /** Following parents from `cur` reaches the root, and gives a path of `cur`'s distance.  The source builds
      the chain from the far end and reverses it. */
  method Chain<Id(==,!new)>(ghost g: map<Id, seq<Id>>, names: map<Id, Id>, root: Id, parent: map<Id, Id>,
                            ghost dist: map<Id, nat>, cur: Id)
    returns (chain: seq<Id>, ghost ids: seq<Id>)
    requires ParentsOk(g, root, Bfs(parent, dist, [])) && cur in dist
    ensures IsPath(g, ids) && ids[0] == root && ids[|ids| - 1] == cur && |ids| == dist[cur] + 1
    ensures AreNames(names, ids, chain)
  {
    chain := [NameOf(names, cur)];
    ids := [cur];
    var at := cur;
    while at != root
      invariant at in dist && IsPath(g, ids) && ids[0] == at && ids[|ids| - 1] == cur
      invariant |ids| + dist[at] == dist[cur] + 1
      invariant AreNames(names, ids, chain)
      decreases dist[at]
    {
      at := parent[at];
      chain := [NameOf(names, at)] + chain;
      PrependPath(g, at, ids);
      ids := [at] + ids;
    }
  }

  ghost predicate IsTarget<Id>(names: map<Id, Id>, stdOnly: set<Id>, x: Id) {
    (if x in names then names[x] else x) in stdOnly
  }

  ghost predicate NoTarget<Id>(names: map<Id, Id>, stdOnly: set<Id>, done: set<Id>) {
    forall x :: x in done ==> !IsTarget(names, stdOnly, x)
  }

  /** A chain from the root to a std-only package. */
  ghost predicate IsViolation<Id>(g: map<Id, seq<Id>>, names: map<Id, Id>, stdOnly: set<Id>, root: Id, p: seq<Id>) {
    IsPath(g, p) && p[0] == root && IsTarget(names, stdOnly, p[|p| - 1])
  }

  /** Everything an edge leads to, plus the root. */
  ghost function AllIds<Id(!new)>(g: map<Id, seq<Id>>, root: Id): set<Id> {
    {root} + set x, i | x in g && 0 <= i < |g[x]| :: g[x][i]
  }

  lemma {:induction false} RelaxFirstGrows<Id(!new)>(g: map<Id, seq<Id>>, root: Id, s: Bfs<Id>, cur: Id,
                           all: set<Id>, i: nat)
    requires cur in s.dist && i <= |Deps(g, cur)| && all == AllIds(g, root) && s.parent.Keys <= all
    ensures RelaxFirst(s, cur, Deps(g, cur), i).parent.Keys <= all
  {
    if i > 0 {
      RelaxFirstGrows(g, root, s, cur, all, i - 1);
      assert Deps(g, cur)[i - 1] in all;
    }
  }

  /** The head of the queue is std-only: the chain to it is reported, and none is shorter. */
  method Report<Id(==,!new)>(ghost g: map<Id, seq<Id>>, names: map<Id, Id>, ghost stdOnly: set<Id>, root: Id,
                             parent: map<Id, Id>, ghost s: Bfs<Id>, ghost done: set<Id>, ghost lo: nat, cur: Id)
    returns (chain: seq<Id>, ghost ids: seq<Id>)
    requires Inv(g, root, s, done, lo) && s.queue != [] && s.queue[0] == cur && s.parent == parent
    requires NoTarget(names, stdOnly, done) && IsTarget(names, stdOnly, cur)
    ensures IsViolation(g, names, stdOnly, root, ids) && AreNames(names, ids, chain)
    ensures forall p :: IsViolation(g, names, stdOnly, root, p) ==> |ids| <= |p|
  {
    chain, ids := Chain(g, names, root, parent, s.dist, cur);
    NoShorter(g, names, stdOnly, root, s, done, lo, ids);
  }

  /** The search of `check_metadata` for one package: it ends, it reports a chain exactly when some std-only
      package is reachable along normal edges, the chain is a real path, and no path is shorter. */
  method ShortestChain<Id(==,!new)>(g: map<Id, seq<Id>>, names: map<Id, Id>, stdOnly: set<Id>, root: Id)
    returns (r: Option<seq<Id>>, ghost ids: seq<Id>)
    ensures r.None? ==> forall p :: !IsViolation(g, names, stdOnly, root, p)
    ensures r.Some? ==> IsViolation(g, names, stdOnly, root, ids) && AreNames(names, ids, r.value)
    ensures r.Some? ==> forall p :: IsViolation(g, names, stdOnly, root, p) ==> |ids| <= |p|
  {
    var parent := map[root := root];
    var queue := [root];
    ghost var dist: map<Id, nat> := map[root := 0];
    ghost var done: set<Id>, lo := {}, 0;
    ghost var all := AllIds(g, root);
    ids := [];
    while queue != []
      invariant Inv(g, root, Bfs(parent, dist, queue), done, lo)
      invariant NoTarget(names, stdOnly, done)
      invariant parent.Keys <= all
      decreases all - done
    {
      ghost var s := Bfs(parent, dist, queue);
      PopHead(g, root, s, done, lo);
      var cur := queue[0];
      queue := queue[1..];
      if NameOf(names, cur) in stdOnly {
        var chain;
        chain, ids := Report(g, names, stdOnly, root, parent, s, done, lo, cur);
        return Some(chain), ids;
      }
      ExpandKeeps(g, root, s, done, lo);
      RelaxFirstGrows(g, root, Bfs(parent, dist, queue), cur, all, |Deps(g, cur)|);
      lo := dist[cur];
      parent, dist, queue := Expand(g, parent, dist, queue, cur);
      done := done + {cur};
    }
    NothingLeft(g, names, stdOnly, root, Bfs(parent, dist, queue), done, lo);
    r := None;
  }

  lemma NoShorter<Id(!new)>(g: map<Id, seq<Id>>, names: map<Id, Id>, stdOnly: set<Id>, root: Id, s: Bfs<Id>,
                            done: set<Id>, lo: nat, ids: seq<Id>)
    requires Inv(g, root, s, done, lo) && s.queue != [] && |ids| == s.dist[s.queue[0]] + 1
    requires NoTarget(names, stdOnly, done)
    ensures forall p :: IsViolation(g, names, stdOnly, root, p) ==> |ids| <= |p|
  {
    forall p | IsViolation(g, names, stdOnly, root, p) ensures |ids| <= |p| {
      LeavesAtHead(g, root, s, done, lo, p, 0);
    }
  }

  lemma NothingLeft<Id(!new)>(g: map<Id, seq<Id>>, names: map<Id, Id>, stdOnly: set<Id>, root: Id, s: Bfs<Id>,
                              done: set<Id>, lo: nat)
    requires Inv(g, root, s, done, lo) && s.queue == []
    requires NoTarget(names, stdOnly, done)
    ensures forall p :: !IsViolation(g, names, stdOnly, root, p)
  {
    forall p ensures !IsViolation(g, names, stdOnly, root, p) {
      if IsViolation(g, names, stdOnly, root, p) { LeavesAtHead(g, root, s, done, lo, p, 0); }
    }
  }
}
