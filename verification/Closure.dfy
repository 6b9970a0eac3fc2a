/** The reachability closure of the port-mapper check (`checks`, `portmapper_lan_only`). */
module Closure {
  import opened DepGraph

  datatype Kind = Normal | Build | Dev

  datatype Edge<Id> = Edge(dep: Id, kinds: seq<Kind>)

  predicate Allows(kinds: set<Kind>, e: Edge) { exists i | 0 <= i < |e.kinds| :: e.kinds[i] in kinds }

  /** The targets of the allowed edges of a list. */
  function Targets<Id>(es: seq<Edge<Id>>, kinds: set<Kind>): seq<Id> {
    if es == [] then []
    else (if Allows(kinds, es[0]) then [es[0].dep] else []) + Targets(es[1..], kinds)
  }

  /** The graph of the allowed edges. */
  function Restrict<Id>(edges: map<Id, seq<Edge<Id>>>, kinds: set<Kind>): map<Id, seq<Id>> {
    map x | x in edges :: Targets(edges[x], kinds)
  }

  /** There is an edge from `x` to `y` one of whose kinds is wanted. */
  predicate HasEdge<Id(==)>(edges: map<Id, seq<Edge<Id>>>, kinds: set<Kind>, x: Id, y: Id) {
    x in edges && exists i, j :: 0 <= i < |edges[x]| && 0 <= j < |edges[x][i].kinds|
                                 && edges[x][i].dep == y && edges[x][i].kinds[j] in kinds
  }

  /** A non-empty walk from `a` to `b` over edges one of whose kinds is wanted. */
  ghost predicate Leads<Id(!new)>(edges: map<Id, seq<Edge<Id>>>, kinds: set<Kind>, a: Id, b: Id) {
    exists p: seq<Id> :: IsWalk(edges, kinds, p) && |p| >= 2 && p[0] == a && p[|p| - 1] == b
  }

  ghost predicate IsWalk<Id(!new)>(edges: map<Id, seq<Edge<Id>>>, kinds: set<Kind>, p: seq<Id>) {
    p != [] && forall k :: 0 <= k < |p| - 1 ==> HasEdge(edges, kinds, p[k], p[k + 1])
  }

  lemma {:induction false} TargetsAre<Id>(es: seq<Edge<Id>>, kinds: set<Kind>, y: Id)
    ensures y in Targets(es, kinds) <==> exists i :: 0 <= i < |es| && es[i].dep == y && Allows(kinds, es[i])
  {
    if es != [] {
      TargetsAre(es[1..], kinds, y);
      if i :| 0 <= i < |es[1..]| && es[1..][i].dep == y && Allows(kinds, es[1..][i]) { assert es[i + 1] == es[1..][i]; }
      if i :| 0 <= i < |es| && es[i].dep == y && Allows(kinds, es[i]) { assert i > 0 ==> es[1..][i - 1] == es[i]; }
    }
  }

  lemma DepIsEdge<Id>(edges: map<Id, seq<Edge<Id>>>, kinds: set<Kind>, x: Id, y: Id)
    ensures y in Deps(Restrict(edges, kinds), x) <==> HasEdge(edges, kinds, x, y)
  {
    DepsAre(Restrict(edges, kinds), x, y);
    if x in edges { TargetsAre(edges[x], kinds, y); }
  }

  /** The paths of the restricted graph are the walks over the wanted edges. */
  lemma ReachesIsLeads<Id(!new)>(edges: map<Id, seq<Edge<Id>>>, kinds: set<Kind>, a: Id, b: Id)
    ensures Reaches(Restrict(edges, kinds), a, b) <==> Leads(edges, kinds, a, b)
  {
    forall p: seq<Id> ensures IsPath(Restrict(edges, kinds), p) <==> IsWalk(edges, kinds, p) {
      PathIsWalk(edges, kinds, p);
    }
  }

  lemma PathIsWalk<Id(!new)>(edges: map<Id, seq<Edge<Id>>>, kinds: set<Kind>, p: seq<Id>)
    ensures IsPath(Restrict(edges, kinds), p) <==> IsWalk(edges, kinds, p)
  {
    forall k | 0 <= k < |p| - 1
      ensures p[k + 1] in Deps(Restrict(edges, kinds), p[k]) <==> HasEdge(edges, kinds, p[k], p[k + 1])
    {
      DepIsEdge(edges, kinds, p[k], p[k + 1]);
    }
  }

  /** A non-empty walk from `a` to `b`. */
  ghost predicate Reaches<Id(!new)>(g: map<Id, seq<Id>>, a: Id, b: Id) {
    exists p: seq<Id> :: IsPath(g, p) && |p| >= 2 && p[0] == a && p[|p| - 1] == b
  }

  lemma ReachesStep<Id(!new)>(g: map<Id, seq<Id>>, a: Id, b: Id, c: Id)
    requires (a == b || Reaches(g, a, b)) && c in Deps(g, b)
    ensures Reaches(g, a, c)
  {
    if Reaches(g, a, b) {
      var p :| IsPath(g, p) && |p| >= 2 && p[0] == a && p[|p| - 1] == b;
      var q := p + [c];
      assert forall i :: 0 <= i < |p| - 1 ==> q[i + 1] in Deps(g, q[i]);
      assert IsPath(g, q) && |q| >= 2 && q[0] == a && q[|q| - 1] == c;
    } else {
      assert IsPath(g, [a, c]);
    }
  }

  /** A set that holds the dependencies of `a` and of each of its own members holds all `a` reaches. */
  lemma {:induction false} ClosedHoldsPath<Id(!new)>(g: map<Id, seq<Id>>, a: Id, s: set<Id>, p: seq<Id>, k: nat)
    requires forall x, y :: (x == a || x in s) && y in Deps(g, x) ==> y in s
    requires IsPath(g, p) && p[0] == a && 1 <= k < |p|
    ensures p[k] in s
  {
    if k > 1 { ClosedHoldsPath(g, a, s, p, k - 1); }
    assert p[k - 1 + 1] in Deps(g, p[k - 1]);
  }

  /** The loop's state: what is seen is reachable, what is stacked is seen (or the start), and what is not
      stacked has had its dependencies seen. */
  ghost predicate Inv<Id(!new)>(g: map<Id, seq<Id>>, a: Id, seen: set<Id>, stack: seq<Id>) {
    && (forall x :: x in seen ==> Reaches(g, a, x))
    && (forall x :: x in stack ==> x == a || x in seen)
    && (forall x, y :: (x == a || x in seen) && x !in stack && y in Deps(g, x) ==> y in seen)
  }

  /** While the dependencies of `id` are looked at, those looked at so far are seen. */
  ghost predicate Expanding<Id(!new)>(g: map<Id, seq<Id>>, a: Id, seen: set<Id>, stack: seq<Id>, id: Id,
                                      looked: seq<Id>) {
    && (id == a || id in seen)
    && (forall x :: x in seen ==> Reaches(g, a, x))
    && (forall x :: x in stack ==> x == a || x in seen)
    && (forall x, y :: (x == a || x in seen) && x !in stack && x != id && y in Deps(g, x) ==> y in seen)
    && (forall y :: y in looked ==> y in seen)
  }

  lemma Pop<Id(!new)>(g: map<Id, seq<Id>>, a: Id, seen: set<Id>, stack: seq<Id>)
    requires Inv(g, a, seen, stack) && stack != []
    ensures Expanding(g, a, seen, stack[..|stack| - 1], stack[|stack| - 1], [])
  {
    var id, rest := stack[|stack| - 1], stack[..|stack| - 1];
    assert forall x :: x in stack <==> x in rest || x == id;
  }

  lemma Push<Id(!new)>(g: map<Id, seq<Id>>, a: Id, seen: set<Id>, stack: seq<Id>, id: Id, looked: seq<Id>, dep: Id)
    requires Expanding(g, a, seen, stack, id, looked) && dep in Deps(g, id)
    ensures Expanding(g, a, seen + {dep}, if dep in seen then stack else stack + [dep], id, looked + [dep])
  {
    ReachesStep(g, a, id, dep);
    var stack' := if dep in seen then stack else stack + [dep];
    assert forall x :: x in stack' <==> x in stack || (x == dep && dep !in seen);
  }

  lemma Done<Id(!new)>(g: map<Id, seq<Id>>, a: Id, seen: set<Id>, stack: seq<Id>, id: Id)
    requires Expanding(g, a, seen, stack, id, Deps(g, id))
    ensures Inv(g, a, seen, stack)
  {
  }

  lemma Complete<Id(!new)>(g: map<Id, seq<Id>>, a: Id, seen: set<Id>)
    requires Inv(g, a, seen, [])
    ensures forall x :: x in seen <==> Reaches(g, a, x)
  {
    forall x | Reaches(g, a, x) ensures x in seen {
      var p :| IsPath(g, p) && |p| >= 2 && p[0] == a && p[|p| - 1] == x;
      ClosedHoldsPath(g, a, seen, p, |p| - 1);
    }
  }

  lemma {:induction false} TargetsGrow<Id>(es: seq<Edge<Id>>, kinds: set<Kind>, i: nat)
    requires i < |es|
    ensures Targets(es[..i + 1], kinds) == Targets(es[..i], kinds) + (if Allows(kinds, es[i]) then [es[i].dep] else [])
    decreases |es|
  {
    if i == 0 {
      assert es[..1] == [es[0]] && es[..0] == [];
    } else {
      TargetsGrow(es[1..], kinds, i - 1);
      assert es[..i + 1][1..] == es[1..][..i] && es[..i][1..] == es[1..][..i - 1];
    }
  }

  lemma {:induction false} TargetListed<Id>(es: seq<Edge<Id>>, kinds: set<Kind>, i: nat)
    requires i < |es| && Allows(kinds, es[i])
    ensures es[i].dep in Targets(es, kinds)
  {
    if i > 0 { TargetListed(es[1..], kinds, i - 1); }
  }

  ghost function AllTargets<Id(!new)>(edges: map<Id, seq<Edge<Id>>>): set<Id> {
    set x, i | x in edges && 0 <= i < |edges[x]| :: edges[x][i].dep
  }

  /** One allowed edge of the package being expanded. */
  lemma LookAt<Id(!new)>(edges: map<Id, seq<Edge<Id>>>, kinds: set<Kind>, start: Id, id: Id, seen: set<Id>,
                         stack: seq<Id>, i: nat)
    requires id in edges && i < |edges[id]| && Allows(kinds, edges[id][i])
    requires Expanding(Restrict(edges, kinds), start, seen, stack, id, Targets(edges[id][..i], kinds))
    ensures var dep := edges[id][i].dep;
            && Expanding(Restrict(edges, kinds), start, seen + {dep}, if dep in seen then stack else stack + [dep], id,
                         Targets(edges[id][..i + 1], kinds))
            && dep in AllTargets(edges)
  {
    var es := edges[id];
    TargetsGrow(es, kinds, i);
    TargetListed(es, kinds, i);
    Push(Restrict(edges, kinds), start, seen, stack, id, Targets(es[..i], kinds), es[i].dep);
  }

  /** The inner loop of `closure`. */
  method Expand<Id(==,!new)>(edges: map<Id, seq<Edge<Id>>>, kinds: set<Kind>, ghost start: Id, id: Id,
                             seen: set<Id>, stack: seq<Id>)
    returns (seen': set<Id>, stack': seq<Id>)
    requires Expanding(Restrict(edges, kinds), start, seen, stack, id, [])
    ensures Inv(Restrict(edges, kinds), start, seen', stack')
    ensures seen <= seen' <= seen + AllTargets(edges)
    ensures stack' == stack || seen < seen'
  {
    ghost var g := Restrict(edges, kinds);
    seen', stack' := seen, stack;
    var es := if id in edges then edges[id] else [];
    var i := 0;
    while i < |es|
      invariant 0 <= i <= |es|
      invariant Expanding(g, start, seen', stack', id, Targets(es[..i], kinds))
      invariant seen <= seen' <= seen + AllTargets(edges)
      invariant stack' == stack || seen < seen'
    {
      TargetsGrow(es, kinds, i);
      if Allows(kinds, es[i]) {
        LookAt(edges, kinds, start, id, seen', stack', i);
        if es[i].dep !in seen' { stack' := stack' + [es[i].dep]; }
        seen' := seen' + {es[i].dep};
      }
      i := i + 1;
    }
    assert es[..|es|] == es;
    Done(g, start, seen', stack', id);
  }

  /** `closure`: exactly the packages a non-empty walk of allowed edges leads to, the start included when it
      lies on a cycle. */
  method Closure<Id(==,!new)>(edges: map<Id, seq<Edge<Id>>>, start: Id, kinds: set<Kind>) returns (seen: set<Id>)
    ensures forall x :: x in seen <==> Leads(edges, kinds, start, x)
  {
    seen := {};
    var stack := [start];
    while stack != []
      invariant Inv(Restrict(edges, kinds), start, seen, stack)
      invariant seen <= AllTargets(edges)
      decreases AllTargets(edges) - seen, |stack|
    {
      Pop(Restrict(edges, kinds), start, seen, stack);
      var id := stack[|stack| - 1];
      seen, stack := Expand(edges, kinds, start, id, seen, stack[..|stack| - 1]);
    }
    Complete(Restrict(edges, kinds), start, seen);
    forall x ensures x in seen <==> Leads(edges, kinds, start, x) { ReachesIsLeads(edges, kinds, start, x); }
  }

  /** A walk whose first edge may be of any kind and whose other edges are normal or build edges. */
  ghost predicate PullsIn<Id(!new)>(edges: map<Id, seq<Edge<Id>>>, a: Id, b: Id) {
    exists i :: a in edges && 0 <= i < |edges[a]|
                && (edges[a][i].dep == b || Leads(edges, {Normal, Build}, edges[a][i].dep, b))
  }

  /** The second half of `graph_problems`: control is reported exactly when something control depends on, in
      any way, is or really pulls in the port mapper. */
  method ControlReaches<Id(==,!new)>(edges: map<Id, seq<Edge<Id>>>, control: Id, pm: Id) returns (reported: bool)
    ensures reported <==> PullsIn(edges, control, pm)
  {
    var reach: set<Id> := {};
    var es := if control in edges then edges[control] else [];
    var i := 0;
    while i < |es|
      invariant 0 <= i <= |es|
      invariant pm in reach <==>
        (exists j :: 0 <= j < i && (es[j].dep == pm || Leads(edges, {Normal, Build}, es[j].dep, pm)))
    {
      var below := Closure(edges, es[i].dep, {Normal, Build});
      reach := reach + {es[i].dep} + below;
      i := i + 1;
    }
    reported := pm in reach;
  }
}
