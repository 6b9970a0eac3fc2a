/** An index from keys to sets of ids: what the packet filter's tables of bitsets stand for. */
module IdIndex {
  import opened Wrappers

  function With(x: Option<set<nat>>, id: nat): Option<set<nat>> {
    if x.Some? then Some(x.value + {id}) else Some({id})
  }

  function Without(x: Option<set<nat>>, id: nat): Option<set<nat>> {
    if x.None? || x.value - {id} == {} then None else Some(x.value - {id})
  }

  function SetEntry<K, V>(m: map<K, V>, k: K, v: Option<V>): map<K, V> {
    if v.Some? then m[k := v.value] else m - {k}
  }

  /** `id` is stored under `k`. */
  predicate In<K>(m: map<K, set<nat>>, k: K, id: nat) { k in m && id in m[k] }

  /** A key whose last id is gone is gone. */
  ghost predicate NoEmpty<K>(m: map<K, set<nat>>) { forall k :: k in m ==> m[k] != {} }

  function MarkAll<K>(m: map<K, set<nat>>, ks: seq<K>, id: nat): map<K, set<nat>> {
    if ks == [] then m else
    var before := MarkAll(m, ks[..|ks| - 1], id);
    SetEntry(before, ks[|ks| - 1], With(MapGet(before, ks[|ks| - 1]), id))
  }

  function UnmarkAll<K>(m: map<K, set<nat>>, ks: seq<K>, id: nat): map<K, set<nat>> {
    if ks == [] then m else
    var before := UnmarkAll(m, ks[..|ks| - 1], id);
    SetEntry(before, ks[|ks| - 1], Without(MapGet(before, ks[|ks| - 1]), id))
  }

  lemma MarkOne<K(!new)>(m: map<K, set<nat>>, k: K, id: nat, q: K, j: nat)
    ensures var m' := SetEntry(m, k, With(MapGet(m, k), id));
            In(m', q, j) <==> In(m, q, j) || (j == id && q == k)
  {
  }

  lemma UnmarkOne<K(!new)>(m: map<K, set<nat>>, k: K, id: nat, q: K, j: nat)
    ensures var m' := SetEntry(m, k, Without(MapGet(m, k), id));
            In(m', q, j) <==> In(m, q, j) && !(j == id && q == k)
  {
    if k in m && j in m[k] && j != id { assert j in m[k] - {id}; }
  }

  lemma {:induction false} MarkAllIs<K(!new)>(m: map<K, set<nat>>, ks: seq<K>, id: nat, q: K, j: nat)
    ensures In(MarkAll(m, ks, id), q, j) <==> In(m, q, j) || (j == id && q in ks)
  {
    if ks != [] {
      var rest := ks[..|ks| - 1];
      MarkAllIs(m, rest, id, q, j);
      MarkOne(MarkAll(m, rest, id), ks[|ks| - 1], id, q, j);
      assert q in ks <==> q in rest || q == ks[|ks| - 1];
    }
  }

  /** Marking again changes nothing. */
  lemma {:induction false} MarkAllAgain<K(!new)>(m: map<K, set<nat>>, ks: seq<K>, id: nat)
    requires forall k :: k in ks ==> In(m, k, id)
    ensures MarkAll(m, ks, id) == m
  {
    if ks != [] {
      var k := ks[|ks| - 1];
      MarkAllAgain(m, ks[..|ks| - 1], id);
      assert k in ks && In(m, k, id);
      assert m[k] + {id} == m[k];
      assert m[k := m[k]] == m;
    }
  }

  lemma {:induction false} UnmarkAllIs<K(!new)>(m: map<K, set<nat>>, ks: seq<K>, id: nat, q: K, j: nat)
    ensures In(UnmarkAll(m, ks, id), q, j) <==> In(m, q, j) && !(j == id && q in ks)
  {
    if ks != [] {
      var rest := ks[..|ks| - 1];
      UnmarkAllIs(m, rest, id, q, j);
      UnmarkOne(UnmarkAll(m, rest, id), ks[|ks| - 1], id, q, j);
      assert q in ks <==> q in rest || q == ks[|ks| - 1];
    }
  }

  lemma {:induction false} MarkAllKeeps<K(!new)>(m: map<K, set<nat>>, ks: seq<K>, id: nat)
    requires NoEmpty(m)
    ensures NoEmpty(MarkAll(m, ks, id))
  {
    if ks != [] {
      MarkAllKeeps(m, ks[..|ks| - 1], id);
      assert id in MarkAll(m, ks, id)[ks[|ks| - 1]];
    }
  }

  lemma {:induction false} UnmarkAllKeeps<K(!new)>(m: map<K, set<nat>>, ks: seq<K>, id: nat)
    requires NoEmpty(m)
    ensures NoEmpty(UnmarkAll(m, ks, id))
  {
    if ks != [] { UnmarkAllKeeps(m, ks[..|ks| - 1], id); }
  }

  /** The index stores each live id under exactly the keys of what it stands for. */
  ghost predicate Indexes<K(!new), X>(m: map<K, set<nat>>, live: map<nat, X>, keysOf: X -> seq<K>) {
    NoEmpty(m) && forall k, id :: In(m, k, id) <==> id in live && k in keysOf(live[id])
  }

  lemma Added<K(!new), X>(m: map<K, set<nat>>, live: map<nat, X>, keysOf: X -> seq<K>, id: nat, x: X)
    requires Indexes(m, live, keysOf) && (id in live ==> live[id] == x)
    ensures Indexes(MarkAll(m, keysOf(x), id), live[id := x], keysOf)
  {
    var m' := MarkAll(m, keysOf(x), id);
    var live' := live[id := x];
    forall k, j ensures In(m', k, j) <==> j in live' && k in keysOf(live'[j]) {
      MarkAllIs(m, keysOf(x), id, k, j);
    }
    MarkAllKeeps(m, keysOf(x), id);
  }

  lemma Taken<K(!new), X>(m: map<K, set<nat>>, live: map<nat, X>, keysOf: X -> seq<K>, id: nat)
    requires Indexes(m, live, keysOf) && id in live
    ensures Indexes(UnmarkAll(m, keysOf(live[id]), id), live - {id}, keysOf)
  {
    var ks := keysOf(live[id]);
    var m' := UnmarkAll(m, ks, id);
    var live' := live - {id};
    forall k, j ensures In(m', k, j) <==> j in live' && k in keysOf(live'[j]) {
      UnmarkAllIs(m, ks, id, k, j);
    }
    UnmarkAllKeeps(m, ks, id);
  }

  /** The loop that sets a bit under each key. */
  method MarkEach<K(==)>(m: map<K, set<nat>>, ks: seq<K>, id: nat) returns (t: map<K, set<nat>>)
    ensures t == MarkAll(m, ks, id)
  {
    t := m;
    var i := 0;
    while i < |ks|
      invariant 0 <= i <= |ks| && t == MarkAll(m, ks[..i], id)
    {
      assert ks[..i + 1][..i] == ks[..i];
      t := if ks[i] in t then t[ks[i] := t[ks[i]] + {id}] else t[ks[i] := {id}];
      i := i + 1;
    }
    assert ks[..i] == ks;
  }

  /** The loop that clears a bit under each key, and drops a key with its last bit. */
  method UnmarkEach<K(==)>(m: map<K, set<nat>>, ks: seq<K>, id: nat) returns (t: map<K, set<nat>>)
    ensures t == UnmarkAll(m, ks, id)
  {
    t := m;
    var i := 0;
    while i < |ks|
      invariant 0 <= i <= |ks| && t == UnmarkAll(m, ks[..i], id)
    {
      assert ks[..i + 1][..i] == ks[..i];
      if ks[i] in t {
        t := if t[ks[i]] - {id} == {} then t - {ks[i]} else t[ks[i] := t[ks[i]] - {id}];
      } else {
        assert t - {ks[i]} == t;
      }
      i := i + 1;
    }
    assert ks[..i] == ks;
  }
}
