/** An optional value. */
module Wrappers {
  datatype Option<+T> = None | Some(value: T)

  function MapGet<K, V>(m: map<K, V>, k: K): Option<V> {
    if k in m then Some(m[k]) else None
  }

  /** A set without members has cardinality zero, and conversely. */
  lemma EmptyOrMember(s: set<int>)
    ensures |s| == 0 <==> forall x :: x !in s
  {
    if forall x :: x !in s { assert s == {}; }
  }
}
