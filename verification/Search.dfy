/** `find_subslice` (src/tsnet.rs): the first place where one byte string occurs in another. */
module Search {
  import opened Wrappers
  import opened Bytes

  predicate At(hay: seq<Byte>, needle: seq<Byte>, j: int) {
    0 <= j && j + |needle| <= |hay| && hay[j..j + |needle|] == needle
  }

  /** The source's windows, looked at from the left. */
  function Find(hay: seq<Byte>, needle: seq<Byte>): Option<nat> {
    if needle == [] || |hay| < |needle| then None
    else if hay[..|needle|] == needle then Some(0)
    else
      var r := Find(hay[1..], needle);
      if r.Some? then Some(r.value + 1) else None
  }

  ghost predicate IsFirst(hay: seq<Byte>, needle: seq<Byte>, r: Option<nat>) {
    if r.None? then forall j :: !At(hay, needle, j)
    else At(hay, needle, r.value) && forall j :: j < r.value ==> !At(hay, needle, j)
  }

  lemma AtShift(hay: seq<Byte>, needle: seq<Byte>, j: int)
    requires hay != [] && j >= 0
    ensures At(hay, needle, j + 1) <==> At(hay[1..], needle, j)
  {
    if j + 1 + |needle| <= |hay| { assert hay[1..][j..j + |needle|] == hay[j + 1..j + 1 + |needle|]; }
  }

  lemma {:induction false} FindIsFirst(hay: seq<Byte>, needle: seq<Byte>)
    requires needle != []
    ensures IsFirst(hay, needle, Find(hay, needle))
  {
    if |hay| >= |needle| {
      assert hay[..|needle|] == hay[0..0 + |needle|];
      if hay[..|needle|] != needle {
        FindIsFirst(hay[1..], needle);
        FirstAfterShift(hay, needle, Find(hay[1..], needle));
      }
    }
  }

  lemma FirstAfterShift(hay: seq<Byte>, needle: seq<Byte>, r: Option<nat>)
    requires hay != [] && !At(hay, needle, 0) && IsFirst(hay[1..], needle, r)
    ensures IsFirst(hay, needle, if r.Some? then Some(r.value + 1) else None)
  {
    forall j | j > 0 ensures At(hay, needle, j) <==> At(hay[1..], needle, j - 1) { AtShift(hay, needle, j - 1); }
  }

  lemma FirstIsFind(hay: seq<Byte>, needle: seq<Byte>, r: Option<nat>)
    requires needle != [] && IsFirst(hay, needle, r)
    ensures Find(hay, needle) == r
  {
    FindIsFirst(hay, needle);
  }

  /** In a prefix, the first occurrence is the same one, or is not there yet. */
  lemma FindInPrefix(hay: seq<Byte>, needle: seq<Byte>, n: nat)
    requires needle != [] && n <= |hay|
    ensures var r := Find(hay, needle);
            Find(hay[..n], needle) == if r.Some? && r.value + |needle| <= n then r else None
  {
    var r := Find(hay, needle);
    FindIsFirst(hay, needle);
    forall j | j + |needle| <= n ensures At(hay[..n], needle, j) <==> At(hay, needle, j) {
      if j >= 0 { assert hay[..n][j..j + |needle|] == hay[j..j + |needle|]; }
    }
    FirstIsFind(hay[..n], needle, if r.Some? && r.value + |needle| <= n then r else None);
  }

  /** No occurrence starts before `k`. */
  predicate Misses(hay: seq<Byte>, needle: seq<Byte>, k: nat) {
    k == 0 || (Misses(hay, needle, k - 1) && !At(hay, needle, k - 1))
  }

  lemma {:induction false} MissesAll(hay: seq<Byte>, needle: seq<Byte>, k: nat, j: nat)
    requires Misses(hay, needle, k) && j < k
    ensures !At(hay, needle, j)
  {
    if j < k - 1 { MissesAll(hay, needle, k - 1, j); }
  }

  lemma AtAfter(hay: seq<Byte>, needle: seq<Byte>, k: nat, j: int)
    requires k <= |hay| && j >= k
    ensures At(hay, needle, j) <==> At(hay[k..], needle, j - k)
  {
    if j + |needle| <= |hay| { assert hay[k..][j - k..j - k + |needle|] == hay[j..j + |needle|]; }
  }

  /** A position in what follows the first `k` bytes. */
  function Later(r: Option<nat>, k: nat): Option<nat> { if r.Some? then Some(r.value + k) else None }

  lemma FirstAfter(hay: seq<Byte>, needle: seq<Byte>, k: nat, r: Option<nat>)
    requires k <= |hay| && Misses(hay, needle, k) && IsFirst(hay[k..], needle, r)
    ensures IsFirst(hay, needle, Later(r, k))
  {
    forall j | 0 <= j < k ensures !At(hay, needle, j) { MissesAll(hay, needle, k, j); }
    forall j | j >= k ensures At(hay, needle, j) <==> At(hay[k..], needle, j - k) { AtAfter(hay, needle, k, j); }
  }

  /** Nothing is found in a stretch where nothing starts. */
  lemma FirstOfTail(hay: seq<Byte>, needle: seq<Byte>, k: nat)
    requires needle != [] && k <= |hay| && Misses(hay, needle, k)
    ensures IsFirst(hay, needle, Later(Find(hay[k..], needle), k))
  {
    FindIsFirst(hay[k..], needle);
    FirstAfter(hay, needle, k, Find(hay[k..], needle));
  }

  lemma FindAfter(hay: seq<Byte>, needle: seq<Byte>, k: nat)
    requires needle != [] && k <= |hay| && Misses(hay, needle, k)
    ensures Find(hay, needle) == Later(Find(hay[k..], needle), k)
  {
    FirstOfTail(hay, needle, k);
    FirstIsFind(hay, needle, Later(Find(hay[k..], needle), k));
  }

  lemma FindPast(a: seq<Byte>, t: seq<Byte>, needle: seq<Byte>)
    requires needle != [] && Misses(a + t, needle, |a|)
    ensures var r := Find(t, needle);
            Find(a + t, needle) == if r.Some? then Some(r.value + |a|) else None
  {
    FindAfter(a + t, needle, |a|);
    assert (a + t)[|a|..] == t;
  }
}
