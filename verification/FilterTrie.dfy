/** The filter's prefix tables against the routing table: what `lookup` and `lookup_all` give on the trie is what
    `FilterTables` and `DstLookup` take from their maps. */
module FilterTrie {
  import opened Wrappers
  import opened BaseIndex
  import opened Trie
  import opened TrieMatches
  import opened Nets
  import opened Rules
  import FT = FilterTables
  import DL = DstLookup
  import Table
  import TrieLookup

  type Ids = map<Route, set<nat>>

  /** The part of a table that is of one address family. */
  ghost function Family(m: Ids, n: nat): map<Key, set<nat>> { map r | r in m && r.0 == n :: r.1 := m[r] }

  lemma FamilyHas(m: Ids, n: nat, k: Key)
    ensures k in Family(m, n) <==> (n, k) in m
    ensures k in Family(m, n) ==> Family(m, n)[k] == m[(n, k)]
  {
  }

  /** A match of the trie is an entry of the map that contains the address. */
  lemma MatchIsEntry(root: Node<set<nat>>, m: Ids, a: seq<int>, k: Key, v: set<nat>)
    requires IsAddr(a) && Table.Represents(root, |a|, Family(m, |a|)) && ValidKey(k, |a|)
    ensures (k, v) in TrieMatches.Matches(root, Key(a, 1), 0) <==>
            (|a|, k) in m && RouteCovers((|a|, k), a) && m[(|a|, k)] == v
  {
    MatchesAre(root, |a|, [], Key(a, 1), k, v);
    FamilyHas(m, |a|, k);
  }

  lemma EntryIsFound(root: Node<set<nat>>, m: Ids, a: seq<int>, len: nat)
    requires IsAddr(a) && Table.Represents(root, |a|, Family(m, |a|)) && len <= 8 * |a| && FT.RouteAt(a, len) in m
    ensures var k := FT.RouteAt(a, len).1;
            && ValidKey(k, |a|) && CoversKey(k, Key(a, 1)) && Bits(k) == len
            && Find(root, k, 0) == Some(m[FT.RouteAt(a, len)])
  {
    FT.RouteAtCovers(a, len);
    FamilyHas(m, |a|, FT.RouteAt(a, len).1);
  }

  lemma RouteIsAt(root: Node<set<nat>>, m: Ids, a: seq<int>, k: Key)
    requires IsAddr(a) && Table.Represents(root, |a|, Family(m, |a|))
    requires ValidKey(k, |a|) && CoversKey(k, Key(a, 1)) && Find(root, k, 0).Some?
    ensures Bits(k) <= 8 * |a| && FT.RouteAt(a, Bits(k)) == (|a|, k) && (|a|, k) in m
    ensures Find(root, k, 0) == Some(m[(|a|, k)])
  {
    KeyBits(k, |a|);
    LevelIndex(k.idx);
    FT.CoveringIsRouteAt((|a|, k), a, Bits(k));
    FamilyHas(m, |a|, k);
  }

  /** The longest route that covers the address is the one at the longest stored length. */
  lemma LongestIsAt(root: Node<set<nat>>, m: Ids, a: seq<int>, k: Key)
    requires IsAddr(a) && Table.Represents(root, |a|, Family(m, |a|))
    requires TrieLookup.IsLongestRoute(root, |a|, Key(a, 1), k)
    ensures FT.LongestIds(m, a) == Find(root, k, 0)
  {
    var l := FT.LongestLen(m, a, 8 * |a|);
    RouteIsAt(root, m, a, k);
    EntryIsFound(root, m, a, l);
  }

  lemma NoneIsAt(root: Node<set<nat>>, m: Ids, a: seq<int>)
    requires IsAddr(a) && Table.Represents(root, |a|, Family(m, |a|))
    requires TrieLookup.IsUncovered(root, |a|, Key(a, 1))
    ensures FT.LongestIds(m, a) == None
  {
    var l := FT.LongestLen(m, a, 8 * |a|);
    if l >= 0 {
      EntryIsFound(root, m, a, l);
      assert false;
    }
  }

  /** The value of the table's longest match is what the filter's source lookup takes. */
  lemma LookupIsLongestIds(root: Node<set<nat>>, m: Ids, a: seq<int>)
    requires IsAddr(a) && Table.Represents(root, |a|, Family(m, |a|))
    ensures var found := TrieMatches.Matches(root, Key(a, 1), 0);
            FT.LongestIds(m, a) == if found == [] then None else Some(found[0].1)
  {
    var found := TrieMatches.Matches(root, Key(a, 1), 0);
    TrieLookup.FirstIsLongest(root, |a|, Key(a, 1));
    if found != [] {
      LongestIsAt(root, m, a, found[0].0);
    } else {
      NoneIsAt(root, m, a);
    }
  }

  /** The union over all the table's matches is what the filter's destination lookup takes. */
  lemma LookupAllIsCovering(root: Node<set<nat>>, m: Ids, a: seq<int>, id: nat)
    requires IsAddr(a) && Table.Represents(root, |a|, Family(m, |a|))
    ensures var found := TrieMatches.Matches(root, Key(a, 1), 0);
            id in DL.Covering(m, a) <==> exists i :: 0 <= i < |found| && id in found[i].1
  {
    var found := TrieMatches.Matches(root, Key(a, 1), 0);
    if id in DL.Covering(m, a) {
      var r :| r in m && RouteCovers(r, a) && id in m[r];
      FamilyHas(m, |a|, r.1);
      MatchIsEntry(root, m, a, r.1, m[r]);
    }
    if i :| 0 <= i < |found| && id in found[i].1 {
      TrieLookup.MatchKeysBelow(root, |a|, [], Key(a, 1), i);
      assert found[i] in found;
      MatchIsEntry(root, m, a, found[i].0, found[i].1);
    }
  }
}
