/** IP prefixes as the caller writes them, and the keys the trie uses (`iptrie::util`). */
module Nets {
  import opened BaseIndex
  import opened Trie
  import opened TrieMatches

  /** `ipnet::IpNet`: an address and a length; bits past the length need not be zero. */
  datatype Net = Net(addr: seq<int>, len: nat)

  predicate ValidAddr(a: seq<int>, n: nat) { |a| == n && forall j :: 0 <= j < n ==> 0 <= a[j] < 256 }

  predicate ValidNet(net: Net, n: nat) { ValidAddr(net.addr, n) && net.len <= 8 * n }

  /** `trunc`: zero every bit past the length. */
  function Trunc(net: Net, n: nat): (t: Net)
    requires ValidNet(net, n)
    ensures |t.addr| == n && t.len == net.len
  {
    Net(seq(n, j requires 0 <= j < n => TruncOctet(net.addr[j], net.len - 8 * j)), net.len)
  }

  /** One octet of which the first `bits` bits are kept. */
  function TruncOctet(o: int, bits: int): int {
    if bits >= 8 then o else if bits <= 0 then 0 else o - o % Pow2(8 - bits)
  }

  predicate IsTruncated(net: Net, n: nat)
    requires ValidNet(net, n)
  {
    Trunc(net, n) == net
  }

  /** `IpNet::contains`: the first `len` bits agree. */
  predicate NetContains(net: Net, a: seq<int>, n: nat)
    requires ValidNet(net, n) && ValidAddr(a, n)
  {
    forall j :: 0 <= j < n ==> TruncOctet(net.addr[j], net.len - 8 * j) == TruncOctet(a[j], net.len - 8 * j)
  }

  /** `stride_count_and_overflow`, then `from_prefix` on the octet that is cut. */
  function KeyOf(net: Net, n: nat): (k: Key)
    requires ValidNet(net, n)
    ensures ValidKey(k, n)
    ensures Bits(k) == net.len
  {
    var strides := net.len / 8;
    Key(net.addr[..strides], if strides == n then 1 else FromPrefix(net.addr[strides], net.len % 8))
  }

  /** The address of a key, as `prefix_from_path` and `fringe_prefix` rebuild it. */
  function AddrOf(k: Key, n: nat): (a: seq<int>)
    requires ValidKey(k, n)
    ensures ValidAddr(a, n)
  {
    var cut := Prefix(k.idx).0;
    seq(n, j requires 0 <= j < n => if j < |k.path| then k.path[j] else if j == |k.path| then cut else 0)
  }

  function NetOf(k: Key, n: nat): (net: Net)
    requires ValidKey(k, n)
    ensures ValidNet(net, n)
  {
    KeyBits(k, n);
    Net(AddrOf(k, n), Bits(k))
  }

  /** A key survives being written out as a prefix and read back. */
  lemma KeyOfNetOf(k: Key, n: nat)
    requires ValidKey(k, n)
    ensures KeyOf(NetOf(k, n), n) == k
  {
    LevelIndex(k.idx);
    var net := NetOf(k, n);
    assert net.len / 8 == |k.path| && net.len % 8 == Level(k.idx);
    assert net.addr[..|k.path|] == k.path;
    if |k.path| < n { FromPrefixOfPrefix(k.idx); }
  }

  /** A prefix comes back truncated: the trie forgets exactly the host bits. */
  lemma NetOfKeyOf(net: Net, n: nat)
    requires ValidNet(net, n)
    ensures NetOf(KeyOf(net, n), n) == Trunc(net, n)
  {
    forall j | 0 <= j < n ensures AddrOf(KeyOf(net, n), n)[j] == Trunc(net, n).addr[j] { OctetOfKey(net, n, j); }
    assert AddrOf(KeyOf(net, n), n) == Trunc(net, n).addr;
  }

  lemma OctetOfKey(net: Net, n: nat, j: nat)
    requires ValidNet(net, n) && j < n
    ensures AddrOf(KeyOf(net, n), n)[j] == TruncOctet(net.addr[j], net.len - 8 * j)
  {
    if j == net.len / 8 { CutOctet(net.addr[j], net.len % 8); }
  }

  lemma CutOctet(o: Octet, r: nat)
    requires r <= 7
    ensures Prefix(FromPrefix(o, r)).0 == TruncOctet(o, r)
  {
    PrefixOfFromPrefix(o, r);
    if r == 0 { assert o % 256 == o && Pow2(8) == 256; }
  }

  /** Two octets agree on their first `r` bits exactly when one lies under the other's index. */
  lemma CoversIsAgreement(o: Octet, x: Octet, r: nat)
    requires r <= 7
    ensures Covers(FromPrefix(o, r), x) <==> TruncOctet(o, r) == TruncOctet(x, r)
  {
    var i := FromPrefix(o, r);
    LevelBound(256 + x);
    AncestorInterval(i, 256 + x, 8 - r);
    IntervalIsAgreement(o, x, r, i);
  }

  lemma IntervalIsAgreement(o: Octet, x: Octet, r: nat, i: int)
    requires r <= 7 && i == o / Pow2(8 - r) + Pow2(r)
    ensures i * Pow2(8 - r) <= 256 + x < (i + 1) * Pow2(8 - r) <==> TruncOctet(o, r) == TruncOctet(x, r)
  {
    var p, q := Pow2(r), Pow2(8 - r);
    PowProduct(r);
    assert i * q == o / q * q + p * q && (i + 1) * q == (o / q + 1) * q + p * q by { Distribute(o / q, p, q); }
    SameQuotient(o, x, q);
    if r == 0 { assert q == 256; }
  }

  lemma Distribute(a: int, p: int, q: int)
    ensures (a + p) * q == a * q + p * q
    ensures (a + p + 1) * q == (a + 1) * q + p * q
  {
  }

  lemma SameQuotient(o: int, x: int, q: nat)
    requires q > 0
    ensures o / q * q <= x < (o / q + 1) * q <==> o - o % q == x - x % q
  {
    assert x == x / q * q + x % q && o == o / q * q + o % q;
    QuotientIn(o / q, x / q, q, x % q);
  }

  lemma QuotientIn(a: int, b: int, q: nat, r: int)
    requires 0 <= r < q
    ensures a * q <= b * q + r < (a + 1) * q <==> a == b
    ensures a * q == b * q <==> a == b
  {
    if a < b { MulMonotone(a + 1, b, q); }
    if b < a { MulMonotone(b + 1, a, q); }
  }

  /** Containment of an address in a prefix is the trie's covering relation. */
  lemma ContainsIsCovers(net: Net, n: nat, a: seq<int>)
    requires ValidNet(net, n) && ValidAddr(a, n)
    ensures NetContains(net, a, n) <==> CoversKey(KeyOf(net, n), Key(a, 1))
  {
    var s, r := net.len / 8, net.len % 8;
    var k := KeyOf(net, n);
    if s < n { CoversIsAgreement(net.addr[s], a[s], r); }
    if NetContains(net, a, n) {
      assert forall j :: 0 <= j < s ==> TruncOctet(net.addr[j], net.len - 8 * j) == net.addr[j];
      assert k.path == a[..s];
      assert s < n ==> TruncOctet(net.addr[s], r) == TruncOctet(a[s], r);
    } else if CoversKey(k, Key(a, 1)) {
      CoversGivesAgreement(net, n, a);
    }
  }

  lemma CoversGivesAgreement(net: Net, n: nat, a: seq<int>)
    requires ValidNet(net, n) && ValidAddr(a, n) && CoversKey(KeyOf(net, n), Key(a, 1))
    ensures NetContains(net, a, n)
  {
    var s, r := net.len / 8, net.len % 8;
    var k := KeyOf(net, n);
    if s < n { CoversIsAgreement(net.addr[s], a[s], r); }
    forall j | 0 <= j < n ensures TruncOctet(net.addr[j], net.len - 8 * j) == TruncOctet(a[j], net.len - 8 * j) {
      if j < s { assert k.path[j] == a[j]; }
    }
  }

  /** The test the prefix lookup makes on a leaf, no longer than the query and containing the query's
      address, is exactly that the leaf covers the query. */
  lemma LeafTestIsCovers(leaf: Key, q: Key, n: nat)
    requires ValidKey(leaf, n) && ValidKey(q, n)
    ensures Bits(leaf) <= Bits(q) && CoversKey(leaf, Key(AddrOf(q, n), 1)) <==> CoversKey(leaf, q)
  {
    LevelIndex(leaf.idx);
    LevelIndex(q.idx);
    var a := AddrOf(q, n);
    var m := |leaf.path|;
    if m <= |q.path| {
      assert a[..m] == q.path[..m];
      assert leaf.path <= a <==> leaf.path <= q.path;
      if m == |q.path| && m < n { FirstOctetDecides(leaf.idx, q.idx); }
    }
  }

  lemma FirstOctetBelow(i: Index)
    ensures 0 <= Prefix(i).0 < 256 && Covers(i, Prefix(i).0)
  {
    RangeClosedForm(i);
    RangeIsDescent(i, Prefix(i).0);
  }

  lemma NotDeeperIsAncestor(a: Index, i: Index, t: TreeIndex)
    requires Level(a) <= Level(i) && IsAncestor(a, t) && IsAncestor(i, t)
    ensures IsAncestor(a, i)
  {
    if a <= i {
      AncestorsAreAChain(a, i, t);
    } else {
      AncestorsAreAChain(i, a, t);
      AncestorBounds(i, a);
    }
  }

  /** An index not deeper than `i` is an ancestor of `i` exactly when it covers the first octet of `i`. */
  lemma FirstOctetDecides(a: Index, i: Index)
    ensures Level(a) <= Level(i) && Covers(a, Prefix(i).0) <==> IsAncestor(a, i)
  {
    FirstOctetBelow(i);
    OctetDecides(a, i, Prefix(i).0);
  }

  lemma OctetDecides(a: Index, i: Index, o: int)
    requires 0 <= o < 256 && Covers(i, o)
    ensures Level(a) <= Level(i) && Covers(a, o) <==> IsAncestor(a, i)
  {
    if IsAncestor(a, i) {
      AncestorBounds(a, i);
      AncestorTransitive(a, i, 256 + o);
    } else if Level(a) <= Level(i) && Covers(a, o) {
      NotDeeperIsAncestor(a, i, 256 + o);
    }
  }
}
