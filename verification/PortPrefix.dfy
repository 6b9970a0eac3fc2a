/**
  Port ranges as aligned blocks (ts_bart_packetfilter/src/port_trie/port_prefix.rs): the decomposition of a
  range into prefixes, and the two ranges it gets wrong.
 */
module PortPrefix {
  import opened Wrappers
  import opened BaseIndex

  type Port = p: int | 0 <= p < 0x1_0000

  datatype PortPrefix = Prefix(idx: Index) | ChildPrefix(hi: Octet, lo: Index) | Singleton(port: Port)

  /** `from_pfx` */
  function FromPfx(port: Port, len: nat): PortPrefix
    requires len <= 16
  {
    if len == 16 then Singleton(port)
    else if len < 8 then Prefix(FromPrefix(port / 256, len))
    else ChildPrefix(port / 256, FromPrefix(port % 256, len - 8))
  }

  /** `prefix_form` */
  function Form(p: PortPrefix): (f: (int, nat))
    ensures 0 <= f.0 < 0x1_0000 && f.1 <= 16
  {
    match p
    case Singleton(port) => (port, 16)
    case ChildPrefix(hi, lo) => (256 * (hi as int) + BaseIndex.Prefix(lo).0, 8 + BaseIndex.Prefix(lo).1)
    case Prefix(idx) => (256 * BaseIndex.Prefix(idx).0, BaseIndex.Prefix(idx).1)
  }

  function Start(p: PortPrefix): int { Form(p).0 }

  function Min(a: int, b: int): int { if a < b then a else b }

  /** `end` */
  function End(p: PortPrefix): int {
    var (addr, len) := Form(p);
    if len == 0 then 0xFFFF else Min(addr + (0x8000 / Pow2(len - 1) - 1), 0xFFFF)
  }

  lemma PowTable16()
    ensures Pow2(8) == 256 && Pow2(9) == 512 && Pow2(10) == 1024 && Pow2(11) == 2048 && Pow2(12) == 4096
    ensures Pow2(13) == 8192 && Pow2(14) == 16384 && Pow2(15) == 32768 && Pow2(16) == 65536
  {
    Pow2Table();
    assert Pow2(11) == 2048;
    assert Pow2(13) == 8192;
  }

  lemma ShiftIs(len: nat)
    requires 1 <= len <= 16
    ensures 0x8000 / Pow2(len - 1) == Pow2(16 - len)
  {
    Pow2Table();
    PowTable16();
    match len {
      case 1 => case 2 => case 3 => case 4 => case 5 => case 6 => case 7 => case 8 =>
      case 9 => case 10 => case 11 => case 12 => case 13 => case 14 => case 15 => case 16 =>
    }
  }

  lemma HighAligned(port: Port, len: nat)
    requires len < 8
    ensures 256 * (port / 256 - port / 256 % Pow2(8 - len)) == port - port % Pow2(16 - len)
  {
    var m := Pow2(8 - len);
    var hi, lo := port / 256, port % 256;
    HighPower(len);
    assert 256 * (hi % m) + lo < 256 * m;
    QuotientTimes256(hi / m, m);
    RemainderIs(port, 256 * m, hi / m, 256 * (hi % m) + lo);
  }

  lemma QuotientTimes256(q: int, m: int)
    ensures q * (256 * m) == 256 * (q * m)
  {
  }

  lemma HighPower(len: nat)
    requires len < 8
    ensures Pow2(16 - len) == 256 * Pow2(8 - len)
  {
    Pow2Table();
    PowTable16();
    match len {
      case 0 => case 1 => case 2 => case 3 => case 4 => case 5 => case 6 => case 7 =>
    }
  }

  lemma LowMod(hi: Octet, lo: Octet, len: nat)
    requires 8 <= len < 16
    ensures (256 * (hi as int) + lo) % Pow2(16 - len) == lo % Pow2(16 - len)
  {
    PowProduct(16 - len);
    ModAdd(hi * Pow2(len - 8), Pow2(16 - len), lo);
    Regroup(hi, Pow2(len - 8), Pow2(16 - len));
  }

  lemma Regroup(a: int, b: int, c: int)
    ensures a * b * c == a * (c * b)
  {
  }

  lemma ModAdd(k: int, m: int, r: int)
    requires m > 0
    ensures (k * m + r) % m == r % m
  {
    RemainderIs(k * m + r, m, k + r / m, r % m);
  }

  lemma RemainderIs(n: int, m: int, q: int, r: int)
    requires m > 0 && 0 <= r < m && n == q * m + r
    ensures n % m == r
  {
    var d := n / m - q;
    assert d * m == r - n % m;
    if d >= 1 { MulMonotone(1, d, m); } else if d <= -1 { MulMonotone(d, -1, m); }
  }

  lemma LowAligned(port: Port, len: nat)
    requires 8 <= len < 16
    ensures 256 * (port / 256) + (port % 256 - port % 256 % Pow2(16 - len)) == port - port % Pow2(16 - len)
  {
    LowMod(port / 256, port % 256, len);
  }

  /** The port with its host bits cleared, and the length. */
  lemma FormOf(port: Port, len: nat)
    requires len <= 16
    ensures Form(FromPfx(port, len)) == (port - port % Pow2(16 - len), len)
  {
    if len < 8 {
      PrefixOfFromPrefix(port / 256, len);
      HighAligned(port, len);
    } else if len < 16 {
      PrefixOfFromPrefix(port % 256, len - 8);
      LowAligned(port, len);
    } else {
      assert Pow2(0) == 1;
    }
  }

  // How large a block fits.

  /** `trailing_zeros` of a 16-bit number. */
  function TrailingZeros(n: nat): nat {
    if n == 0 then 16 else if n % 2 == 1 then 0 else 1 + TrailingZeros(n / 2)
  }

  predicate Aligned(n: nat, k: nat) { k == 0 || (n % 2 == 0 && Aligned(n / 2, k - 1)) }

  lemma {:induction false} ZerosAlign(n: nat, k: nat)
    requires k <= TrailingZeros(n)
    ensures Aligned(n, k)
    decreases k
  {
    if k > 0 && n > 0 { ZerosAlign(n / 2, k - 1); } else if k > 0 { ZeroIsAligned(k); }
  }

  lemma {:induction false} ZeroIsAligned(k: nat)
    ensures Aligned(0, k)
  {
    if k > 0 { ZeroIsAligned(k - 1); }
  }

  lemma {:induction false} AlignedIsMultiple(n: nat, k: nat)
    requires Aligned(n, k)
    ensures n % Pow2(k) == 0
  {
    if k > 0 {
      AlignedIsMultiple(n / 2, k - 1);
      var m := Pow2(k - 1);
      assert n / 2 == n / 2 / m * m;
      DoubleQuotient(n / 2 / m, m);
      RemainderIs(n, 2 * m, n / 2 / m, 0);
    }
  }

  lemma DoubleQuotient(q: int, m: int)
    ensures q * (2 * m) == 2 * (q * m)
  {
  }

  /** The exponent the iterator takes: the largest power of two that divides `start` and fits in `range`. */
  function Fit(start: Port, range: nat): nat
    requires range >= 1
  {
    Min(Level(range), TrailingZeros(start))
  }

  lemma FitFits(start: Port, end: Port)
    requires start < end
    ensures var k := Fit(start, end - start + 1);
            k <= 16 && start % Pow2(k) == 0 && start + Pow2(k) <= end + 1 && Aligned(start, k)
  {
    var range := end - start + 1;
    var k := Fit(start, range);
    ZerosAlign(start, k);
    AlignedIsMultiple(start, k);
    Pow2Monotone(k, Level(range));
    PowTable16();
    if k > 16 { Pow2Monotone(17, k); }
  }

  /** No block ends at 65534, so the end of the iteration is never met by accident. */
  lemma NeverStopsShort(start: Port, end: Port)
    requires start < end
    ensures start + Pow2(Fit(start, end - start + 1)) != 0xFFFF
  {
    var range := end - start + 1;
    var k := Fit(start, range);
    FitFits(start, end);
    assert Pow2(1) == 2 && Level(range) >= 1;
    if k > 0 { assert Pow2(k) == 2 * Pow2(k - 1); } else { assert Pow2(0) == 1; }
  }

  // Blocks and what they tile.

  /** The `2^k` numbers from `start` on. */
  datatype Span = Span(start: int, k: nat)

  function Last(b: Span): int { b.start + Pow2(b.k) - 1 }

  /** An aligned span of ports. */
  predicate ValidBlock(b: Span) {
    0 <= b.start && b.k <= 16 && Last(b) < 0x1_0000 && b.start % Pow2(b.k) == 0
  }

  type Block = b: Span | ValidBlock(b) witness Span(0, 0)

  predicate Holds(b: Block, port: int) { b.start <= port <= Last(b) }

  /** The block taken at `start`. */
  function NextBlock(start: Port, end: Port): (b: Block)
    requires start < end
    ensures b.start == start && Last(b) <= end && Last(b) != 0xFFFE
  {
    FitFits(start, end);
    NeverStopsShort(start, end);
    Span(start, Fit(start, end - start + 1))
  }

  /** The blocks of `start ..= end`, from the left. */
  function Blocks(start: int, end: int): seq<Block>
    requires 0 <= start && end < 0x1_0000
    decreases end - start
  {
    if start > end then []
    else if start == end then [Span(start, 0)]
    else [NextBlock(start, end)] + Blocks(Last(NextBlock(start, end)) + 1, end)
  }

  /** `bs` covers `start ..= end`, each port once and in order. */
  predicate Tiles(bs: seq<Block>, start: int, end: int) {
    if bs == [] then start == end + 1
    else bs[0].start == start && Last(bs[0]) <= end && Tiles(bs[1..], Last(bs[0]) + 1, end)
  }

  lemma {:induction false} BlocksTile(start: int, end: int)
    requires 0 <= start <= end + 1 <= 0x1_0000
    ensures Tiles(Blocks(start, end), start, end)
    decreases end - start
  {
    if start < end {
      BlocksTile(Last(NextBlock(start, end)) + 1, end);
    } else if start == end {
      assert Pow2(0) == 1;
    }
  }

  predicate AnyHolds(bs: seq<Block>, port: int) {
    bs != [] && (Holds(bs[0], port) || AnyHolds(bs[1..], port))
  }

  lemma {:induction false} TilesHold(bs: seq<Block>, start: int, end: int, port: int)
    requires Tiles(bs, start, end)
    ensures AnyHolds(bs, port) <==> start <= port <= end
    ensures start <= end + 1
  {
    if bs != [] { TilesHold(bs[1..], Last(bs[0]) + 1, end, port); }
  }

  lemma {:induction false} TilesFrom(bs: seq<Block>, start: int, end: int, j: nat)
    requires Tiles(bs, start, end) && j < |bs|
    ensures start <= bs[j].start
  {
    if j > 0 { TilesFrom(bs[1..], Last(bs[0]) + 1, end, j - 1); }
  }

  /** No port lies in two blocks. */
  lemma {:induction false} TilesOnce(bs: seq<Block>, start: int, end: int, port: int, i: nat, j: nat)
    requires Tiles(bs, start, end) && i < j < |bs| && Holds(bs[i], port)
    ensures !Holds(bs[j], port)
  {
    if i > 0 {
      TilesOnce(bs[1..], Last(bs[0]) + 1, end, port, i - 1, j - 1);
    } else {
      TilesFrom(bs[1..], Last(bs[0]) + 1, end, j - 1);
    }
  }

  // The decomposition.

  /** What the iterator yields: a range of 65535 ports is taken for all 65536. */
  function Decompose(start: int, end: int): seq<Block>
    requires 0 <= start && end < 0x1_0000
  {
    PowTable16();
    if end - start + 1 >= 0xFFFF then [Span(0, 16)] else Blocks(start, end)
  }

  lemma WholeHolds(b: Block, port: Port)
    requires b == Span(0, 16)
    ensures AnyHolds([b], port)
  {
    PowTable16();
  }

  lemma WholeTiles(b: Block, start: int, end: int)
    requires b == Span(0, 16)
    ensures Tiles([b], start, end) <==> start == 0 && end == 0xFFFF
  {
    PowTable16();
    assert [b][1..] == [];
  }

  /** What the decomposition of a range covers. */
  lemma DecomposeCovers(start: Port, end: Port, port: Port)
    ensures AnyHolds(Decompose(start, end), port) <==> start <= port <= end || end - start + 1 == 0xFFFF
  {
    if end - start + 1 >= 0xFFFF {
      WholeHolds(Decompose(start, end)[0], port);
    } else if start <= end {
      BlocksTile(start, end);
      TilesHold(Blocks(start, end), start, end, port);
    }
  }

  /** The decomposition tiles the range exactly when the range is not `0..=65534` or `1..=65535`. */
  lemma TilesExactly(start: Port, end: Port)
    requires start <= end
    ensures Tiles(Decompose(start, end), start, end) <==> (start, end) != (0, 65534) && (start, end) != (1, 65535)
  {
    if end - start + 1 >= 0xFFFF { WholeTiles(Decompose(start, end)[0], start, end); } else { BlocksTile(start, end); }
  }

  /** `1..=65535` wrongly takes in port 0. */
  lemma PortZeroSlipsIn()
    ensures AnyHolds(Decompose(1, 65535), 0)
  {
    DecomposeCovers(1, 65535, 0);
  }

  // Blocks as prefixes.

  function PrefixOf(b: Block): PortPrefix { FromPfx(b.start, 16 - b.k) }

  lemma EndIs(p: PortPrefix, addr: int, len: nat)
    requires Form(p) == (addr, len) && len <= 16 && addr + Pow2(16 - len) <= 0x1_0000
    ensures End(p) == addr + Pow2(16 - len) - 1
  {
    if len == 0 { PowTable16(); } else { ShiftIs(len); }
  }

  lemma PrefixOfIs(b: Block)
    ensures Start(PrefixOf(b)) == b.start && End(PrefixOf(b)) == Last(b)
  {
    FormOf(b.start, 16 - b.k);
    EndIs(FromPfx(b.start, 16 - b.k), b.start, 16 - b.k);
  }

  function Prefixes(bs: seq<Block>): (ps: seq<PortPrefix>)
    ensures |ps| == |bs|
  {
    if bs == [] then [] else Prefixes(bs[..|bs| - 1]) + [PrefixOf(bs[|bs| - 1])]
  }

  lemma PrefixesAppend(bs: seq<Block>, b: Block)
    ensures Prefixes(bs + [b]) == Prefixes(bs) + [PrefixOf(b)]
  {
    assert (bs + [b])[..|bs|] == bs;
  }

  // The iterator.

  datatype Iter = Iter(start: Port, end: Port)

  /** The blocks still to come. */
  function Pending(it: Iter): seq<Block> { Decompose(it.start, it.end) }

  /** `next` */
  function Step(it: Iter): (Option<PortPrefix>, Iter) {
    if it.start > it.end then (None, it)
    else if it.start == it.end then (Some(Singleton(it.start)), Iter(1, 0))
    else if Min(it.end - it.start + 1, 0xFFFF) == 0xFFFF then (Some(FromPfx(0, 0)), Iter(1, 0))
    else
      var p := PrefixOf(NextBlock(it.start, it.end));
      EndInRange(p);
      var start := Min(End(p) + 1, 0xFFFF);
      (Some(p), Iter(start, if start == 0xFFFF then 0 else it.end))
  }

  lemma EndInRange(p: PortPrefix)
    ensures 0 <= End(p) < 0x1_0000
  {
    var len := Form(p).1;
    if len > 0 { ShiftIs(len); }
  }

  /** The saturating step of `next`: past the last port it stops, and only there. */
  lemma NextIs(start: Port, end: Port)
    requires start < end && end - start + 1 < 0xFFFF
    ensures var next := Min(Last(NextBlock(start, end)) + 1, 0xFFFF);
            Decompose(start, end) == [NextBlock(start, end)] + Decompose(next, if next == 0xFFFF then 0 else end)
  {
    var e := Last(NextBlock(start, end));
    assert e == 0xFFFF ==> Blocks(e + 1, end) == [];
  }

  lemma StepMany(it: Iter)
    requires it.start < it.end && it.end - it.start + 1 < 0xFFFF
    ensures Step(it).0 == Some(PrefixOf(NextBlock(it.start, it.end)))
    ensures Pending(it) == [NextBlock(it.start, it.end)] + Pending(Step(it).1)
  {
    PrefixOfIs(NextBlock(it.start, it.end));
    NextIs(it.start, it.end);
  }

  /** Each call yields the next block, until none is left. */
  lemma StepIs(it: Iter)
    ensures Pending(it) == [] ==> Step(it).0.None?
    ensures Pending(it) != [] ==> Step(it).0 == Some(PrefixOf(Pending(it)[0]))
    ensures Pending(it) != [] ==> Pending(Step(it).1) == Pending(it)[1..]
  {
    if it.start < it.end && it.end - it.start + 1 < 0xFFFF { StepMany(it); } else { StepOnce(it); }
  }

  lemma StepOnce(it: Iter)
    requires it.start >= it.end || it.end - it.start + 1 >= 0xFFFF
    ensures Pending(it) == [] ==> Step(it).0.None?
    ensures Pending(it) != [] ==> Step(it).0 == Some(PrefixOf(Pending(it)[0]))
    ensures Pending(it) != [] ==> Pending(Step(it).1) == Pending(it)[1..]
  {
  }

  class PortPrefixIter {
    var start: Port
    var end: Port

    constructor (start: Port, end: Port)
      ensures this.start == start && this.end == end
    {
      this.start, this.end := start, end;
    }

    method Next() returns (r: Option<PortPrefix>)
      modifies this
      ensures (r, Iter(start, end)) == Step(Iter(old(start), old(end)))
    {
      if start > end { return None; }
      if start == end {
        r := Some(Singleton(start));
        start, end := 1, 0;
        return;
      }
      if Min(end - start + 1, 0xFFFF) == 0xFFFF {
        r := Some(FromPfx(0, 0));
        start, end := 1, 0;
        return;
      }
      var p := Take();
      r := Some(p);
    }

    /** The case of `next` with more than one port left, and not all of them. */
    method Take() returns (p: PortPrefix)
      requires start < end
      modifies this
      ensures p == PrefixOf(NextBlock(old(start), old(end))) && start == Min(End(p) + 1, 0xFFFF)
      ensures end == if start == 0xFFFF then 0 else old(end)
    {
      p := PrefixOf(NextBlock(start, end));
      EndInRange(p);
      start := Min(End(p) + 1, 0xFFFF);
      if start == 0xFFFF { end := 0; }
    }
  }

  /** `iter_prefixes`, collected. */
  method IterPrefixes(from: Port, to: Port) returns (out: seq<PortPrefix>)
    ensures out == Prefixes(Decompose(from, to))
  {
    var iter := new PortPrefixIter(from, to);
    out := Collect(iter, Decompose(from, to));
  }

  method Collect(iter: PortPrefixIter, ghost all: seq<Block>) returns (out: seq<PortPrefix>)
    requires all == Pending(Iter(iter.start, iter.end))
    modifies iter
    ensures out == Prefixes(all)
  {
    out := [];
    ghost var i := 0;
    while true
      invariant 0 <= i <= |all| && out == Prefixes(all[..i])
      invariant all[i..] == Pending(Iter(iter.start, iter.end))
      decreases |all| - i
    {
      StepIs(Iter(iter.start, iter.end));
      var p := iter.Next();
      if p.None? {
        assert all[..i] == all;
        return;
      }
      PrefixesAppend(all[..i], all[i]);
      assert all[..i] + [all[i]] == all[..i + 1];
      out := out + [p.value];
      i := i + 1;
    }
  }
}
