/**
  Reading a LocalAPI request head (`localapi::handle`, src/tsnet.rs): bytes arrive in pieces of the peer's
  choosing until a blank line is found, with a bound on what is buffered.
 */
module HttpHead {
  import opened Wrappers
  import opened Bytes
  import opened Search

  const MAX_HEAD := 8 * 1024
  const PIECE := 1024

  datatype Outcome = Framed(at: nat) | TooLarge | Closed

  /** A read returns between one and `PIECE` bytes; after the last piece the peer closes. */
  predicate ValidPieces(pieces: seq<seq<Byte>>) {
    forall i :: 0 <= i < |pieces| ==> 0 < |pieces[i]| <= PIECE
  }

  /** The loop, from the moment `buf` has been buffered. */
  function Loop(buf: seq<Byte>, pieces: seq<seq<Byte>>): Outcome
    decreases |pieces|
  {
    var pos := Find(buf, BLANK_LINE);
    if pos.Some? then Framed(pos.value)
    else if |buf| > MAX_HEAD then TooLarge
    else if pieces == [] then Closed
    else Loop(buf + pieces[0], pieces[1..])
  }

  /** The loop of `handle`; its buffer stays bounded. */
  method ReadHead(pieces: seq<seq<Byte>>) returns (o: Outcome, buf: seq<Byte>)
    requires ValidPieces(pieces)
    ensures o == Loop([], pieces)
    ensures |buf| <= MAX_HEAD + PIECE
    ensures buf <= Flatten(pieces) && (o.Closed? ==> buf == Flatten(pieces))
  {
    buf := [];
    var i := 0;
    while true
      invariant 0 <= i <= |pieces| && |buf| <= MAX_HEAD + PIECE
      invariant buf + Flatten(pieces[i..]) == Flatten(pieces)
      invariant Loop(buf, pieces[i..]) == Loop([], pieces)
      decreases |pieces| - i
    {
      var pos := Find(buf, BLANK_LINE);
      if pos.Some? { return Framed(pos.value), buf; }
      if |buf| > MAX_HEAD { return TooLarge, buf; }
      if i == |pieces| { return Closed, buf; }
      assert pieces[i..][1..] == pieces[i + 1..];
      assert buf + Flatten(pieces[i..]) == buf + pieces[i] + Flatten(pieces[i + 1..]);
      buf := buf + pieces[i];
      i := i + 1;
    }
  }

  lemma FlattenSplits(buf: seq<Byte>, pieces: seq<seq<Byte>>)
    requires pieces != []
    ensures buf + Flatten(pieces) == buf + pieces[0] + Flatten(pieces[1..])
  {
  }

  lemma BufferFind(stream: seq<Byte>, buf: seq<Byte>)
    requires buf <= stream
    ensures var r := Find(stream, BLANK_LINE);
            Find(buf, BLANK_LINE) == if r.Some? && r.value + 4 <= |buf| then r else None
  {
    FindInPrefix(stream, BLANK_LINE, |buf|);
    assert stream[..|buf|] == buf;
  }

  /** However the bytes arrive, a head is framed at the first blank line or not at all. */
  lemma {:induction false} FramedAtFirst(buf: seq<Byte>, pieces: seq<seq<Byte>>)
    requires Loop(buf, pieces).Framed?
    ensures Find(buf + Flatten(pieces), BLANK_LINE) == Some(Loop(buf, pieces).at)
    decreases |pieces|
  {
    if Find(buf, BLANK_LINE).Some? {
      BufferFind(buf + Flatten(pieces), buf);
    } else {
      FramedAtFirst(buf + pieces[0], pieces[1..]);
      FlattenSplits(buf, pieces);
    }
  }

  /** However the bytes arrive, a head that ends within the first `MAX_HEAD + 1` bytes is framed. */
  lemma {:induction false} ShortHeadIsFramed(buf: seq<Byte>, pieces: seq<seq<Byte>>)
    requires var r := Find(buf + Flatten(pieces), BLANK_LINE); r.Some? && r.value + 4 <= MAX_HEAD + 1
    ensures Loop(buf, pieces) == Framed(Find(buf + Flatten(pieces), BLANK_LINE).value)
    decreases |pieces|
  {
    BufferFind(buf + Flatten(pieces), buf);
    assert pieces == [] ==> buf + Flatten(pieces) == buf;
    if Find(buf, BLANK_LINE).None? {
      FlattenSplits(buf, pieces);
      ShortHeadIsFramed(buf + pieces[0], pieces[1..]);
    }
  }

  /** However the bytes arrive, a head that does not end within the first `MAX_HEAD + PIECE` bytes is refused
      once more than `MAX_HEAD` bytes have come. */
  lemma {:induction false} LongHeadIsRefused(buf: seq<Byte>, pieces: seq<seq<Byte>>)
    requires ValidPieces(pieces) && |buf| <= MAX_HEAD + PIECE && |buf + Flatten(pieces)| > MAX_HEAD
    requires var r := Find(buf + Flatten(pieces), BLANK_LINE); r.Some? ==> r.value + 4 > MAX_HEAD + PIECE
    ensures Loop(buf, pieces) == TooLarge
    decreases |pieces|
  {
    BufferFind(buf + Flatten(pieces), buf);
    if |buf| <= MAX_HEAD {
      FlattenSplits(buf, pieces);
      LongHeadIsRefused(buf + pieces[0], pieces[1..]);
    }
  }

  // In between, it depends on how the bytes arrive.

  function Singles(s: seq<Byte>): (pieces: seq<seq<Byte>>)
    ensures ValidPieces(pieces) && Flatten(pieces) == s
  {
    if s == [] then [] else [[s[0]]] + Singles(s[1..])
  }

  lemma {:induction false} SinglesAreRefused(stream: seq<Byte>, i: nat)
    requires i <= MAX_HEAD + 1 < |stream|
    requires var r := Find(stream, BLANK_LINE); r.Some? ==> r.value + 4 > MAX_HEAD + 1
    ensures Loop(stream[..i], Singles(stream[i..])) == TooLarge
    decreases MAX_HEAD + 1 - i
  {
    BufferFind(stream, stream[..i]);
    if i <= MAX_HEAD {
      SinglesAreRefused(stream, i + 1);
      var rest := Singles(stream[i..]);
      assert stream[i..][1..] == stream[i + 1..];
      assert rest[0] == [stream[i]] && rest[1..] == Singles(stream[i + 1..]);
      assert stream[..i] + rest[0] == stream[..i + 1];
    }
  }

  /** Singly up to `MAX_HEAD`, then one piece up to `e`, then singly again. */
  function Burst(stream: seq<Byte>, i: nat, e: nat): seq<seq<Byte>>
    requires i <= MAX_HEAD < e <= |stream|
  {
    Singles(stream[i..MAX_HEAD]) + ([stream[MAX_HEAD..e]] + Singles(stream[e..]))
  }

  lemma BurstNext(stream: seq<Byte>, i: nat, e: nat)
    requires i < MAX_HEAD < e <= |stream|
    ensures var b := Burst(stream, i, e);
            b != [] && stream[..i] + b[0] == stream[..i + 1] && b[1..] == Burst(stream, i + 1, e)
  {
    var s := stream[i..MAX_HEAD];
    var tail := [stream[MAX_HEAD..e]] + Singles(stream[e..]);
    assert s[1..] == stream[i + 1..MAX_HEAD];
    assert Singles(s) == [[s[0]]] + Singles(s[1..]);
    assert (Singles(s) + tail)[1..] == Singles(s[1..]) + tail;
  }

  lemma BurstLast(stream: seq<Byte>, e: nat)
    requires MAX_HEAD < e <= |stream|
    ensures var b := Burst(stream, MAX_HEAD, e);
            b != [] && stream[..MAX_HEAD] + b[0] == stream[..e]
  {
    assert stream[MAX_HEAD..MAX_HEAD] == [];
  }

  lemma {:induction false} BurstIsFramed(stream: seq<Byte>, i: nat, e: nat)
    requires i <= MAX_HEAD < e <= |stream|
    requires var r := Find(stream, BLANK_LINE); r.Some? && MAX_HEAD + 1 < r.value + 4 <= e
    ensures Loop(stream[..i], Burst(stream, i, e)) == Framed(Find(stream, BLANK_LINE).value)
    decreases MAX_HEAD - i
  {
    BufferFind(stream, stream[..i]);
    if i < MAX_HEAD {
      BurstNext(stream, i, e);
      BurstIsFramed(stream, i + 1, e);
    } else {
      BurstLast(stream, e);
      BufferFind(stream, stream[..e]);
    }
  }

  lemma BurstIsStream(stream: seq<Byte>, e: nat)
    requires MAX_HEAD < e <= |stream| && e <= MAX_HEAD + PIECE
    ensures ValidPieces(Burst(stream, 0, e)) && Flatten(Burst(stream, 0, e)) == stream
  {
    var a, b, c := Singles(stream[0..MAX_HEAD]), [stream[MAX_HEAD..e]], Singles(stream[e..]);
    FlattenConcat(a, b + c);
    FlattenConcat(b, c);
    assert Flatten(b) == stream[MAX_HEAD..e];
    assert stream[0..MAX_HEAD] + (stream[MAX_HEAD..e] + stream[e..]) == stream;
  }

  // A head that ends after `MAX_HEAD + 1` bytes but within `MAX_HEAD + PIECE` is refused or framed as the
  // bytes happen to arrive.

  lemma CanBeRefused(stream: seq<Byte>)
    requires var r := Find(stream, BLANK_LINE); r.Some? && MAX_HEAD + 1 < r.value + 4
    ensures Loop([], Singles(stream)) == TooLarge
  {
    FindIsFirst(stream, BLANK_LINE);
    SinglesAreRefused(stream, 0);
    assert stream[..0] == [] && stream[0..] == stream;
  }

  lemma CanBeFramed(stream: seq<Byte>) returns (pieces: seq<seq<Byte>>)
    requires var r := Find(stream, BLANK_LINE); r.Some? && MAX_HEAD + 1 < r.value + 4 <= MAX_HEAD + PIECE
    ensures ValidPieces(pieces) && Flatten(pieces) == stream
    ensures Loop([], pieces) == Framed(Find(stream, BLANK_LINE).value)
  {
    var e := Find(stream, BLANK_LINE).value + 4;
    FindIsFirst(stream, BLANK_LINE);
    pieces := Burst(stream, 0, e);
    BurstIsFramed(stream, 0, e);
    BurstIsStream(stream, e);
    assert stream[..0] == [];
  }

  /** The bounds in bytes: every arrival of a head is framed if and only if it ends within 8193 bytes, and every one is
      refused if and only if it does not end within 9216. */
  lemma HeadLimits(stream: seq<Byte>)
    requires Find(stream, BLANK_LINE).Some?
    ensures var end := Find(stream, BLANK_LINE).value + 4;
            && ((forall pieces :: ValidPieces(pieces) && Flatten(pieces) == stream ==> Loop([], pieces).Framed?)
                <==> end <= 8193)
            && ((forall pieces :: ValidPieces(pieces) && Flatten(pieces) == stream ==> Loop([], pieces).TooLarge?)
                <==> end > 9216)
  {
    var end := Find(stream, BLANK_LINE).value + 4;
    FindIsFirst(stream, BLANK_LINE);
    assert [] + stream == stream;
    if end <= 8193 {
      forall pieces | ValidPieces(pieces) && Flatten(pieces) == stream ensures Loop([], pieces).Framed? {
        ShortHeadIsFramed([], pieces);
      }
      assert Loop([], Singles(stream)).Framed?;
    } else {
      CanBeRefused(stream);
      assert Loop([], Singles(stream)).TooLarge?;
      if end <= 9216 {
        var pieces := CanBeFramed(stream);
        assert Loop([], pieces).Framed?;
      } else {
        forall pieces | ValidPieces(pieces) && Flatten(pieces) == stream ensures Loop([], pieces).TooLarge? {
          LongHeadIsRefused([], pieces);
        }
      }
    }
  }

  /** The connection is dropped without an answer exactly when the peer closes with no blank line sent and no more
      than 8192 bytes. */
  lemma {:induction false} ClosedExactly(buf: seq<Byte>, pieces: seq<seq<Byte>>)
    requires ValidPieces(pieces)
    ensures Loop(buf, pieces).Closed? <==>
            Find(buf + Flatten(pieces), BLANK_LINE).None? && |buf + Flatten(pieces)| <= 8192
    decreases |pieces|
  {
    BufferFind(buf + Flatten(pieces), buf);
    if pieces == [] {
      assert buf + Flatten(pieces) == buf;
    } else {
      FlattenSplits(buf, pieces);
      ClosedExactly(buf + pieces[0], pieces[1..]);
    }
  }
}
