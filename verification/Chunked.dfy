/**
  The chunked body that carries a session recording to the recorder (`pump_v1`, src/ssh/recording.rs),
  against a decoder of the chunked coding as section 7.1 of RFC 9112 defines it.
 */
module Chunked {
  import opened Wrappers
  import opened Bytes

  function HexDigit(d: int): Byte
    requires 0 <= d < 16
  {
    if d < 10 then 48 + d else 87 + d
  }

  /** `{:x}` */
  function Hex(n: nat): (s: seq<Byte>)
    ensures |s| >= 1
  {
    if n < 16 then [HexDigit(n)] else Hex(n / 16) + [HexDigit(n % 16)]
  }

  function Chunk(data: seq<Byte>): seq<Byte> { Hex(|data|) + CRLF + data + CRLF }

  const LAST: seq<Byte> := [48, 13, 10, 13, 10]

  /** What is sent for `chunks`: a chunk of no bytes would end the body, so none is sent for it. */
  function Framed(chunks: seq<seq<Byte>>): seq<Byte> {
    if chunks == [] then LAST
    else if chunks[0] == [] then Framed(chunks[1..])
    else Chunk(chunks[0]) + Framed(chunks[1..])
  }

  // The decoder.

  /** Where the first line of `s` ends. */
  function LineEnd(s: seq<Byte>): (i: Option<nat>)
    ensures i.Some? ==> i.value + 2 <= |s|
  {
    if |s| < 2 then None
    else if s[0] == 13 && s[1] == 10 then Some(0)
    else
      var i := LineEnd(s[1..]);
      if i.Some? then Some(i.value + 1) else None
  }

  /** Upper and lower case alike. */
  function DigitValue(b: Byte): (v: Option<nat>)
    ensures v.Some? ==> v.value < 16
  {
    if 48 <= b <= 57 then Some(b - 48)
    else if 97 <= b <= 102 then Some(b - 87)
    else if 65 <= b <= 70 then Some(b - 55)
    else None
  }

  /** The value of one or more hexadecimal digits. */
  function HexValue(s: seq<Byte>): Option<nat> {
    if s == [] then None else
    var low := DigitValue(s[|s| - 1]);
    if low.None? then None
    else if |s| == 1 then low
    else
      var high := HexValue(s[..|s| - 1]);
      if high.None? then None else Some(16 * high.value + low.value)
  }

  /** A size line without its chunk extensions, which start at a semicolon. */
  function BeforeExtensions(line: seq<Byte>): seq<Byte> {
    if line == [] || line[0] == 59 then [] else [line[0]] + BeforeExtensions(line[1..])
  }

  function Size(line: seq<Byte>): Option<nat> { HexValue(BeforeExtensions(line)) }

  /** What follows the trailer section: trailer fields, one to a line, and an empty line. */
  function AfterTrailer(s: seq<Byte>): Option<seq<Byte>>
    decreases |s|
  {
    var i := LineEnd(s);
    if i.None? then None
    else if i.value == 0 then Some(s[2..])
    else AfterTrailer(s[i.value + 2..])
  }

  /** What a stream starts with: a chunk, or the size line of the last one. */
  datatype Head = Malformed | Last(rest: seq<Byte>) | Data(data: seq<Byte>, rest: seq<Byte>)

  /** What comes after a size line that says `size`. */
  function Sized(size: Option<nat>, s: seq<Byte>): Head {
    if size.None? then Malformed
    else if size.value == 0 then Last(s)
    else if |s| < size.value + 2 || s[size.value] != 13 || s[size.value + 1] != 10 then Malformed
    else Data(s[..size.value], s[size.value + 2..])
  }

  function First(s: seq<Byte>): (h: Head)
    ensures h.Data? ==> |h.rest| < |s|
  {
    var i := LineEnd(s);
    if i.None? then Malformed else Sized(Size(s[..i.value]), s[i.value + 2..])
  }

  /** The body that `s` starts with and what comes after it, if a whole one is there. */
  function Decode(s: seq<Byte>): Option<(seq<Byte>, seq<Byte>)>
    decreases |s|
  {
    match First(s)
    case Malformed => None
    case Last(rest) =>
      var after := AfterTrailer(rest);
      if after.None? then None else Some(([], after.value))
    case Data(data, rest) =>
      var more := Decode(rest);
      if more.None? then None else Some((data + more.value.0, more.value.1))
  }

  // More input never changes what has already been decoded.

  lemma {:induction false} LineEndExtends(s: seq<Byte>, t: seq<Byte>)
    requires LineEnd(s).Some?
    ensures LineEnd(s + t) == LineEnd(s)
  {
    if !(s[0] == 13 && s[1] == 10) {
      LineEndExtends(s[1..], t);
      assert (s + t)[1..] == s[1..] + t;
    }
  }

  lemma {:induction false} TrailerExtends(s: seq<Byte>, t: seq<Byte>)
    requires AfterTrailer(s).Some?
    ensures AfterTrailer(s + t) == Some(AfterTrailer(s).value + t)
    decreases |s|
  {
    LineEndExtends(s, t);
    var i := LineEnd(s).value;
    assert (s + t)[i + 2..] == s[i + 2..] + t;
    if i != 0 { TrailerExtends(s[i + 2..], t); }
  }

  lemma SizedExtends(size: Option<nat>, s: seq<Byte>, t: seq<Byte>)
    requires !Sized(size, s).Malformed?
    ensures Sized(size, s + t) == Sized(size, s).(rest := Sized(size, s).rest + t)
  {
    if size.value != 0 {
      assert (s + t)[..size.value] == s[..size.value];
      assert (s + t)[size.value + 2..] == s[size.value + 2..] + t;
    }
  }

  lemma FirstExtends(s: seq<Byte>, t: seq<Byte>)
    requires !First(s).Malformed?
    ensures First(s + t) == First(s).(rest := First(s).rest + t)
  {
    LineEndExtends(s, t);
    var i := LineEnd(s).value;
    assert (s + t)[..i] == s[..i];
    assert (s + t)[i + 2..] == s[i + 2..] + t;
    SizedExtends(Size(s[..i]), s[i + 2..], t);
  }

  lemma {:induction false} DecodeExtends(s: seq<Byte>, t: seq<Byte>)
    requires Decode(s).Some?
    ensures Decode(s + t) == Some((Decode(s).value.0, Decode(s).value.1 + t))
    decreases |s|
  {
    FirstExtends(s, t);
    var h := First(s);
    if h.Last? { TrailerExtends(h.rest, t); } else { DecodeExtends(h.rest, t); }
  }

  // Round trip.

  lemma {:induction false} HexValueOfHex(n: nat)
    ensures HexValue(Hex(n)) == Some(n)
  {
    if n >= 16 {
      HexValueOfHex(n / 16);
      assert Hex(n)[..|Hex(n)| - 1] == Hex(n / 16);
    }
  }

  /** Neither a carriage return nor a semicolon. */
  predicate IsDigits(s: seq<Byte>) {
    forall i :: 0 <= i < |s| ==> s[i] != 13 && s[i] != 59
  }

  lemma {:induction false} HexIsDigits(n: nat)
    ensures IsDigits(Hex(n))
  {
    if n >= 16 { HexIsDigits(n / 16); }
  }

  lemma {:induction false} LineOf(line: seq<Byte>, t: seq<Byte>)
    requires IsDigits(line)
    ensures LineEnd(line + CRLF + t) == Some(|line|)
    ensures BeforeExtensions(line) == line
  {
    var s := line + CRLF + t;
    if line != [] {
      assert s[0] == line[0];
      LineOf(line[1..], t);
      assert s[1..] == line[1..] + CRLF + t;
    }
  }

  lemma FirstOf(line: seq<Byte>, rest: seq<Byte>)
    requires IsDigits(line)
    ensures First(line + CRLF + rest) == Sized(HexValue(line), rest)
  {
    LineOf(line, rest);
    var s := line + CRLF + rest;
    assert s[..|line|] == line && s[|line| + 2..] == rest;
  }

  lemma SizedOf(data: seq<Byte>, t: seq<Byte>)
    requires data != []
    ensures Sized(Some(|data|), data + CRLF + t) == Data(data, t)
  {
    var s := data + CRLF + t;
    assert s[..|data|] == data && s[|data| + 2..] == t;
  }

  lemma FirstOfChunk(data: seq<Byte>, t: seq<Byte>)
    requires data != []
    ensures First(Chunk(data) + t) == Data(data, t)
  {
    HexIsDigits(|data|);
    HexValueOfHex(|data|);
    FirstOf(Hex(|data|), data + CRLF + t);
    SizedOf(data, t);
    ChunkParts(Hex(|data|), data, t);
  }

  lemma ChunkParts(size: seq<Byte>, data: seq<Byte>, t: seq<Byte>)
    ensures size + CRLF + data + CRLF + t == size + CRLF + (data + CRLF + t)
  {
  }

  lemma FirstOfLast(t: seq<Byte>)
    ensures First(LAST + t) == Last(CRLF + t)
  {
    FirstOf([48], CRLF + t);
    LastParts(t);
  }

  lemma LastParts(t: seq<Byte>)
    ensures LAST + t == [48] + CRLF + (CRLF + t)
    ensures HexValue([48]) == Some(0)
  {
  }

  lemma EmptyTrailer(t: seq<Byte>)
    ensures AfterTrailer(CRLF + t) == Some(t)
  {
    var s := CRLF + t;
    assert s[0] == 13 && s[1] == 10 && s[2..] == t;
  }

  lemma LastDecodes(t: seq<Byte>)
    ensures Decode(LAST + t) == Some(([], t))
  {
    FirstOfLast(t);
    EmptyTrailer(t);
  }

  lemma ChunkDecodes(data: seq<Byte>, t: seq<Byte>)
    requires data != [] && Decode(t).Some?
    ensures Decode(Chunk(data) + t) == Some((data + Decode(t).value.0, Decode(t).value.1))
  {
    FirstOfChunk(data, t);
  }

  /** What is sent decodes to the recorded bytes, and nothing is left over or missing. */
  lemma {:induction false} RoundTrip(chunks: seq<seq<Byte>>, t: seq<Byte>)
    ensures Decode(Framed(chunks) + t) == Some((Flatten(chunks), t))
  {
    if chunks == [] {
      LastDecodes(t);
    } else {
      RoundTrip(chunks[1..], t);
      if chunks[0] != [] {
        ChunkDecodes(chunks[0], Framed(chunks[1..]) + t);
        Regroup(Chunk(chunks[0]), Framed(chunks[1..]), t);
      } else {
        assert chunks[0] + Flatten(chunks[1..]) == Flatten(chunks[1..]);
      }
    }
  }

  /** An upload that broke off is never taken for a complete one. */
  lemma PrefixIsIncomplete(chunks: seq<seq<Byte>>, n: nat)
    requires n < |Framed(chunks)|
    ensures Decode(Framed(chunks)[..n]).None?
  {
    var s := Framed(chunks);
    RoundTrip(chunks, []);
    assert s + [] == s && s[..n] + s[n..] == s;
    if Decode(s[..n]).Some? { DecodeExtends(s[..n], s[n..]); }
  }

  // The pump.

  /** `write_all` on a connection that breaks after `room` bytes. */
  function WriteAll(sent: seq<Byte>, bytes: seq<Byte>, room: nat): (r: (seq<Byte>, bool))
    requires |sent| <= room
    ensures |r.0| <= room
  {
    if |sent| + |bytes| <= room then (sent + bytes, true) else ((sent + bytes)[..room], false)
  }

  lemma WriteTwice(sent: seq<Byte>, a: seq<Byte>, b: seq<Byte>, room: nat)
    requires |sent| <= room
    ensures WriteAll(sent, a, room).1 ==> WriteAll(WriteAll(sent, a, room).0, b, room) == WriteAll(sent, a + b, room)
    ensures !WriteAll(sent, a, room).1 ==> WriteAll(sent, a, room) == WriteAll(sent, a + b, room)
  {
    assert sent + (a + b) == sent + a + b;
    if |sent| + |a| > room { assert (sent + a + b)[..room] == (sent + a)[..room]; }
  }

  lemma NextChunk(chunks: seq<seq<Byte>>, i: nat, sent: seq<Byte>)
    requires i < |chunks| && sent + Framed(chunks[i..]) == Framed(chunks)
    ensures (if chunks[i] == [] then sent else sent + Chunk(chunks[i])) + Framed(chunks[i + 1..]) == Framed(chunks)
  {
    assert chunks[i..][1..] == chunks[i + 1..];
    if chunks[i] != [] {
      assert sent + Chunk(chunks[i]) + Framed(chunks[i + 1..]) == sent + (Chunk(chunks[i]) + Framed(chunks[i + 1..]));
    }
  }

  lemma CutShort(all: seq<Byte>, sent: seq<Byte>, bytes: seq<Byte>, rest: seq<Byte>, room: nat)
    requires all == sent + bytes + rest && |sent| <= room && !WriteAll(sent, bytes, room).1
    ensures room < |all| && WriteAll(sent, bytes, room).0 == all[..room]
  {
  }

  /** One chunk, in three writes. */
  method PumpChunk(data: seq<Byte>, sent: seq<Byte>, room: nat) returns (w: (seq<Byte>, bool))
    requires |sent| <= room
    ensures w == WriteAll(sent, Chunk(data), room)
  {
    var head := Hex(|data|) + CRLF;
    WriteTwice(sent, head, data, room);
    WriteTwice(sent, head + data, CRLF, room);
    w := WriteAll(sent, head, room);
    if w.1 { w := WriteAll(w.0, data, room); }
    if w.1 { w := WriteAll(w.0, CRLF, room); }
  }

  /** `pump_v1` up to the recorder's answer: everything is sent, or the body is cut where the connection broke
      and then does not decode. */
  method Pump(chunks: seq<seq<Byte>>, room: nat) returns (sent: seq<Byte>, ok: bool)
    ensures ok <==> |Framed(chunks)| <= room
    ensures sent == if ok then Framed(chunks) else Framed(chunks)[..room]
  {
    sent := [];
    var i := 0;
    while i < |chunks|
      invariant 0 <= i <= |chunks| && |sent| <= room
      invariant sent + Framed(chunks[i..]) == Framed(chunks)
    {
      NextChunk(chunks, i, sent);
      if chunks[i] != [] {
        var w := PumpChunk(chunks[i], sent, room);
        if !w.1 {
          CutShort(Framed(chunks), sent, Chunk(chunks[i]), Framed(chunks[i + 1..]), room);
          return w.0, false;
        }
        sent := w.0;
      }
      i := i + 1;
    }
    var w := WriteAll(sent, LAST, room);
    assert sent + LAST == Framed(chunks);
    sent, ok := w.0, w.1;
  }

  /** The recorder decodes a whole body exactly when the pump sent everything, and then it is the recording. */
  lemma RecorderSeesWholeOrNothing(chunks: seq<seq<Byte>>, room: nat)
    ensures var all := Framed(chunks);
            Decode(if |all| <= room then all else all[..room]) ==
            if |all| <= room then Some((Flatten(chunks), [])) else None
  {
    RoundTrip(chunks, []);
    assert Framed(chunks) + [] == Framed(chunks);
    if room < |Framed(chunks)| { PrefixIsIncomplete(chunks, room); }
  }
}
