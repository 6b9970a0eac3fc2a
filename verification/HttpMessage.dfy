/**
  Reading an HTTP/1.1 response field by field, as sections 2 to 5 of RFC 9112 describe it, and what that makes of a
  response printed by `localapi::response` (src/tsnet.rs). Nothing here looks at how the printer works.
 */
module HttpMessage {
  import opened Wrappers
  import opened Bytes
  import opened Search
  import opened HttpResponse

  // The reader.

  /** A line and what follows its end. */
  function ReadLine(s: seq<Byte>): Option<(seq<Byte>, seq<Byte>)> {
    var end := Find(s, CRLF);
    if end.None? || end.value + 2 > |s| then None else Some((s[..end.value], s[end.value + 2..]))
  }

  function Split(s: seq<Byte>, b: Byte): Option<(seq<Byte>, seq<Byte>)> {
    var at := Find(s, [b]);
    if at.None? || at.value >= |s| then None else Some((s[..at.value], s[at.value + 1..]))
  }

  predicate IsBlank(b: Byte) { b == 32 || b == 9 }

  function TrimLeft(s: seq<Byte>): seq<Byte> { if s != [] && IsBlank(s[0]) then TrimLeft(s[1..]) else s }

  function TrimRight(s: seq<Byte>): seq<Byte> {
    if s != [] && IsBlank(s[|s| - 1]) then TrimRight(s[..|s| - 1]) else s
  }

  /** Blanks around a field value do not belong to it. */
  function Trim(s: seq<Byte>): seq<Byte> { TrimRight(TrimLeft(s)) }

  /** A name, a colon and a value. */
  function Field(line: seq<Byte>): Option<Header> {
    var parts := Split(line, 58);
    if parts.None? then None else Some(Header(parts.value.0, Trim(parts.value.1)))
  }

  /** The fields up to the blank line, and the body after it. */
  function ReadFields(s: seq<Byte>): Option<(seq<Header>, seq<Byte>)>
    decreases |s|
  {
    var l := ReadLine(s);
    if l.None? then None
    else if l.value.0 == [] then Some(([], l.value.1))
    else
      var f, more := Field(l.value.0), ReadFields(l.value.1);
      if f.None? || more.None? then None else Some(([f.value] + more.value.0, more.value.1))
  }

  datatype Status = Status(version: seq<Byte>, code: nat, reason: seq<Byte>)

  function ReadStatus(line: seq<Byte>): Option<Status> {
    var a := Split(line, 32);
    if a.None? then None else
    var b := Split(a.value.1, 32);
    if b.None? then None else
    var code := DigitsValue(b.value.0);
    if code.None? then None else Some(Status(a.value.0, code.value, b.value.1))
  }

  datatype Message = Message(status: Status, fields: seq<Header>, body: seq<Byte>)

  function ReadMessage(s: seq<Byte>): Option<Message> {
    var l := ReadLine(s);
    if l.None? then None else
    var status, more := ReadStatus(l.value.0), ReadFields(l.value.1);
    if status.None? || more.None? then None else Some(Message(status.value, more.value.0, more.value.1))
  }

  // What it reads of a line.

  lemma LineRead(line: seq<Byte>, t: seq<Byte>)
    requires NoReturns(line)
    ensures ReadLine(line + CRLF + t) == Some((line, t))
  {
    var s := line + (CRLF + t);
    NoneWithoutReturns(line, CRLF + t, CRLF, |line|);
    FindPast(line, CRLF + t, CRLF);
    assert (CRLF + t)[..2] == CRLF;
    Regroup(line, CRLF, t);
    assert s[..|line|] == line && s[|line| + 2..] == t;
  }

  lemma {:induction false} NoByteBefore(a: seq<Byte>, b: Byte, t: seq<Byte>, k: nat)
    requires b !in a && k <= |a|
    ensures Misses(a + t, [b], k)
  {
    if k > 0 {
      NoByteBefore(a, b, t, k - 1);
      assert (a + t)[k - 1..k][0] == a[k - 1];
    }
  }

  lemma SplitAt(a: seq<Byte>, b: Byte, t: seq<Byte>)
    requires b !in a
    ensures Split(a + ([b] + t), b) == Some((a, t))
  {
    var s := a + ([b] + t);
    NoByteBefore(a, b, [b] + t, |a|);
    FindPast(a, [b] + t, [b]);
    assert ([b] + t)[..1] == [b];
    assert s[..|a|] == a && s[|a| + 1..] == t;
  }

  lemma FieldRead(name: seq<Byte>, value: seq<Byte>)
    requires 58 !in name
    ensures Field(name + [58, 32] + value) == Some(Header(name, Trim(value)))
  {
    SplitAt(name, 58, [32] + value);
    assert name + [58, 32] + value == name + ([58] + ([32] + value));
    assert ([32] + value)[1..] == value;
  }

  // What it reads of lines.

  predicate IsField(line: seq<Byte>) { line != [] && NoReturns(line) && Field(line).Some? }

  /** Lines that hold a field each. */
  predicate AreFields(lines: seq<seq<Byte>>) {
    forall i :: 0 <= i < |lines| ==> IsField(lines[i])
  }

  lemma {:induction false} FieldsRead(lines: seq<seq<Byte>>, body: seq<Byte>)
    requires AreFields(lines)
    ensures var r := ReadFields(Text(lines) + CRLF + body);
            && r.Some? && r.value.1 == body && |r.value.0| == |lines|
            && forall i :: 0 <= i < |lines| ==> Some(r.value.0[i]) == Field(lines[i])
  {
    if lines == [] {
      LineRead([], body);
      assert Text(lines) + CRLF + body == [] + CRLF + body;
    } else {
      var rest := Text(lines[1..]) + CRLF + body;
      FieldsRead(lines[1..], body);
      assert Text(lines) + CRLF + body == lines[0] + CRLF + rest;
      LineRead(lines[0], rest);
      FieldsNext(lines[0], rest);
    }
  }

  lemma FieldsNext(line: seq<Byte>, rest: seq<Byte>)
    requires line != [] && NoReturns(line) && Field(line).Some? && ReadFields(rest).Some?
    ensures var more := ReadFields(rest).value;
            ReadFields(line + CRLF + rest) == Some(([Field(line).value] + more.0, more.1))
  {
    LineRead(line, rest);
  }

  lemma {:induction false} HeaderLineAt(headers: seq<Header>, i: nat)
    requires i < |headers|
    ensures |HeaderLines(headers)| == |headers|
    ensures HeaderLines(headers)[i] == headers[i].name + [58, 32] + headers[i].value
  {
    if i > 0 {
      HeaderLineAt(headers[1..], i - 1);
    } else {
      HeaderCount(headers);
    }
  }

  lemma {:induction false} HeaderCount(headers: seq<Header>)
    ensures |HeaderLines(headers)| == |headers|
  {
    if headers != [] { HeaderCount(headers[1..]); }
  }

  predicate Clean(headers: seq<Header>) {
    forall i :: 0 <= i < |headers| ==>
      58 !in headers[i].name && NoReturns(headers[i].name) && NoReturns(headers[i].value)
  }

  // The printed fields.

  predicate Spells(bytes: seq<Byte>, text: string) {
    |bytes| == |text| && forall i :: 0 <= i < |text| ==> bytes[i] == text[i] as int
  }

  lemma TrimGraphic(s: seq<Byte>)
    requires Graphic(s)
    ensures Trim(s) == s
  {
  }

  lemma StatusRead(code: nat, reason: seq<Byte>)
    ensures ReadStatus(StatusLine(code, reason)) == Some(Status(VERSION[..8], code, reason))
    ensures Spells(VERSION[..8], "HTTP/1.1")
  {
    VersionSpells();
    NumeralIsGraphic(code);
    NumeralValue(code);
    StatusOf(VERSION, Numeral(code), code, reason);
  }

  lemma VersionSpells()
    ensures Spells(VERSION[..8], "HTTP/1.1") && |VERSION| == 9 && VERSION[8] == 32 && 32 !in VERSION[..8]
  {
  }

  lemma StatusOf(start: seq<Byte>, w: seq<Byte>, code: nat, reason: seq<Byte>)
    requires |start| == 9 && start[8] == 32 && 32 !in start[..8] && 32 !in w && DigitsValue(w) == Some(code)
    ensures ReadStatus(start + (w + ([32] + reason))) == Some(Status(start[..8], code, reason))
  {
    SplitAt(w, 32, reason);
    SplitAt(start[..8], 32, w + ([32] + reason));
    assert start == start[..8] + [32];
    Regroup(start[..8], [32], w + ([32] + reason));
  }

  /** A line that is `start`, which names a field, and a value. */
  lemma StartedRead(line: seq<Byte>, start: seq<Byte>, n: nat, value: seq<Byte>)
    requires line == start + value && |start| == n + 2 && start[n] == 58 && start[n + 1] == 32
    requires Graphic(start[..n]) && 58 !in start[..n] && NoReturns(value)
    ensures IsField(line) && Field(line) == Some(Header(start[..n], Trim(value)))
  {
    FieldRead(start[..n], value);
    assert start == start[..n] + [58, 32];
    assert start[..n] + [58, 32] + value == line;
    assert forall k :: 0 <= k < n ==> line[k] == start[..n][k];
  }

  lemma TypeRead(line: seq<Byte>, contentType: seq<Byte>)
    requires line == CONTENT_TYPE + contentType && NoReturns(contentType)
    ensures IsField(line) && Spells(Field(line).value.name, "Content-Type")
    ensures Field(line).value.value == Trim(contentType)
  {
    StartedRead(line, CONTENT_TYPE, 12, contentType);
  }

  lemma LengthRead(line: seq<Byte>, length: nat)
    requires line == CONTENT_LENGTH + Numeral(length)
    ensures IsField(line) && Spells(Field(line).value.name, "Content-Length")
    ensures DigitsValue(Field(line).value.value) == Some(length)
  {
    NumeralValue(length);
    NumeralIsTrim(length);
    StartedRead(line, CONTENT_LENGTH, 14, Numeral(length));
  }

  lemma NumeralIsTrim(n: nat)
    ensures Trim(Numeral(n)) == Numeral(n) && NoReturns(Numeral(n))
  {
    NumeralIsGraphic(n);
    TrimGraphic(Numeral(n));
  }

  lemma ConnectionRead(line: seq<Byte>)
    requires line == CONNECTION + CLOSE
    ensures IsField(line) && Spells(Field(line).value.name, "Connection") && Spells(Field(line).value.value, "close")
  {
    ConnectionSpells();
    GraphicRead(line, CONNECTION, 10, CLOSE);
  }

  lemma ConnectionSpells()
    ensures Spells(CONNECTION[..10], "Connection") && Spells(CLOSE, "close") && Graphic(CLOSE)
    ensures Graphic(CONNECTION[..10]) && 58 !in CONNECTION[..10]
  {
  }

  lemma GraphicRead(line: seq<Byte>, start: seq<Byte>, n: nat, value: seq<Byte>)
    requires line == start + value && |start| == n + 2 && start[n] == 58 && start[n + 1] == 32
    requires Graphic(start[..n]) && 58 !in start[..n] && Graphic(value)
    ensures IsField(line) && Field(line) == Some(Header(start[..n], value))
  {
    TrimGraphic(value);
    StartedRead(line, start, n, value);
  }

  lemma HeaderLineRead(headers: seq<Header>, i: nat)
    requires Clean(headers) && i < |headers|
    ensures |HeaderLines(headers)| == |headers|
    ensures var line := HeaderLines(headers)[i];
            && line != [] && NoReturns(line)
            && Field(line) == Some(Header(headers[i].name, Trim(headers[i].value)))
  {
    HeaderLineAt(headers, i);
    FieldRead(headers[i].name, headers[i].value);
  }

  /** The fields of a response after the three that every response has. */
  predicate Extras(fields: seq<Header>, headers: seq<Header>) {
    && |fields| == 3 + |headers|
    && forall i :: 0 <= i < |headers| ==> fields[3 + i] == Header(headers[i].name, Trim(headers[i].value))
  }

  lemma LinesRead(fixed: seq<seq<Byte>>, headers: seq<Header>, body: seq<Byte>)
    requires |fixed| == 3 && AreFields(fixed) && Clean(headers)
    ensures var r := ReadFields(Text(fixed + HeaderLines(headers)) + CRLF + body);
            && r.Some? && r.value.1 == body && Extras(r.value.0, headers)
            && forall i :: 0 <= i < 3 ==> Some(r.value.0[i]) == Field(fixed[i])
  {
    HeadersAreFields(headers);
    JoinedFields(fixed, HeaderLines(headers));
    FieldsRead(fixed + HeaderLines(headers), body);
    var fields := ReadFields(Text(fixed + HeaderLines(headers)) + CRLF + body).value.0;
    ExtrasAre(fields, fixed, HeaderLines(headers), headers);
  }

  lemma ExtrasAre(fields: seq<Header>, fixed: seq<seq<Byte>>, more: seq<seq<Byte>>, headers: seq<Header>)
    requires |fixed| == 3 && |more| == |headers| && |fields| == |fixed + more|
    requires forall i :: 0 <= i < |fields| ==> Some(fields[i]) == Field((fixed + more)[i])
    requires forall i :: 0 <= i < |headers| ==>
      Field(more[i]) == Some(Header(headers[i].name, Trim(headers[i].value)))
    ensures Extras(fields, headers)
    ensures forall i :: 0 <= i < 3 ==> Some(fields[i]) == Field(fixed[i])
  {
    forall i | 0 <= i < |headers| ensures fields[3 + i] == Header(headers[i].name, Trim(headers[i].value)) {
      assert (fixed + more)[3 + i] == more[i];
    }
  }

  lemma JoinedFields(a: seq<seq<Byte>>, b: seq<seq<Byte>>)
    requires AreFields(a) && AreFields(b)
    ensures AreFields(a + b)
  {
  }

  lemma HeadersAreFields(headers: seq<Header>)
    requires Clean(headers)
    ensures |HeaderLines(headers)| == |headers| && AreFields(HeaderLines(headers))
    ensures forall i :: 0 <= i < |headers| ==>
      Field(HeaderLines(headers)[i]) == Some(Header(headers[i].name, Trim(headers[i].value)))
  {
    HeaderCount(headers);
    forall i | 0 <= i < |headers|
      ensures IsField(HeaderLines(headers)[i])
      ensures Field(HeaderLines(headers)[i]) == Some(Header(headers[i].name, Trim(headers[i].value)))
    {
      HeaderLineRead(headers, i);
    }
  }

  lemma FirstAndMore(a: seq<Byte>, b: seq<Byte>, c: seq<Byte>, d: seq<Byte>, more: seq<seq<Byte>>, body: seq<Byte>)
    ensures Text([a, b, c, d] + more) + CRLF + body == a + CRLF + (Text([b, c, d] + more) + CRLF + body)
  {
    var lines := [a, b, c, d] + more;
    assert lines[0] == a && lines[1..] == [b, c, d] + more;
    RegroupText(a + CRLF, Text(lines[1..]), CRLF, body);
  }

  lemma RegroupText(a: seq<Byte>, b: seq<Byte>, c: seq<Byte>, d: seq<Byte>)
    ensures a + b + c + d == a + (b + c + d)
  {
  }

  predicate FixedAre(fixed: seq<seq<Byte>>, contentType: seq<Byte>, length: nat) {
    && |fixed| == 3 && fixed[0] == CONTENT_TYPE + contentType
    && fixed[1] == CONTENT_LENGTH + Numeral(length) && fixed[2] == CONNECTION + CLOSE
  }

  lemma ResponseParts(code: nat, reason: seq<Byte>, contentType: seq<Byte>, body: seq<Byte>, headers: seq<Header>)
    returns (fixed: seq<seq<Byte>>)
    ensures FixedAre(fixed, contentType, |body|)
    ensures Response(code, reason, contentType, body, headers) ==
            StatusLine(code, reason) + CRLF + (Text(fixed + HeaderLines(headers)) + CRLF + body)
  {
    var a, b, c := CONTENT_TYPE + contentType, CONTENT_LENGTH + Numeral(|body|), CONNECTION + CLOSE;
    fixed := [a, b, c];
    FirstAndMore(StatusLine(code, reason), a, b, c, HeaderLines(headers), body);
  }

  lemma StatusHasNoReturns(code: nat, reason: seq<Byte>)
    requires NoReturns(reason)
    ensures NoReturns(StatusLine(code, reason))
  {
    NumeralHasNoReturns(code);
  }

  /** The three fields every response has. */
  predicate Fixed(fields: seq<Header>, contentType: seq<Byte>, length: nat) {
    && |fields| >= 3
    && Spells(fields[0].name, "Content-Type") && fields[0].value == Trim(contentType)
    && Spells(fields[1].name, "Content-Length") && DigitsValue(fields[1].value) == Some(length)
    && Spells(fields[2].name, "Connection") && Spells(fields[2].value, "close")
  }

  lemma FixedAreFields(fixed: seq<seq<Byte>>, contentType: seq<Byte>, length: nat)
    requires FixedAre(fixed, contentType, length) && NoReturns(contentType)
    ensures AreFields(fixed)
  {
    TypeRead(fixed[0], contentType);
    LengthRead(fixed[1], length);
    ConnectionRead(fixed[2]);
  }

  lemma FixedRead(fields: seq<Header>, fixed: seq<seq<Byte>>, contentType: seq<Byte>, length: nat)
    requires FixedAre(fixed, contentType, length) && NoReturns(contentType) && |fields| >= 3
    requires forall i :: 0 <= i < 3 ==> Some(fields[i]) == Field(fixed[i])
    ensures Fixed(fields, contentType, length)
  {
    TypeRead(fixed[0], contentType);
    LengthRead(fixed[1], length);
    ConnectionRead(fixed[2]);
  }

  /** A printed response reads as what it was printed from: version, code and reason, the content type, the length
      of the body, `Connection: close`, every extra field in order, and the body. */
  lemma MessageIs(code: nat, reason: seq<Byte>, contentType: seq<Byte>, body: seq<Byte>, headers: seq<Header>)
    requires NoReturns(reason) && NoReturns(contentType) && Clean(headers)
    ensures var m := ReadMessage(Response(code, reason, contentType, body, headers));
            && m.Some? && m.value.body == body
            && Spells(m.value.status.version, "HTTP/1.1")
            && m.value.status.code == code && m.value.status.reason == reason
            && Fixed(m.value.fields, contentType, |body|) && Extras(m.value.fields, headers)
  {
    var fixed := ResponseParts(code, reason, contentType, body, headers);
    var rest := Text(fixed + HeaderLines(headers)) + CRLF + body;
    StatusHasNoReturns(code, reason);
    LineRead(StatusLine(code, reason), rest);
    StatusRead(code, reason);
    FixedAreFields(fixed, contentType, |body|);
    LinesRead(fixed, headers, body);
    FixedRead(ReadFields(rest).value.0, fixed, contentType, |body|);
  }
}
