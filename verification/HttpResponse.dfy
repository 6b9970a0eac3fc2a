/**
  The LocalAPI's hand-written HTTP: `localapi::response` prints a response and `parse_response` reads it back
  (src/tsnet.rs). Text is its UTF-8 bytes.
 */
module HttpResponse {
  import opened Wrappers
  import opened Bytes
  import opened Search

  // The printer.

  function Numeral(n: nat): (s: seq<Byte>)
    ensures |s| >= 1
  {
    if n < 10 then [48 + n] else Numeral(n / 10) + [48 + n % 10]
  }

  /** `HTTP/1.1 ` */
  const VERSION: seq<Byte> := [72, 84, 84, 80, 47, 49, 46, 49, 32]
  /** `Content-Type: ` */
  const CONTENT_TYPE: seq<Byte> := [67, 111, 110, 116, 101, 110, 116, 45, 84, 121, 112, 101, 58, 32]
  /** `Content-Length: ` */
  const CONTENT_LENGTH: seq<Byte> := [67, 111, 110, 116, 101, 110, 116, 45, 76, 101, 110, 103, 116, 104, 58, 32]
  /** `Connection: ` */
  const CONNECTION: seq<Byte> := [67, 111, 110, 110, 101, 99, 116, 105, 111, 110, 58, 32]
  /** `close` */
  const CLOSE: seq<Byte> := [99, 108, 111, 115, 101]

  datatype Header = Header(name: seq<Byte>, value: seq<Byte>)

  function StatusLine(code: nat, reason: seq<Byte>): seq<Byte> { VERSION + (Numeral(code) + ([32] + reason)) }

  function HeaderLines(headers: seq<Header>): seq<seq<Byte>> {
    if headers == [] then []
    else [headers[0].name + [58, 32] + headers[0].value] + HeaderLines(headers[1..])
  }

  function FixedLines(code: nat, reason: seq<Byte>, contentType: seq<Byte>, length: nat): seq<seq<Byte>> {
    [StatusLine(code, reason), CONTENT_TYPE + contentType, CONTENT_LENGTH + Numeral(length), CONNECTION + CLOSE]
  }

  function Lines(code: nat, reason: seq<Byte>, contentType: seq<Byte>, length: nat, headers: seq<Header>)
    : seq<seq<Byte>>
  {
    FixedLines(code, reason, contentType, length) + HeaderLines(headers)
  }

  /** Every line with its line end. */
  function Text(lines: seq<seq<Byte>>): seq<Byte> {
    if lines == [] then [] else lines[0] + CRLF + Text(lines[1..])
  }

  function Response(code: nat, reason: seq<Byte>, contentType: seq<Byte>, body: seq<Byte>, headers: seq<Header>)
    : seq<Byte>
  {
    Text(Lines(code, reason, contentType, |body|, headers)) + CRLF + body
  }

  // The parser.

  /** The length of the white space character that `s` starts with, or zero. */
  function Space(s: seq<Byte>): nat {
    if |s| >= 1 && (9 <= s[0] <= 13 || s[0] == 32) then 1
    else if |s| >= 2 && s[0] == 0xC2 && (s[1] == 0x85 || s[1] == 0xA0) then 2
    else if |s| >= 3 && s[..3] == [0xE1, 0x9A, 0x80] then 3
    else if |s| >= 3 && s[0] == 0xE2 && s[1] == 0x80 && (0x80 <= s[2] <= 0x8A || s[2] in {0xA8, 0xA9, 0xAF}) then 3
    else if |s| >= 3 && s[..3] == [0xE2, 0x81, 0x9F] then 3
    else if |s| >= 3 && s[..3] == [0xE3, 0x80, 0x80] then 3
    else 0
  }

  function SkipSpace(s: seq<Byte>): seq<Byte>
    decreases |s|
  {
    if 0 < Space(s) <= |s| then SkipSpace(s[Space(s)..]) else s
  }

  /** The bytes up to the next white space. */
  function Word(s: seq<Byte>): (w: seq<Byte>)
    ensures |w| <= |s|
  {
    if s == [] || Space(s) > 0 then [] else [s[0]] + Word(s[1..])
  }

  /** `split_whitespace().nth(1)` */
  function SecondWord(s: seq<Byte>): Option<seq<Byte>> {
    var first := SkipSpace(s);
    var second := SkipSpace(first[|Word(first)|..]);
    if second == [] then None else Some(Word(second))
  }

  function DigitsValue(s: seq<Byte>): Option<nat> {
    if s == [] then None else
    var low := s[|s| - 1] as int - 48;
    if !(0 <= low < 10) then None
    else if |s| == 1 then Some(low)
    else
      var high := DigitsValue(s[..|s| - 1]);
      if high.None? then None else Some(10 * high.value + low)
  }

  /** `parse::<u16>()` */
  function ParseU16(s: seq<Byte>): Option<nat> {
    var v := DigitsValue(if s != [] && s[0] == 43 then s[1..] else s);
    if v.Some? && v.value < 0x1_0000 then v else None
  }

  /** The first of the parts between line ends. */
  function FirstLine(s: seq<Byte>): seq<Byte> {
    var end := Find(s, CRLF);
    if end.Some? && end.value <= |s| then s[..end.value] else s
  }

  /** `parse_response` */
  function ParseResponse(s: seq<Byte>, utf8: seq<Byte> -> bool): Option<(nat, seq<Byte>)> {
    var end := Find(s, BLANK_LINE);
    if end.None? || end.value + 4 > |s| then None
    else if !utf8(s[..end.value]) then None
    else
      var word := SecondWord(FirstLine(s[..end.value]));
      if word.None? then None else
      var code := ParseU16(word.value);
      if code.None? then None else Some((code.value, s[end.value + 4..]))
  }

  // Where the head ends.

  predicate NoReturns(s: seq<Byte>) { forall i :: 0 <= i < |s| ==> s[i] != 13 }

  lemma EndNeedsReturns(s: seq<Byte>, j: nat)
    ensures At(s, BLANK_LINE, j) ==> s[j] == 13 && s[j + 2] == 13
  {
    if At(s, BLANK_LINE, j) { assert s[j] == s[j..j + 4][0] && s[j + 2] == s[j..j + 4][2]; }
  }

  lemma NoEndAt(line: seq<Byte>, t: seq<Byte>, j: nat)
    requires NoReturns(line) && t != [] && t[0] != 13 && j < |line| + 2
    ensures !At(line + CRLF + t, BLANK_LINE, j)
  {
    EndNeedsReturns(line + CRLF + t, j);
  }

  lemma {:induction false} NoEndBefore(line: seq<Byte>, t: seq<Byte>, k: nat)
    requires NoReturns(line) && t != [] && t[0] != 13 && k <= |line + CRLF|
    ensures Misses(line + CRLF + t, BLANK_LINE, k)
  {
    if k > 0 {
      NoEndBefore(line, t, k - 1);
      NoEndAt(line, t, k - 1);
    }
  }

  lemma FindPastLine(line: seq<Byte>, t: seq<Byte>)
    requires NoReturns(line) && t != [] && t[0] != 13
    ensures var r := Find(t, BLANK_LINE);
            Find(line + CRLF + t, BLANK_LINE) == if r.Some? then Some(r.value + |line + CRLF|) else None
  {
    NoEndBefore(line, t, |line + CRLF|);
    FindPast(line + CRLF, t, BLANK_LINE);
  }

  lemma FindAtOnce(t: seq<Byte>)
    ensures Find(CRLF + (CRLF + t), BLANK_LINE) == Some(0)
  {
    assert (CRLF + (CRLF + t))[..4] == BLANK_LINE;
  }

  /** Neither a line end nor a blank line starts where there is no carriage return. */
  lemma {:induction false} NoneWithoutReturns(a: seq<Byte>, t: seq<Byte>, needle: seq<Byte>, k: nat)
    requires NoReturns(a) && needle != [] && needle[0] == 13 && k <= |a|
    ensures Misses(a + t, needle, k)
  {
    if k > 0 {
      NoneWithoutReturns(a, t, needle, k - 1);
      var s := a + t;
      assert k - 1 + |needle| <= |s| ==> s[k - 1..k - 1 + |needle|][0] == a[k - 1];
    }
  }

  lemma FindAtLastLine(line: seq<Byte>, body: seq<Byte>)
    requires NoReturns(line)
    ensures Find(line + (CRLF + (CRLF + body)), BLANK_LINE) == Some(|line|)
  {
    var t := CRLF + (CRLF + body);
    NoneWithoutReturns(line, t, BLANK_LINE, |line|);
    FindPast(line, t, BLANK_LINE);
    FindAtOnce(body);
  }

  /** With no carriage return inside a line, the first blank line is the one that ends the head. */
  lemma {:induction false} HeadEnds(lines: seq<seq<Byte>>, body: seq<Byte>)
    requires lines != [] && forall i :: 0 <= i < |lines| ==> lines[i] != [] && NoReturns(lines[i])
    ensures Find(Text(lines) + CRLF + body, BLANK_LINE) == Some(|Text(lines)| - 2)
  {
    if |lines| == 1 {
      LastLineEnds(lines, body);
    } else {
      HeadEnds(lines[1..], body);
      LineBefore(lines, body);
    }
  }

  lemma LastLineEnds(lines: seq<seq<Byte>>, body: seq<Byte>)
    requires |lines| == 1 && lines[0] != [] && NoReturns(lines[0])
    ensures Find(Text(lines) + CRLF + body, BLANK_LINE) == Some(|Text(lines)| - 2)
  {
    FindAtLastLine(lines[0], body);
    assert Text(lines) + CRLF + body == lines[0] + (CRLF + (CRLF + body));
  }

  lemma LineBefore(lines: seq<seq<Byte>>, body: seq<Byte>)
    requires |lines| > 1 && lines[0] != [] && NoReturns(lines[0]) && lines[1] != [] && NoReturns(lines[1])
    requires Find(Text(lines[1..]) + CRLF + body, BLANK_LINE) == Some(|Text(lines[1..])| - 2)
    ensures Find(Text(lines) + CRLF + body, BLANK_LINE) == Some(|Text(lines)| - 2)
  {
    var more := Text(lines[1..]);
    assert Text(lines) + CRLF + body == lines[0] + CRLF + (more + CRLF + body);
    assert (more + CRLF + body)[0] == lines[1][0];
    FindPastLine(lines[0], more + CRLF + body);
  }

  // What the status line says.

  predicate Graphic(s: seq<Byte>) { forall i :: 0 <= i < |s| ==> 33 <= s[i] < 127 }

  lemma {:induction false} WordOf(w: seq<Byte>, t: seq<Byte>)
    requires Graphic(w) && t != [] && t[0] == 32
    ensures Word(w + t) == w
  {
    if w == [] {
      assert w + t == t;
    } else {
      WordOf(w[1..], t);
      GraphicIsNoSpace(w + t);
      assert (w + t)[1..] == w[1..] + t;
    }
  }

  lemma GraphicIsNoSpace(s: seq<Byte>)
    requires s != [] && 33 <= s[0] < 127
    ensures Space(s) == 0
  {
  }

  lemma SkipNothing(s: seq<Byte>)
    requires s != [] && 33 <= s[0] < 127
    ensures SkipSpace(s) == s
  {
  }

  lemma SkipOne(s: seq<Byte>)
    requires s != [] && 33 <= s[0] < 127
    ensures SkipSpace([32] + s) == s
  {
    SkipNothing(s);
    assert ([32] + s)[1..] == s;
  }

  lemma {:induction false} NumeralIsGraphic(n: nat)
    ensures Graphic(Numeral(n)) && 48 <= Numeral(n)[0] < 58
  {
    if n >= 10 { NumeralIsGraphic(n / 10); }
  }

  lemma {:induction false} NumeralValue(n: nat)
    ensures DigitsValue(Numeral(n)) == Some(n)
  {
    if n >= 10 {
      NumeralValue(n / 10);
      assert Numeral(n)[..|Numeral(n)| - 1] == Numeral(n / 10);
    }
  }

  lemma SecondWordOfStatus(code: nat, reason: seq<Byte>)
    ensures SecondWord(StatusLine(code, reason)) == Some(Numeral(code))
  {
    var line := StatusLine(code, reason);
    var rest := Numeral(code) + ([32] + reason);
    var first := VERSION[..8];
    NumeralIsGraphic(code);
    SkipNothing(line);
    assert line == first + ([32] + rest);
    WordOf(first, [32] + rest);
    assert line[8..] == [32] + rest;
    SkipOne(rest);
    WordOf(Numeral(code), [32] + reason);
  }

  lemma FirstLinePast(a: seq<Byte>, t: seq<Byte>)
    requires NoReturns(a)
    ensures FirstLine(a + t) == a + FirstLine(t)
  {
    NoneWithoutReturns(a, t, CRLF, |a|);
    FindPast(a, t, CRLF);
    FindIsFirst(t, CRLF);
  }

  lemma NumeralParses(code: nat)
    requires code < 0x1_0000
    ensures ParseU16(Numeral(code)) == Some(code)
  {
    NumeralIsGraphic(code);
    NumeralValue(code);
  }

  lemma StartHasNoReturns(code: nat)
    ensures NoReturns(VERSION + (Numeral(code) + [32]))
  {
    NumeralIsGraphic(code);
  }

  /** What is left of the status line when it is cut after the code still says the code. */
  lemma CodeOf(code: nat, t: seq<Byte>)
    ensures SecondWord(FirstLine(VERSION + (Numeral(code) + [32]) + t)) == Some(Numeral(code))
  {
    StartHasNoReturns(code);
    FirstLinePast(VERSION + (Numeral(code) + [32]), t);
    SecondWordOfStatus(code, FirstLine(t));
    StatusParts(Numeral(code), FirstLine(t));
  }

  lemma StatusParts(w: seq<Byte>, reason: seq<Byte>)
    ensures VERSION + (w + ([32] + reason)) == VERSION + (w + [32]) + reason
  {
  }

  // The round trip.

  /** Cutting valid text before a carriage return leaves valid text, as it does in UTF-8. */
  ghost predicate TextIsValid(head: seq<Byte>, utf8: seq<Byte> -> bool) {
    forall n :: 0 <= n < |head| && head[n] == 13 ==> utf8(head[..n])
  }

  /** What a response says up to the blank line. */
  function Head(code: nat, reason: seq<Byte>, contentType: seq<Byte>, length: nat, headers: seq<Header>): seq<Byte> {
    Text(Lines(code, reason, contentType, length, headers)) + CRLF
  }

  lemma {:induction false} TextEndsLine(lines: seq<seq<Byte>>)
    requires lines != []
    ensures |Text(lines)| >= 2 && Text(lines)[|Text(lines)| - 2..] == CRLF
  {
    if |lines| > 1 { TextEndsLine(lines[1..]); }
  }

  /** The first blank line is found, no later than where the head ends, and after the code. */
  lemma HeadIsFound(head: seq<Byte>, start: seq<Byte>, body: seq<Byte>)
    requires |head| >= 4 && head[|head| - 4..] == BLANK_LINE && start <= head && NoReturns(start)
    ensures var r := Find(head + body, BLANK_LINE);
            && r.Some? && |start| <= r.value <= |head| - 4 && head[r.value] == 13
            && (r.value == |head| - 4 <==> Find(head, BLANK_LINE) == Some(|head| - 4))
  {
    var s, e := head + body, |head| - 4;
    FindIsFirst(s, BLANK_LINE);
    assert s[e..e + 4] == head[e..];
    assert At(s, BLANK_LINE, e);
    var p := Find(s, BLANK_LINE).value;
    EndNeedsReturns(s, p);
    assert s[p] == head[p];
    FindInPrefix(s, BLANK_LINE, |head|);
    assert s[..|head|] == head;
  }

  lemma HeadParts(code: nat, reason: seq<Byte>, contentType: seq<Byte>, length: nat, headers: seq<Header>)
    ensures var head := Head(code, reason, contentType, length, headers);
            var start := VERSION + (Numeral(code) + [32]);
            |head| >= 4 && head[|head| - 4..] == BLANK_LINE && start <= head && NoReturns(start)
  {
    var lines := Lines(code, reason, contentType, length, headers);
    TextEndsLine(lines);
    var text := Text(lines);
    assert (text + CRLF)[|text| - 2..] == BLANK_LINE;
    StatusParts(Numeral(code), reason);
    assert StatusLine(code, reason) <= text;
    StartHasNoReturns(code);
  }

  /** The code always comes back; so does the body exactly when the head's first blank line is its last. */
  lemma ParsedIs(code: nat, reason: seq<Byte>, contentType: seq<Byte>, body: seq<Byte>, headers: seq<Header>,
                 utf8: seq<Byte> -> bool)
    requires code < 0x1_0000 && TextIsValid(Head(code, reason, contentType, |body|, headers), utf8)
    ensures var head := Head(code, reason, contentType, |body|, headers);
            var r := ParseResponse(Response(code, reason, contentType, body, headers), utf8);
            && r.Some? && r.value.0 == code
            && (r.value.1 == body <==> Find(head, BLANK_LINE) == Some(|head| - 4))
  {
    var head := Head(code, reason, contentType, |body|, headers);
    var start := VERSION + (Numeral(code) + [32]);
    HeadParts(code, reason, contentType, |body|, headers);
    HeadIsFound(head, start, body);
    var s := head + body;
    var p := Find(s, BLANK_LINE).value;
    CutIs(head, start, body, p);
    CodeOf(code, head[|start|..p]);
    NumeralParses(code);
    BodyIs(head, body, p);
  }

  lemma CutIs(head: seq<Byte>, start: seq<Byte>, body: seq<Byte>, p: nat)
    requires start <= head && |start| <= p <= |head|
    ensures (head + body)[..p] == start + head[|start|..p] == head[..p]
  {
  }

  lemma BodyIs(head: seq<Byte>, body: seq<Byte>, p: nat)
    requires p + 4 <= |head|
    ensures (head + body)[p + 4..] == body <==> p + 4 == |head|
  {
    assert |(head + body)[p + 4..]| == |head| - p - 4 + |body|;
    assert (head + body)[|head|..] == body;
  }

  lemma BlankReasonIsInHead(code: nat, contentType: seq<Byte>, length: nat, headers: seq<Header>)
    ensures var head := Head(code, BLANK_LINE, contentType, length, headers);
            var start := VERSION + (Numeral(code) + [32]);
            start + BLANK_LINE <= head && |start + BLANK_LINE| < |head|
  {
    var lines := Lines(code, BLANK_LINE, contentType, length, headers);
    StatusParts(Numeral(code), BLANK_LINE);
    assert lines[0] == VERSION + (Numeral(code) + [32]) + BLANK_LINE;
    assert lines[0] <= Text(lines);
  }

  lemma FoundEarly(head: seq<Byte>, start: seq<Byte>)
    requires start + BLANK_LINE <= head && |start + BLANK_LINE| < |head|
    ensures Find(head, BLANK_LINE) != Some(|head| - 4)
  {
    FindIsFirst(head, BLANK_LINE);
    assert head[|start|..|start| + 4] == BLANK_LINE;
    assert At(head, BLANK_LINE, |start|);
  }

  /** A reason that is itself a blank line: another body comes back, whatever the other fields are. */
  lemma BlankReasonLosesBody(code: nat, contentType: seq<Byte>, body: seq<Byte>, headers: seq<Header>,
                             utf8: seq<Byte> -> bool)
    requires code < 0x1_0000 && TextIsValid(Head(code, BLANK_LINE, contentType, |body|, headers), utf8)
    ensures var r := ParseResponse(Response(code, BLANK_LINE, contentType, body, headers), utf8);
            r.Some? && r.value.0 == code && r.value.1 != body
  {
    ParsedIs(code, BLANK_LINE, contentType, body, headers, utf8);
    BlankReasonIsInHead(code, contentType, |body|, headers);
    FoundEarly(Head(code, BLANK_LINE, contentType, |body|, headers), VERSION + (Numeral(code) + [32]));
  }

  // Fields without carriage returns.

  lemma {:induction false} HeaderLinesAreLines(headers: seq<Header>)
    requires forall h :: h in headers ==> NoReturns(h.name) && NoReturns(h.value)
    ensures forall l :: l in HeaderLines(headers) ==> l != [] && NoReturns(l)
  {
    if headers != [] { HeaderLinesAreLines(headers[1..]); }
  }

  lemma {:induction false} NumeralHasNoReturns(n: nat)
    ensures NoReturns(Numeral(n))
  {
    NumeralIsGraphic(n);
  }

  lemma LinesAreLines(code: nat, reason: seq<Byte>, contentType: seq<Byte>, length: nat, headers: seq<Header>,
                      l: seq<Byte>)
    requires NoReturns(reason) && NoReturns(contentType)
    requires forall h :: h in headers ==> NoReturns(h.name) && NoReturns(h.value)
    requires l in Lines(code, reason, contentType, length, headers)
    ensures l != [] && NoReturns(l)
  {
    NumeralHasNoReturns(code);
    NumeralHasNoReturns(length);
    HeaderLinesAreLines(headers);
  }

  /** Whatever the body holds, blank lines included, a response with fields free of carriage returns is read
      back as its code and its body. */
  lemma RoundTrip(code: nat, reason: seq<Byte>, contentType: seq<Byte>, body: seq<Byte>, headers: seq<Header>,
                  utf8: seq<Byte> -> bool)
    requires code < 0x1_0000 && TextIsValid(Head(code, reason, contentType, |body|, headers), utf8)
    requires NoReturns(reason) && NoReturns(contentType)
    requires forall h :: h in headers ==> NoReturns(h.name) && NoReturns(h.value)
    ensures ParseResponse(Response(code, reason, contentType, body, headers), utf8) == Some((code, body))
  {
    var lines := Lines(code, reason, contentType, |body|, headers);
    forall i | 0 <= i < |lines| ensures lines[i] != [] && NoReturns(lines[i]) {
      LinesAreLines(code, reason, contentType, |body|, headers, lines[i]);
    }
    HeadEnds(lines, []);
    assert Text(lines) + CRLF + [] == Text(lines) + CRLF;
    ParsedIs(code, reason, contentType, body, headers, utf8);
  }

  // The code.

  lemma {:induction false} TextConcat(a: seq<seq<Byte>>, b: seq<seq<Byte>>)
    ensures Text(a + b) == Text(a) + Text(b)
  {
    if a == [] {
      assert a + b == b;
    } else {
      TextConcat(a[1..], b);
      Regroup(a[0] + CRLF, Text(a[1..]), Text(b));
      assert (a + b)[0] == a[0] && (a + b)[1..] == a[1..] + b;
    }
  }

  /** `response` */
  method PrintResponse(code: nat, reason: seq<Byte>, contentType: seq<Byte>, body: seq<Byte>, headers: seq<Header>)
    returns (out: seq<Byte>)
    ensures out == Response(code, reason, contentType, body, headers)
  {
    ghost var fixed := FixedLines(code, reason, contentType, |body|);
    var head := FixedHead(code, reason, contentType, |body|);
    var i := 0;
    while i < |headers|
      invariant 0 <= i <= |headers|
      invariant head + Text(HeaderLines(headers[i..])) == Text(fixed) + Text(HeaderLines(headers))
    {
      HeaderNext(headers, i, head);
      head := head + headers[i].name + [58, 32] + headers[i].value + CRLF;
      i := i + 1;
    }
    TextConcat(fixed, HeaderLines(headers));
    out := head + CRLF + body;
  }

  method FixedHead(code: nat, reason: seq<Byte>, contentType: seq<Byte>, length: nat) returns (head: seq<Byte>)
    ensures head == Text(FixedLines(code, reason, contentType, length))
  {
    var a, b, c := StatusLine(code, reason), CONTENT_TYPE + contentType, CONTENT_LENGTH + Numeral(length);
    FourLines(a, b, c, CONNECTION + CLOSE);
    head := a + CRLF + b + CRLF + c + CRLF + (CONNECTION + CLOSE) + CRLF;
  }

  lemma FourLines(a: seq<Byte>, b: seq<Byte>, c: seq<Byte>, d: seq<Byte>)
    ensures Text([a, b, c, d]) == a + CRLF + b + CRLF + c + CRLF + d + CRLF
  {
    assert [a, b, c, d] == [a] + ([b] + ([c] + [d]));
    TextConcat([a], [b] + ([c] + [d]));
    TextConcat([b], [c] + [d]);
    TextConcat([c], [d]);
    assert forall x :: Text([x]) == x + CRLF;
  }

  lemma HeaderNext(headers: seq<Header>, i: nat, head: seq<Byte>)
    requires i < |headers|
    ensures head + Text(HeaderLines(headers[i..])) ==
            head + headers[i].name + [58, 32] + headers[i].value + CRLF + Text(HeaderLines(headers[i + 1..]))
  {
    assert headers[i..][1..] == headers[i + 1..];
    var line := headers[i].name + [58, 32] + headers[i].value;
    var more := HeaderLines(headers[i + 1..]);
    assert HeaderLines(headers[i..]) == [line] + more;
    assert ([line] + more)[1..] == more;
    assert Text([line] + more) == line + CRLF + Text(more);
  }
}
