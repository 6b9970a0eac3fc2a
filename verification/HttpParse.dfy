/**
  What `parse_response` (src/tsnet.rs) accepts, beyond the responses that `localapi::response` prints: where it cuts,
  which word is the code, and what counts as white space and as a number.
 */
module HttpParse {
  import opened Wrappers
  import opened Bytes
  import opened Search
  import opened HttpResponse

  /** The word that is read as the code. */
  function CodeWord(head: seq<Byte>): Option<seq<Byte>> { SecondWord(FirstLine(head)) }

  lemma CutAtBlankLine(s: seq<Byte>, p: nat)
    requires At(s, BLANK_LINE, p)
    ensures s == s[..p] + BLANK_LINE + s[p + 4..]
  {
    assert s == s[..p] + s[p..p + 4] + s[p + 4..];
  }

  /** A response is parsed if and only if it has a blank line, the head before the first one is text, and the second
      word of its first line is a 16-bit number. */
  lemma ParsedExactly(s: seq<Byte>, utf8: seq<Byte> -> bool)
    ensures var end := Find(s, BLANK_LINE);
            ParseResponse(s, utf8).Some? <==>
            && end.Some? && end.value <= |s| && utf8(s[..end.value])
            && CodeWord(s[..end.value]).Some? && ParseU16(CodeWord(s[..end.value]).value).Some?
  {
    FindIsFirst(s, BLANK_LINE);
  }

  /** Then it is its head, the blank line and the body that comes back, and the code is that number. */
  lemma ParsedParts(s: seq<Byte>, utf8: seq<Byte> -> bool)
    requires ParseResponse(s, utf8).Some?
    ensures var end, r := Find(s, BLANK_LINE), ParseResponse(s, utf8).value;
            && end.Some? && end.value <= |s| && s == s[..end.value] + BLANK_LINE + r.1
            && CodeWord(s[..end.value]).Some? && ParseU16(CodeWord(s[..end.value]).value) == Some(r.0) && r.0 < 65536
  {
    FindIsFirst(s, BLANK_LINE);
    CutAtBlankLine(s, Find(s, BLANK_LINE).value);
  }

  // Numbers.

  predicate AreDigits(s: seq<Byte>) { forall i :: 0 <= i < |s| ==> 48 <= s[i] < 58 }

  lemma {:induction false} DigitsValueIs(s: seq<Byte>)
    ensures DigitsValue(s).Some? <==> s != [] && AreDigits(s)
  {
    if |s| > 1 {
      DigitsValueIs(s[..|s| - 1]);
      if DigitsValue(s).Some? {
        assert forall i :: 0 <= i < |s| ==> s[i] == if i < |s| - 1 then s[..|s| - 1][i] else s[|s| - 1];
      }
    }
  }

  /** A number of digits is taken if it is less than 65536, with or without a plus sign. */
  lemma NumberParses(n: nat)
    ensures ParseU16(Numeral(n)) == if n < 65536 then Some(n) else None
    ensures ParseU16([43] + Numeral(n)) == if n < 65536 then Some(n) else None
  {
    NumeralIsGraphic(n);
    NumeralValue(n);
    assert ([43] + Numeral(n))[1..] == Numeral(n);
  }

  /** Nothing but digits after an optional plus sign is a number. */
  lemma OnlyNumbersParse(s: seq<Byte>)
    requires ParseU16(s).Some?
    ensures var digits := if s != [] && s[0] == 43 then s[1..] else s;
            digits != [] && AreDigits(digits)
  {
    DigitsValueIs(if s != [] && s[0] == 43 then s[1..] else s);
  }

  // White space.

  /** The Unicode characters with the property White_Space. */
  predicate IsWhite(c: int) {
    || 9 <= c <= 13 || c == 0x20 || c == 0x85 || c == 0xA0 || c == 0x1680 || 0x2000 <= c <= 0x200A
    || c == 0x2028 || c == 0x2029 || c == 0x202F || c == 0x205F || c == 0x3000
  }

  /** The UTF-8 encoding of a code point (section 3 of RFC 3629). */
  function Utf8(c: int): seq<Byte>
    requires 0 <= c < 0x11_0000
  {
    if c < 0x80 then [c]
    else if c < 0x800 then [0xC0 + c / 0x40, 0x80 + c % 0x40]
    else if c < 0x1_0000 then [0xE0 + c / 0x1000, 0x80 + c / 0x40 % 0x40, 0x80 + c % 0x40]
    else [0xF0 + c / 0x4_0000, 0x80 + c / 0x1000 % 0x40, 0x80 + c / 0x40 % 0x40, 0x80 + c % 0x40]
  }

  /** The parser splits at exactly the characters that Unicode calls white space. */
  lemma SpaceIsWhite(c: int, t: seq<Byte>)
    requires 0 <= c < 0x11_0000
    ensures Space(Utf8(c) + t) == if IsWhite(c) then |Utf8(c)| else 0
  {
    if c < 0x80 {
    } else if c < 0x800 {
      TwoByteSpace(c, Utf8(c) + t);
    } else if c < 0x1_0000 {
      ThreeByteSpace(c, Utf8(c) + t);
    } else {
      assert (Utf8(c) + t)[0] >= 0xF0;
    }
  }

  lemma TwoByteSpace(c: int, s: seq<Byte>)
    requires 0x80 <= c < 0x800 && |s| >= 2 && s[0] == 0xC0 + c / 0x40 && s[1] == 0x80 + c % 0x40
    ensures Space(s) == if IsWhite(c) then 2 else 0
  {
  }

  lemma ThreeByteSpace(c: int, s: seq<Byte>)
    requires 0x800 <= c < 0x1_0000 && |s| >= 3
    requires s[0] == 0xE0 + c / 0x1000 && s[1] == 0x80 + c / 0x40 % 0x40 && s[2] == 0x80 + c % 0x40
    ensures Space(s) == if IsWhite(c) then 3 else 0
  {
    assert s[..3] == [s[0], s[1], s[2]];
  }

  // Words.

  predicate IsGap(s: seq<Byte>) { forall i :: 0 <= i < |s| ==> 9 <= s[i] <= 13 || s[i] == 32 }

  lemma {:induction false} SkipGap(gap: seq<Byte>, s: seq<Byte>)
    requires IsGap(gap) && s != [] && 33 <= s[0] < 127
    ensures SkipSpace(gap + s) == s
  {
    if gap == [] {
      assert gap + s == s;
      SkipNothing(s);
    } else {
      SkipGap(gap[1..], s);
      assert (gap + s)[1..] == gap[1..] + s;
    }
  }

  /** Nothing, or white space first. */
  predicate StartsGap(t: seq<Byte>) { t == [] || 9 <= t[0] <= 13 || t[0] == 32 }

  lemma {:induction false} WordBefore(w: seq<Byte>, t: seq<Byte>)
    requires Graphic(w) && StartsGap(t)
    ensures Word(w + t) == w
  {
    if w == [] {
      assert w + t == t;
    } else {
      WordBefore(w[1..], t);
      GraphicIsNoSpace(w + t);
      assert (w + t)[1..] == w[1..] + t;
    }
  }

  /** Of two words, with white space around and between them as it may be, the second is the code. */
  lemma SecondWordIs(before: seq<Byte>, first: seq<Byte>, between: seq<Byte>, second: seq<Byte>, after: seq<Byte>)
    requires IsGap(before) && IsGap(between) && between != [] && StartsGap(after)
    requires Graphic(first) && Graphic(second) && first != [] && second != []
    ensures SecondWord(before + (first + (between + (second + after)))) == Some(second)
  {
    var rest := between + (second + after);
    SkipGap(before, first + rest);
    WordBefore(first, rest);
    assert (first + rest)[|first|..] == rest;
    SkipGap(between, second + after);
    WordBefore(second, after);
  }
}
