/** Decimal numerals as `format!` writes them. */
module Decimal {
  import opened Wrappers

  function Pow10(w: nat): (p: nat)
    ensures p >= 1
  {
    if w == 0 then 1 else 10 * Pow10(w - 1)
  }

  function Digit(d: int): char
    requires 0 <= d < 10
  {
    "0123456789"[d]
  }

  lemma DigitsAreOrdered(a: int, b: int)
    requires 0 <= a < b < 10
    ensures Digit(a) < Digit(b)
  {
  }

  /** `{}`: no leading zeros. */
  function Digits(n: nat): (s: string)
    ensures |s| >= 1
  {
    if n < 10 then [Digit(n)] else Digits(n / 10) + [Digit(n % 10)]
  }

  function Zeros(k: nat): (s: string)
    ensures |s| == k
  {
    if k == 0 then "" else Zeros(k - 1) + "0"
  }

  function PadLeft(s: string, w: nat): string { if |s| >= w then s else Zeros(w - |s|) + s }

  /** `{:0w}`: zero padding to width `w`, the sign counted in the width and put first. */
  function Padded(x: int, w: nat): string {
    if x >= 0 then PadLeft(Digits(x), w)
    else "-" + PadLeft(Digits(-x), if w > 0 then w - 1 else 0)
  }

  /** The `w` low digits. */
  function FixedDigits(x: nat, w: nat): (s: string)
    ensures |s| == w
  {
    if w == 0 then "" else FixedDigits(x / 10, w - 1) + [Digit(x % 10)]
  }

  lemma {:induction false} ZeroDigits(w: nat)
    ensures FixedDigits(0, w) == Zeros(w)
  {
    if w > 0 { ZeroDigits(w - 1); }
  }

  /** A number that fits is written in exactly its low digits. */
  lemma {:induction false} PaddedFits(x: nat, w: nat)
    requires x < Pow10(w) && w >= 1
    ensures |Digits(x)| <= w && PadLeft(Digits(x), w) == FixedDigits(x, w)
  {
    if x < 10 {
      DigitFits(x, w);
    } else {
      assert w > 1;
      PaddedFits(x / 10, w - 1);
      PadThenDigit(Digits(x / 10), w, Digit(x % 10));
    }
  }

  lemma DigitFits(x: nat, w: nat)
    requires x < 10 && w >= 1
    ensures |Digits(x)| <= w && PadLeft(Digits(x), w) == FixedDigits(x, w)
  {
    ZeroDigits(w - 1);
    assert x / 10 == 0 && x % 10 == x;
    assert FixedDigits(x, w) == Zeros(w - 1) + [Digit(x)];
  }

  lemma PadThenDigit(s: string, w: nat, d: char)
    requires |s| < w
    ensures PadLeft(s + [d], w) == PadLeft(s, w - 1) + [d]
  {
    assert Zeros(w - |s| - 1) + (s + [d]) == Zeros(w - |s| - 1) + s + [d];
  }

  /** A number that does not fit is longer. */
  lemma {:induction false} PaddedOverflows(x: nat, w: nat)
    requires x >= Pow10(w)
    ensures |Digits(x)| > w
  {
    if w > 0 { PaddedOverflows(x / 10, w - 1); }
  }

  lemma PaddedLength(x: int, w: nat)
    requires w >= 2
    ensures |Padded(x, w)| == w <==> 0 < x + Pow10(w - 1) && x < Pow10(w)
  {
    if x >= 0 {
      if x < Pow10(w) { PaddedFits(x, w); } else { PaddedOverflows(x, w); }
    } else {
      if -x < Pow10(w - 1) { PaddedFits(-x, w - 1); } else { PaddedOverflows(-x, w - 1); }
    }
  }

  /** Dictionary order. */
  predicate LexLess(a: string, b: string) {
    b != [] && (a == [] || a[0] < b[0] || (a[0] == b[0] && LexLess(a[1..], b[1..])))
  }

  lemma {:induction false} LexAppend(a: string, b: string, c: string, d: string)
    requires |a| == |b| && LexLess(a, b)
    ensures LexLess(a + c, b + d)
  {
    if a[0] == b[0] {
      LexAppend(a[1..], b[1..], c, d);
      assert (a + c)[1..] == a[1..] + c && (b + d)[1..] == b[1..] + d;
    }
  }

  lemma {:induction false} LexPrepend(p: string, a: string, b: string)
    requires LexLess(a, b)
    ensures LexLess(p + a, p + b)
  {
    if p == "" {
      assert p + a == a && p + b == b;
    } else {
      LexPrepend(p[1..], a, b);
      assert (p + a)[1..] == p[1..] + a && (p + b)[1..] == p[1..] + b;
    }
  }

  lemma {:induction false} LexIrreflexive(a: string)
    ensures !LexLess(a, a)
  {
    if a != [] { LexIrreflexive(a[1..]); }
  }

  lemma {:induction false} FixedDigitsOrdered(x: nat, y: nat, w: nat)
    requires x < y < Pow10(w)
    ensures LexLess(FixedDigits(x, w), FixedDigits(y, w))
  {
    if x / 10 < y / 10 {
      FixedDigitsOrdered(x / 10, y / 10, w - 1);
      LexAppend(FixedDigits(x / 10, w - 1), FixedDigits(y / 10, w - 1), [Digit(x % 10)], [Digit(y % 10)]);
    } else {
      DigitsAreOrdered(x % 10, y % 10);
      LexPrepend(FixedDigits(x / 10, w - 1), [Digit(x % 10)], [Digit(y % 10)]);
    }
  }

  /** A field of fixed width decides first, then what follows it. */
  lemma FieldOrdered(x: nat, y: nat, w: nat, r: string, r': string)
    requires x < Pow10(w) && y < Pow10(w)
    requires x < y || (x == y && LexLess(r, r'))
    ensures LexLess(FixedDigits(x, w) + r, FixedDigits(y, w) + r')
  {
    if x < y {
      FixedDigitsOrdered(x, y, w);
      LexAppend(FixedDigits(x, w), FixedDigits(y, w), r, r');
    } else {
      LexPrepend(FixedDigits(x, w), r, r');
    }
  }

  // Numerals that decide an order by themselves, whatever follows them.

  /** The first place where the two differ has the smaller character on the left. */
  predicate Splits(a: string, b: string) {
    a != [] && b != [] && (a[0] < b[0] || (a[0] == b[0] && Splits(a[1..], b[1..])))
  }

  lemma {:induction false} SplitsDecides(a: string, b: string, r: string, r': string)
    requires Splits(a, b)
    ensures LexLess(a + r, b + r') && !LexLess(b + r', a + r)
  {
    assert (a + r)[0] == a[0] && (b + r')[0] == b[0];
    if a[0] == b[0] {
      SplitsDecides(a[1..], b[1..], r, r');
      assert (a + r)[1..] == a[1..] + r && (b + r')[1..] == b[1..] + r';
    }
  }

  lemma {:induction false} SameLengthSplits(a: string, b: string)
    requires |a| == |b| && LexLess(a, b)
    ensures Splits(a, b)
  {
    if a[0] == b[0] { SameLengthSplits(a[1..], b[1..]); }
  }

  lemma SplitsAfter(c: char, a: string, b: string)
    requires Splits(a, b)
    ensures Splits([c] + a, [c] + b)
  {
    assert ([c] + a)[1..] == a && ([c] + b)[1..] == b;
  }

  /** Two numbers of at most `w` digits, padded to `w`. */
  lemma PaddedSplits(x: nat, y: nat, w: nat)
    requires x < y < Pow10(w) && w >= 1
    ensures Splits(PadLeft(Digits(x), w), PadLeft(Digits(y), w))
  {
    PaddedFits(x, w);
    PaddedFits(y, w);
    FixedDigitsOrdered(x, y, w);
    SameLengthSplits(FixedDigits(x, w), FixedDigits(y, w));
  }

  /** A number of `k + 1` digits needs no padding to `k + 1` or less. */
  lemma UnpaddedIs(x: nat, k: nat, w: nat)
    requires Pow10(k) <= x < Pow10(k + 1) && w <= k + 1
    ensures PadLeft(Digits(x), w) == Digits(x) == PadLeft(Digits(x), k + 1)
  {
    PaddedFits(x, k + 1);
    PaddedOverflows(x, k);
  }

  /** Two numbers of the same number of digits. */
  lemma SameDigitsSplit(x: nat, y: nat, k: nat, w: nat)
    requires Pow10(k) <= x < y < Pow10(k + 1) && w <= k + 1
    ensures Splits(PadLeft(Digits(x), w), PadLeft(Digits(y), w))
  {
    UnpaddedIs(x, k, w);
    UnpaddedIs(y, k, w);
    PaddedSplits(x, y, k + 1);
  }

  lemma DigitAfter(n: nat, d: nat)
    requires n >= 1 && d < 10
    ensures Digits(10 * n + d) == Digits(n) + [Digit(d)]
  {
    assert (10 * n + d) / 10 == n && (10 * n + d) % 10 == d;
  }

  lemma {:induction false} PowerDigits(k: nat)
    requires k >= 1
    ensures Digits(Pow10(k))[0] == '1' && |Digits(Pow10(k))| == k + 1
  {
    if k > 1 { PowerDigits(k - 1); }
    DigitAfter(Pow10(k - 1), 0);
  }

  lemma NineAfter(n: nat)
    requires n >= 1
    ensures Digits(10 * n + 9)[0] == Digits(n)[0] && |Digits(10 * n + 9)| == |Digits(n)| + 1
  {
    DigitAfter(n, 9);
  }

  lemma NinesStep(k: nat, n: nat)
    requires k > 1 && n == Pow10(k - 1) - 1
    ensures Pow10(k) - 1 == 10 * n + 9
  {
  }

  lemma {:induction false} NinesDigits(k: nat)
    requires k >= 1
    ensures Digits(Pow10(k) - 1)[0] == '9' && |Digits(Pow10(k) - 1)| == k
  {
    if k > 1 {
      NinesDigits(k - 1);
      var n := Pow10(k - 1) - 1;
      assert n >= 1 by { assert Pow10(k - 1) == 10 * Pow10(k - 2); }
      NineAfter(n);
      NinesStep(k, n);
    }
  }

  /** Where a digit more is needed, the next number sorts first. */
  lemma CarrySplits(k: nat, w: nat)
    requires k >= w >= 1
    ensures Splits(PadLeft(Digits(Pow10(k)), w), PadLeft(Digits(Pow10(k) - 1), w))
  {
    PowerDigits(k);
    NinesDigits(k);
  }

  /** The number of digits, less one. */
  function Decade(n: nat): (k: nat)
    requires n >= 1
    ensures Pow10(k) <= n < Pow10(k + 1)
  {
    if n < 10 then assert Pow10(1) == 10; 0 else 1 + Decade(n / 10)
  }

  lemma {:induction false} Pow10Grows(a: nat, b: nat)
    requires a < b
    ensures 10 * Pow10(a) <= Pow10(b)
  {
    if a < b - 1 { Pow10Grows(a, b - 1); }
  }

  // Reading a numeral back.

  predicate IsDigit(c: char) { '0' <= c <= '9' }

  /** The number that a string of digits stands for. */
  function Value(s: string): Option<int> {
    if s == "" then Some(0) else
    var high, c := Value(s[..|s| - 1]), s[|s| - 1];
    if high.None? || !IsDigit(c) then None else Some(10 * high.value + (c as int - '0' as int))
  }

  function SignedValue(s: string): Option<int> {
    if s != "" && s[0] == '-' then
      Negated(Value(s[1..]))
    else
      Value(s)
  }

  function Negated(v: Option<int>): Option<int> { if v.None? then None else Some(-v.value) }

  lemma DigitIs(d: int)
    requires 0 <= d < 10
    ensures IsDigit(Digit(d)) && Digit(d) as int - '0' as int == d
  {
  }

  lemma ValueAppend(s: string, d: int)
    requires Value(s).Some? && 0 <= d < 10
    ensures Value(s + [Digit(d)]) == Some(10 * Value(s).value + d)
  {
    DigitIs(d);
    assert (s + [Digit(d)])[..|s|] == s;
  }

  lemma {:induction false} ValueOfZeros(k: nat)
    ensures Value(Zeros(k)) == Some(0)
  {
    if k > 0 {
      ValueOfZeros(k - 1);
      ValueAppend(Zeros(k - 1), 0);
    }
  }

  /** Digits after any number of zeros. */
  lemma {:induction false} ValueOfDigits(k: nat, n: nat)
    ensures Value(Zeros(k) + Digits(n)) == Some(n)
  {
    ValueOfZeros(k);
    if n < 10 {
      ValueAppend(Zeros(k), n);
    } else {
      ValueOfDigits(k, n / 10);
      ValueAppend(Zeros(k) + Digits(n / 10), n % 10);
      assert Zeros(k) + Digits(n) == Zeros(k) + Digits(n / 10) + [Digit(n % 10)];
    }
  }

  lemma ValueOfPadded(n: nat, w: nat)
    ensures Value(PadLeft(Digits(n), w)) == Some(n)
  {
    if |Digits(n)| >= w {
      ValueOfDigits(0, n);
      assert Zeros(0) + Digits(n) == Digits(n);
    } else {
      ValueOfDigits(w - |Digits(n)|, n);
    }
  }

  lemma {:induction false} ReadableIsDigits(s: string, i: nat)
    requires Value(s).Some? && i < |s|
    ensures IsDigit(s[i])
  {
    if i < |s| - 1 { ReadableIsDigits(s[..|s| - 1], i); }
  }

  lemma UnsignedReads(s: string)
    requires Value(s).Some?
    ensures SignedValue(s) == Value(s)
  {
    if s != "" { ReadableIsDigits(s, 0); }
  }

  lemma NegativeReads(s: string)
    requires Value(s).Some?
    ensures SignedValue("-" + s) == Some(-Value(s).value)
  {
    assert ("-" + s)[1..] == s;
  }

  lemma NonNegativeReads(x: nat, w: nat)
    ensures Value(Padded(x, w)) == Some(x) && SignedValue(Padded(x, w)) == Some(x)
  {
    ValueOfPadded(x, w);
    UnsignedReads(PadLeft(Digits(x), w));
  }

  lemma NegativePadded(x: int, w: nat, v: nat)
    requires x < 0 && v == if w > 0 then w - 1 else 0
    ensures SignedValue(Padded(x, w)) == Some(x)
  {
    var s := PadLeft(Digits(-x), v);
    ValueOfPadded(-x, v);
    NegativeReads(s);
    assert Padded(x, w) == "-" + s;
  }

  /** What is printed is read back, sign and padding included. */
  lemma PaddedReads(x: int, w: nat, s: string)
    requires s == Padded(x, w)
    ensures SignedValue(s) == Some(x)
  {
    if x >= 0 {
      NonNegativeReads(x, w);
    } else {
      NegativePadded(x, w, if w > 0 then w - 1 else 0);
    }
  }
}
