/**
 * Python's `str(int)`, `int(str)`, `float(str)` and the character-level
 * `str.replace` used by the price parsers, restricted to plain signed
 * decimal text (no exponent, no whitespace, no underscores, no `nan`/`inf`).
 * Decimal values are exact `real`s.
 */
module Numerals {
  import opened Wrappers

  predicate IsDigit(c: char) {
    '0' <= c <= '9'
  }

  predicate AllDigits(s: string) {
    forall i :: 0 <= i < |s| ==> IsDigit(s[i])
  }

  function DigitValue(c: char): (d: nat)
    requires IsDigit(c)
    ensures d < 10
  {
    (c as int) - ('0' as int)
  }

  function DigitChar(d: nat): (c: char)
    requires d < 10
    ensures IsDigit(c) && DigitValue(c) == d
  {
    ('0' as int + d) as char
  }

  /** The value of a string of decimal digits, most significant first ("" is 0). */
  function DigitsValue(s: string): nat
    requires AllDigits(s)
  {
    if s == [] then 0 else DigitsValue(s[..|s| - 1]) * 10 + DigitValue(s[|s| - 1])
  }

  lemma DigitsValueOfTwo(s: string)
    requires |s| == 2 && AllDigits(s)
    ensures DigitsValue(s) == 10 * DigitValue(s[0]) + DigitValue(s[1])
  {
    var head := s[..1];
    assert head[..0] == [] && head[0] == s[0];
    assert DigitsValue(head) == DigitValue(s[0]);
  }

  lemma DigitsValueOfFour(s: string)
    requires |s| == 4 && AllDigits(s)
    ensures DigitsValue(s) ==
      1000 * DigitValue(s[0]) + 100 * DigitValue(s[1]) + 10 * DigitValue(s[2]) + DigitValue(s[3])
  {
    assert s[..3][..2] == s[..2];
    DigitsValueOfTwo(s[..2]);
  }

  function Pow10(n: nat): (p: nat)
    ensures p >= 1
  {
    if n == 0 then 1 else 10 * Pow10(n - 1)
  }

  /** Number of occurrences of `c` in `s`. */
  function Count(s: string, c: char): (n: nat)
    ensures n <= |s|
    ensures n == 0 <==> c !in s
  {
    if s == [] then 0 else (if s[0] == c then 1 else 0) + Count(s[1..], c)
  }

  lemma {:induction false} CountAppend(a: string, b: string, c: char)
    ensures Count(a + b, c) == Count(a, c) + Count(b, c)
  {
    if a == [] {
      assert a + b == b;
    } else {
      assert (a + b)[1..] == a[1..] + b;
      CountAppend(a[1..], b, c);
    }
  }

  /** `s.replace(from, to)` for one-character `from` and `to`. */
  function ReplaceChar(s: string, from: char, to: char): (r: string)
    ensures |r| == |s|
    ensures forall i :: 0 <= i < |s| ==> r[i] == (if s[i] == from then to else s[i])
  {
    if s == [] then [] else [if s[0] == from then to else s[0]] + ReplaceChar(s[1..], from, to)
  }

  /** Replacing `from` by `to` moves every `from` onto the count of `to`. */
  lemma {:induction false} CountReplaceChar(s: string, from: char, to: char, d: char)
    requires from != to
    ensures Count(ReplaceChar(s, from, to), d) ==
      if d == to then Count(s, from) + Count(s, to)
      else if d == from then 0
      else Count(s, d)
  {
    if s != [] {
      var r := ReplaceChar(s, from, to);
      assert r[1..] == ReplaceChar(s[1..], from, to);
      CountReplaceChar(s[1..], from, to, d);
    }
  }

  /** `s.replace(c, "")`: every `c` removed, every other character kept in order. */
  function RemoveChar(s: string, c: char): (r: string)
    ensures c !in r
    ensures |r| == |s| - Count(s, c)
    ensures forall d :: d != c ==> Count(r, d) == Count(s, d)
  {
    if s == [] then []
    else if s[0] == c then RemoveChar(s[1..], c)
    else [s[0]] + RemoveChar(s[1..], c)
  }

  /** Removing a character from a concatenation removes it from each part. */
  lemma {:induction false} RemoveCharAppend(a: string, b: string, c: char)
    ensures RemoveChar(a + b, c) == RemoveChar(a, c) + RemoveChar(b, c)
  {
    if a == [] {
      assert a + b == b;
    } else {
      assert (a + b)[0] == a[0] && (a + b)[1..] == a[1..] + b;
      RemoveCharAppend(a[1..], b, c);
    }
  }

  /** `str(n)` for a natural number: decimal digits without leading zeros. */
  function FormatNat(n: nat): (r: string)
    ensures |r| > 0 && AllDigits(r)
    ensures DigitsValue(r) == n
    ensures |r| > 1 ==> r[0] != '0'
  {
    if n < 10 then [DigitChar(n)]
    else
      var init := FormatNat(n / 10);
      var r := init + [DigitChar(n % 10)];
      assert r[..|r| - 1] == init;
      r
  }

  /** `str(n)` for any integer. */
  function FormatInt(n: int): (r: string)
    ensures |r| > 0
  {
    if n < 0 then "-" + FormatNat(-n) else FormatNat(n)
  }

  /** `int(s)`: an optional sign followed by at least one digit. */
  function ParseInt(s: string): (r: Option<int>)
  {
    if |s| > 0 && (s[0] == '+' || s[0] == '-') then
      var body := s[1..];
      if |body| > 0 && AllDigits(body) then
        Some(if s[0] == '-' then -(DigitsValue(body) as int) else DigitsValue(body))
      else None
    else if |s| > 0 && AllDigits(s) then Some(DigitsValue(s))
    else None
  }

  /** Position of the first `c` in `s`, or `|s|` when there is none. */
  function IndexOf(s: string, c: char): (i: nat)
    ensures i <= |s|
    ensures c !in s[..i]
    ensures i < |s| ==> s[i] == c
  {
    if s == [] then 0
    else if s[0] == c then 0
    else
      var i := 1 + IndexOf(s[1..], c);
      assert s[..i] == [s[0]] + s[1..][..i - 1];
      i
  }

  /** The digits before the first dot. */
  function WholePart(s: string): string {
    s[..IndexOf(s, '.')]
  }

  /** The text after the first dot ("" without a dot). */
  function FractionPart(s: string): string {
    var i := IndexOf(s, '.');
    if i < |s| then s[i + 1..] else ""
  }

  /** The text `float` accepts without a sign: digits, at most one `.`, at least one digit. */
  predicate UnsignedShape(s: string) {
    var whole, frac := WholePart(s), FractionPart(s);
    AllDigits(whole) && AllDigits(frac) && |whole| + |frac| > 0
  }

  /** The value of the decimal `whole.frac`. */
  function DecimalValue(whole: string, frac: string): (v: real)
    requires AllDigits(whole) && AllDigits(frac)
    ensures v >= 0.0
  {
    DigitsValue(whole) as real + DigitsValue(frac) as real / Pow10(|frac|) as real
  }

  /** `float(s)` without a sign. */
  function ParseUnsigned(s: string): (r: Option<real>)
    ensures r.Some? <==> UnsignedShape(s)
    ensures r.Some? ==> r.value >= 0.0
  {
    if UnsignedShape(s) then
      var whole, frac := WholePart(s), FractionPart(s);
      Some(DecimalValue(whole, frac))
    else None
  }

  /** `float(s)`: an optional sign followed by an unsigned decimal. */
  function ParseFloat(s: string): (r: Option<real>)
  {
    if |s| > 0 && (s[0] == '+' || s[0] == '-') then
      match ParseUnsigned(s[1..])
      case None => None
      case Some(v) => Some(if s[0] == '-' then -v else v)
    else ParseUnsigned(s)
  }

  predicate HasDigit(s: string) {
    exists i :: 0 <= i < |s| && IsDigit(s[i])
  }

  predicate DigitsAndDots(s: string) {
    forall i :: 0 <= i < |s| ==> IsDigit(s[i]) || s[i] == '.'
  }

  lemma NoDotMeansDigits(s: string)
    requires DigitsAndDots(s) && Count(s, '.') == 0
    ensures AllDigits(s)
    ensures HasDigit(s) <==> |s| > 0
  {
    forall i | 0 <= i < |s| ensures IsDigit(s[i]) {
      assert s[i] in s;
    }
    if |s| > 0 {
      assert IsDigit(s[0]);
    }
  }

  lemma HasDigitConcat(a: string, b: string)
    ensures HasDigit(a + b) <==> HasDigit(a) || HasDigit(b)
  {
    if HasDigit(a + b) {
      var k :| 0 <= k < |a + b| && IsDigit((a + b)[k]);
      if k < |a| { assert a[k] == (a + b)[k]; } else { assert b[k - |a|] == (a + b)[k]; }
    }
    if HasDigit(a) {
      var k :| 0 <= k < |a| && IsDigit(a[k]);
      assert (a + b)[k] == a[k];
    }
    if HasDigit(b) {
      var k :| 0 <= k < |b| && IsDigit(b[k]);
      assert (a + b)[|a| + k] == b[k];
    }
  }

  /** Splitting `s` at its first dot: the part before it and the part after it. */
  lemma {:induction false} SplitAtFirstDot(s: string)
    requires IndexOf(s, '.') < |s|
    ensures var i := IndexOf(s, '.');
      s == s[..i] + ['.'] + s[i + 1..] && Count(s[..i], '.') == 0 &&
      Count(s, '.') == 1 + Count(s[i + 1..], '.')
  {
    var i := IndexOf(s, '.');
    assert s == s[..i] + ['.'] + s[i + 1..];
    CountAppend(s[..i] + ['.'], s[i + 1..], '.');
    CountAppend(s[..i], ['.'], '.');
  }

  lemma DigitsAndDotsSlice(s: string, lo: int, hi: int)
    requires DigitsAndDots(s) && 0 <= lo <= hi <= |s|
    ensures DigitsAndDots(s[lo..hi])
  {
    forall k | 0 <= k < hi - lo ensures IsDigit(s[lo..hi][k]) || s[lo..hi][k] == '.' {
      assert s[lo..hi][k] == s[lo + k];
    }
  }

  lemma DotMeansNotAllDigits(t: string)
    requires Count(t, '.') > 0
    ensures !AllDigits(t)
  {
    var k :| 0 <= k < |t| && t[k] == '.';
    assert !IsDigit(t[k]);
  }

  lemma CountAtFirstDot(s: string)
    requires IndexOf(s, '.') < |s|
    ensures Count(s, '.') == 1 + Count(FractionPart(s), '.')
  {
    SplitAtFirstDot(s);
  }

  lemma WholePartIsDigits(s: string)
    requires DigitsAndDots(s) && IndexOf(s, '.') < |s|
    ensures AllDigits(WholePart(s)) && (HasDigit(WholePart(s)) <==> |WholePart(s)| > 0)
  {
    var i := IndexOf(s, '.');
    SplitAtFirstDot(s);
    DigitsAndDotsSlice(s, 0, i);
    NoDotMeansDigits(s[..i]);
  }

  lemma HasDigitAroundDot(s: string)
    requires IndexOf(s, '.') < |s|
    ensures HasDigit(s) <==> HasDigit(WholePart(s)) || HasDigit(FractionPart(s))
  {
    var i := IndexOf(s, '.');
    var whole, frac := s[..i], s[i + 1..];
    SplitAtFirstDot(s);
    HasDigitConcat(whole + ['.'], frac);
    HasDigitConcat(whole, ['.']);
    assert !HasDigit(['.']);
  }

  lemma FractionPartDigitsAndDots(s: string)
    requires DigitsAndDots(s) && IndexOf(s, '.') < |s|
    ensures DigitsAndDots(FractionPart(s))
  {
    var i := IndexOf(s, '.');
    var frac := s[i + 1..];
    forall k | 0 <= k < |frac| ensures IsDigit(frac[k]) || frac[k] == '.' {
      assert frac[k] == s[i + 1 + k];
    }
  }

  /** The grammar check of `ParseUnsigned` when `s` has a dot. */
  lemma ParseUnsignedAtDot(s: string)
    requires DigitsAndDots(s) && IndexOf(s, '.') < |s|
    ensures UnsignedShape(s) <==> Count(s, '.') <= 1 && HasDigit(s)
  {
    var frac := FractionPart(s);
    CountAtFirstDot(s);
    WholePartIsDigits(s);
    HasDigitAroundDot(s);
    FractionPartDigitsAndDots(s);
    if Count(frac, '.') == 0 {
      NoDotMeansDigits(frac);
    } else {
      DotMeansNotAllDigits(frac);
    }
  }

  /**
   * On text made only of digits and dots, `float` succeeds exactly when
   * there is at most one dot and at least one digit.
   */
  lemma ParseUnsignedSucceedsIff(s: string)
    requires DigitsAndDots(s)
    ensures ParseUnsigned(s).Some? <==> Count(s, '.') <= 1 && HasDigit(s)
  {
    if IndexOf(s, '.') == |s| {
      assert s[..|s|] == s;
      NoDotMeansDigits(s);
    } else {
      ParseUnsignedAtDot(s);
    }
  }

  /** Unsigned text with two or more dots has a non-digit after its first dot. */
  lemma {:induction false} ParseUnsignedRejectsTwoDots(t: string)
    requires Count(t, '.') >= 2
    ensures ParseUnsigned(t) == None
  {
    var i := IndexOf(t, '.');
    assert i < |t|;
    SplitAtFirstDot(t);
    var frac := t[i + 1..];
    assert '.' in frac;
    var k :| 0 <= k < |frac| && frac[k] == '.';
    assert !AllDigits(frac);
  }

  /** Whatever the characters, `float` rejects text holding two or more dots. */
  lemma {:induction false} ParseFloatRejectsTwoDots(s: string)
    requires Count(s, '.') >= 2
    ensures ParseFloat(s) == None
  {
    if |s| > 0 && (s[0] == '+' || s[0] == '-') {
      assert Count(s[1..], '.') >= 2 by {
        assert s == [s[0]] + s[1..];
        CountAppend([s[0]], s[1..], '.');
      }
      ParseUnsignedRejectsTwoDots(s[1..]);
    } else {
      ParseUnsignedRejectsTwoDots(s);
    }
  }

  /** `int(str(n)) == n`. */
  lemma ParseIntFormatInt(n: int)
    ensures ParseInt(FormatInt(n)) == Some(n)
  {
    if n < 0 {
      var s := FormatInt(n);
      assert s[1..] == FormatNat(-n);
    } else {
      var s := FormatNat(n);
      assert IsDigit(s[0]);
    }
  }

  /** `float` of a plain digit string is its value. */
  lemma {:induction false} ParseUnsignedDigits(s: string)
    requires |s| > 0 && AllDigits(s)
    ensures ParseUnsigned(s) == Some(DigitsValue(s) as real)
  {
    assert !IsDigit('.');
    assert '.' !in s;
    assert IndexOf(s, '.') == |s|;
    assert s[..|s|] == s;
  }

  /** `float` of `whole.fraction` is the whole part plus the scaled fraction. */
  lemma ParseUnsignedDecimal(s: string, whole: string, frac: string)
    requires s == whole + "." + frac
    requires AllDigits(whole) && AllDigits(frac) && |whole| + |frac| > 0
    ensures ParseUnsigned(s) ==
      Some(DecimalValue(whole, frac))
  {
    assert IndexOf(s, '.') == |whole| by {
      assert s[..|whole|] == whole && s[|whole|] == '.';
      assert forall j :: 0 <= j < |whole| ==> s[j] == whole[j] && IsDigit(whole[j]);
    }
    assert WholePart(s) == whole;
    assert FractionPart(s) == frac;
  }

  /** `float(str(n)) == n` for an integer `n`. */
  lemma ParseFloatFormatInt(n: int)
    ensures ParseFloat(FormatInt(n)) == Some(n as real)
  {
    var digits := FormatNat(if n < 0 then -n else n);
    ParseUnsignedDigits(digits);
    if n < 0 {
      assert FormatInt(n)[1..] == digits;
    } else {
      assert IsDigit(digits[0]);
    }
  }
}
