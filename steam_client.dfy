/**
 * The two pure helpers of the market client: the cleaner that turns a
 * displayed price such as "$1.23", "1,23€" or "₺45,99" into a number, and
 * the builder of an item's listing URL, which percent-encodes the item name
 * as `urllib.parse.quote(name, safe="")` does (UTF-8 bytes; the unreserved
 * characters of section 2.3 of RFC 3986 kept, every other byte written as
 * `%XX` with upper-case hexadecimal digits, as section 2.1 of RFC 3986
 * recommends).
 */
module SteamClient {
  import opened Wrappers
  import opened Numerals

  // ---------------------------------------------------------------------
  // Price cleaning
  // ---------------------------------------------------------------------

  /** The characters the cleaner keeps: ASCII digits and the two separators. */
  predicate IsPriceChar(c: char) {
    IsDigit(c) || c == ',' || c == '.'
  }

  /** The characters `str.isspace()` accepts, which `str.strip()` removes. */
  predicate IsSpace(c: char) {
    || ('\U{9}' <= c <= '\U{D}')
    || ('\U{1C}' <= c <= '\U{20}')
    || c == '\U{85}' || c == '\U{A0}' || c == '\U{1680}'
    || ('\U{2000}' <= c <= '\U{200A}')
    || c == '\U{2028}' || c == '\U{2029}' || c == '\U{202F}' || c == '\U{205F}' || c == '\U{3000}'
  }

  /** `s.lstrip()`: the longest suffix of `s` that does not start with whitespace. */
  function TrimStart(s: string): (r: string)
    ensures |r| <= |s| && r == s[|s| - |r|..]
    ensures forall i :: 0 <= i < |s| - |r| ==> IsSpace(s[i])
    ensures r != [] ==> !IsSpace(r[0])
  {
    if s != [] && IsSpace(s[0]) then TrimStart(s[1..]) else s
  }

  /** `s.rstrip()`: the longest prefix of `s` that does not end with whitespace. */
  function TrimEnd(s: string): (r: string)
    ensures |r| <= |s| && r == s[..|r|]
    ensures forall i :: |r| <= i < |s| ==> IsSpace(s[i])
    ensures r != [] ==> !IsSpace(r[|r| - 1])
  {
    if s != [] && IsSpace(s[|s| - 1]) then TrimEnd(s[..|s| - 1]) else s
  }

  /** `s.strip()`: a slice of `s` that neither starts nor ends with whitespace. */
  function Strip(s: string): (r: string)
    ensures |r| <= |s|
    ensures r != [] ==> !IsSpace(r[0]) && !IsSpace(r[|r| - 1])
    ensures (forall i :: 0 <= i < |s| ==> IsSpace(s[i])) <==> r == []
  {
    TrimEnd(TrimStart(s))
  }

  /** `"".join(ch for ch in s if ch in "0123456789,.")`. */
  function KeepPriceChars(s: string): (r: string)
    ensures forall i :: 0 <= i < |r| ==> IsPriceChar(r[i])
  {
    if s == [] then []
    else if IsPriceChar(s[0]) then [s[0]] + KeepPriceChars(s[1..])
    else KeepPriceChars(s[1..])
  }

  /** The cleaner keeps every digit, comma and dot. */
  lemma {:induction false} KeepCounts(s: string, c: char)
    requires IsPriceChar(c)
    ensures Count(KeepPriceChars(s), c) == Count(s, c)
  {
    if s != [] {
      KeepCounts(s[1..], c);
      if IsPriceChar(s[0]) {
        var r := KeepPriceChars(s);
        assert r[1..] == KeepPriceChars(s[1..]);
      }
    }
  }

  /**
   * The separator rule: with both separators present the commas are
   * thousands separators and are dropped; with commas alone each comma is a
   * decimal separator and becomes a dot.
   */
  function ResolveSeparators(c: string): (r: string)
    ensures ',' !in r
    ensures c != [] ==> r != []
    ensures (forall i :: 0 <= i < |c| ==> IsPriceChar(c[i])) ==> DigitsAndDots(r)
  {
    if ',' in c && '.' in c then
      RemoveCommaShape(c);
      assert Count(RemoveChar(c, ','), '.') == Count(c, '.');
      RemoveChar(c, ',')
    else if ',' in c then ReplaceChar(c, ',', '.')
    else c
  }

  /**
   * The dots of the result are the dots of the text, or its commas when it
   * has no dot; the digits are all kept.
   */
  lemma ResolveCounts(c: string)
    ensures Count(ResolveSeparators(c), '.') == if '.' in c then Count(c, '.') else Count(c, ',')
    ensures forall d :: IsDigit(d) ==> Count(ResolveSeparators(c), d) == Count(c, d)
  {
    if ',' in c && '.' !in c {
      CountReplaceChar(c, ',', '.', '.');
      forall d | IsDigit(d) ensures Count(ResolveSeparators(c), d) == Count(c, d) {
        CountReplaceChar(c, ',', '.', d);
      }
    }
  }

  /** The cleaner keeps every digit. */
  lemma KeepDigits(s: string)
    ensures forall d :: IsDigit(d) ==> Count(KeepPriceChars(s), d) == Count(s, d)
  {
    forall d | IsDigit(d) ensures Count(KeepPriceChars(s), d) == Count(s, d) {
      KeepCounts(s, d);
    }
  }

  /** Dropping the commas of a clean text leaves digits and dots. */
  lemma {:induction false} RemoveCommaShape(c: string)
    ensures (forall i :: 0 <= i < |c| ==> IsPriceChar(c[i])) ==> DigitsAndDots(RemoveChar(c, ','))
  {
    if c != [] && forall i :: 0 <= i < |c| ==> IsPriceChar(c[i]) {
      RemoveCommaShape(c[1..]);
      var r := RemoveChar(c, ',');
      if c[0] != ',' {
        assert r[1..] == RemoveChar(c[1..], ',');
      }
    }
  }

  /** `_parse_price`: `None` for a missing or empty text, otherwise the cleaned text's value. */
  function ParsePrice(raw: Option<string>): (r: Option<real>)
    ensures r.Some? ==> r.value >= 0.0
  {
    if raw.None? || raw.value == "" then None
    else ParseCleaned(KeepPriceChars(Strip(raw.value)))
  }

  /**
   * The second half of `_parse_price`: `None` for an empty cleaned text,
   * otherwise `float` of the text with its separators resolved.
   */
  function ParseCleaned(cleaned: string): (r: Option<real>)
    requires forall i :: 0 <= i < |cleaned| ==> IsPriceChar(cleaned[i])
    ensures cleaned == "" ==> r.None?
    ensures r.Some? ==> r.value >= 0.0
  {
    if cleaned == "" then None
    else
      var resolved := ResolveSeparators(cleaned);
      assert IsDigit(resolved[0]) || resolved[0] == '.';
      ParseFloat(resolved)
  }

  // ---------------------------------------------------------------------
  // Properties of the cleaner
  // ---------------------------------------------------------------------

  /** Cleaning a concatenation cleans each part. */
  lemma {:induction false} KeepAppend(a: string, b: string)
    ensures KeepPriceChars(a + b) == KeepPriceChars(a) + KeepPriceChars(b)
  {
    if a != [] {
      assert (a + b)[0] == a[0] && (a + b)[1..] == a[1..] + b;
      KeepAppend(a[1..], b);
      if IsPriceChar(a[0]) {
        assert KeepPriceChars(a + b) == [a[0]] + KeepPriceChars(a[1..] + b);
        assert KeepPriceChars(a) == [a[0]] + KeepPriceChars(a[1..]);
      } else {
        assert KeepPriceChars(a + b) == KeepPriceChars(a[1..] + b);
      }
    } else {
      assert a + b == b;
    }
  }

  /** Whitespace leaves nothing behind. */
  lemma {:induction false} KeepOfSpaces(s: string)
    requires forall i :: 0 <= i < |s| ==> IsSpace(s[i])
    ensures KeepPriceChars(s) == []
  {
    if s != [] {
      KeepOfSpaces(s[1..]);
    }
  }

  /** Leading whitespace is never kept. */
  lemma TrimStartIsInvisible(s: string)
    ensures KeepPriceChars(TrimStart(s)) == KeepPriceChars(s)
  {
    var t := TrimStart(s);
    var spaces := s[..|s| - |t|];
    assert s == spaces + t;
    forall i | 0 <= i < |spaces| ensures IsSpace(spaces[i]) {
      assert spaces[i] == s[i];
    }
    KeepOfSpaces(spaces);
    KeepAppend(spaces, t);
  }

  /** Trailing whitespace is never kept. */
  lemma TrimEndIsInvisible(s: string)
    ensures KeepPriceChars(TrimEnd(s)) == KeepPriceChars(s)
  {
    var t := TrimEnd(s);
    var spaces := s[|t|..];
    assert s == t + spaces;
    forall i | 0 <= i < |spaces| ensures IsSpace(spaces[i]) {
      assert spaces[i] == s[|t| + i];
    }
    KeepOfSpaces(spaces);
    KeepAppend(t, spaces);
  }

  /** Stripping first makes no difference: whitespace is never kept anyway. */
  lemma StripIsInvisible(s: string)
    ensures KeepPriceChars(Strip(s)) == KeepPriceChars(s)
  {
    TrimStartIsInvisible(s);
    TrimEndIsInvisible(TrimStart(s));
  }

  /** Cleaning a clean text changes nothing. */
  lemma {:induction false} KeepClean(s: string)
    requires forall i :: 0 <= i < |s| ==> IsPriceChar(s[i])
    ensures KeepPriceChars(s) == s
  {
    if s != [] {
      KeepClean(s[1..]);
    }
  }

  /** Two texts with the same count of every digit agree on holding a digit. */
  lemma SameDigitsSameHasDigit(x: string, y: string)
    requires forall d :: IsDigit(d) ==> Count(x, d) == Count(y, d)
    ensures HasDigit(x) <==> HasDigit(y)
  {
    if HasDigit(x) {
      var i :| 0 <= i < |x| && IsDigit(x[i]);
      assert x[i] in x;
      assert Count(y, x[i]) > 0;
      var j :| 0 <= j < |y| && y[j] == x[i];
    }
    if HasDigit(y) {
      var i :| 0 <= i < |y| && IsDigit(y[i]);
      assert y[i] in y;
      assert Count(x, y[i]) > 0;
      var j :| 0 <= j < |x| && x[j] == y[i];
    }
  }

  /** Stripping and the emptiness test aside, a text parses as its cleaned characters. */
  lemma ParsePriceOfText(s: string)
    ensures ParsePrice(Some(s)) == ParseCleaned(KeepPriceChars(s))
  {
    if s != [] {
      StripIsInvisible(s);
    }
  }

  /** A non-empty cleaned text is `float` of its resolved form, which has no sign. */
  lemma ParseCleanedUnsigned(k: string)
    requires forall i :: 0 <= i < |k| ==> IsPriceChar(k[i])
    requires k != []
    ensures ParseCleaned(k) == ParseUnsigned(ResolveSeparators(k))
  {
    var r := ResolveSeparators(k);
    assert IsDigit(r[0]) || r[0] == '.';
  }

  /** Exactly when a cleaned text yields a number. */
  lemma ParseCleanedSucceedsIff(k: string)
    requires forall i :: 0 <= i < |k| ==> IsPriceChar(k[i])
    ensures ParseCleaned(k).Some? <==>
      HasDigit(k) && Count(k, '.') <= 1 && (Count(k, '.') == 0 ==> Count(k, ',') <= 1)
  {
    if k != [] {
      var r := ResolveSeparators(k);
      ResolveCounts(k);
      SameDigitsSameHasDigit(r, k);
      ParseUnsignedSucceedsIff(r);
      ParseCleanedUnsigned(k);
    }
  }

  /**
   * Exactly when the cleaner yields a number, stated on the raw text: it
   * needs a digit and at most one dot, and when there is no dot at most one
   * comma (several commas next to a dot are thousands separators).
   */
  lemma ParsePriceSucceedsIff(s: string)
    ensures ParsePrice(Some(s)).Some? <==>
      HasDigit(s) && Count(s, '.') <= 1 && (Count(s, '.') == 0 ==> Count(s, ',') <= 1)
  {
    var k := KeepPriceChars(s);
    ParsePriceOfText(s);
    ParseCleanedSucceedsIff(k);
    KeepCounts(s, '.');
    KeepCounts(s, ',');
    KeepDigits(s);
    SameDigitsSameHasDigit(k, s);
  }

  /** Everything other than digits, commas and dots is ignored. */
  lemma OnlyPriceCharsMatter(s: string)
    ensures ParsePrice(Some(s)) == ParsePrice(Some(KeepPriceChars(s)))
  {
    var k := KeepPriceChars(s);
    ParsePriceOfText(s);
    ParsePriceOfText(k);
    KeepClean(k);
  }

  /** A text of the form `whole.fraction` is clean and has no comma. */
  lemma DecimalIsClean(s: string, whole: string, frac: string)
    requires s == whole + "." + frac
    requires AllDigits(whole) && AllDigits(frac)
    ensures forall i :: 0 <= i < |s| ==> IsPriceChar(s[i]) && s[i] != ','
  {
    forall i | 0 <= i < |s| ensures IsPriceChar(s[i]) && s[i] != ',' {
      if i < |whole| { assert s[i] == whole[i]; }
      else if i > |whole| { assert s[i] == frac[i - |whole| - 1]; }
    }
  }

  /** The value of a text of the form `whole.fraction`. */
  lemma CleanDecimal(s: string, whole: string, frac: string)
    requires s == whole + "." + frac
    requires AllDigits(whole) && AllDigits(frac) && |whole| + |frac| > 0
    ensures ParsePrice(Some(s)) ==
      Some(DecimalValue(whole, frac))
  {
    DecimalIsClean(s, whole, frac);
    ParsePriceOfText(s);
    KeepClean(s);
    assert ResolveSeparators(s) == s;
    ParseCleanedUnsigned(s);
    ParseUnsignedDecimal(s, whole, frac);
  }

  /** A text with one leading character that is not kept parses as the rest. */
  lemma DropLeading(s: string, c: char, rest: string)
    requires s == [c] + rest && !IsPriceChar(c)
    requires forall i :: 0 <= i < |rest| ==> IsPriceChar(rest[i])
    ensures ParsePrice(Some(s)) == ParsePrice(Some(rest))
  {
    assert KeepPriceChars([c]) == [] by { assert [c][1..] == []; }
    KeepAppend([c], rest);
    KeepClean(rest);
    assert KeepPriceChars(s) == rest;
    OnlyPriceCharsMatter(s);
  }

  /** A text with one trailing character that is not kept parses as the rest. */
  lemma DropTrailing(s: string, rest: string, c: char)
    requires s == rest + [c] && !IsPriceChar(c)
    requires forall i :: 0 <= i < |rest| ==> IsPriceChar(rest[i])
    ensures ParsePrice(Some(s)) == ParsePrice(Some(rest))
  {
    assert KeepPriceChars([c]) == [] by { assert [c][1..] == []; }
    KeepAppend(rest, [c]);
    KeepClean(rest);
    assert KeepPriceChars(s) == rest;
    OnlyPriceCharsMatter(s);
  }

  /** A text of the form `whole,fraction` has the value of `whole.fraction`. */
  lemma DecimalComma(k: string, whole: string, frac: string)
    requires k == whole + "," + frac
    requires AllDigits(whole) && AllDigits(frac) && |whole| + |frac| > 0
    ensures forall i :: 0 <= i < |k| ==> IsPriceChar(k[i])
    ensures ParsePrice(Some(k)) == Some(DecimalValue(whole, frac))
  {
    var d := whole + "." + frac;
    DecimalIsClean(d, whole, frac);
    forall i | 0 <= i < |k| ensures IsPriceChar(k[i]) && k[i] != '.' && ReplaceChar(k, ',', '.')[i] == d[i] {
      if i < |whole| { assert k[i] == whole[i] && d[i] == whole[i]; }
      else if i > |whole| { assert k[i] == frac[i - |whole| - 1] && d[i] == k[i]; }
    }
    assert ReplaceChar(k, ',', '.') == d;
    assert '.' !in k;
    DecimalCommaIsDot(k);
    CleanDecimal(d, whole, frac);
  }

  /**
   * A text of the form `head,rest.fraction` has the value of
   * `headrest.fraction`: the comma is a thousands separator.
   */
  lemma ThousandsDecimal(s: string, head: string, rest: string, whole: string, frac: string)
    requires s == head + "," + rest + "." + frac && whole == head + rest
    requires AllDigits(head) && AllDigits(rest) && AllDigits(frac) && |head| + |rest| + |frac| > 0
    ensures ParsePrice(Some(s)) == Some(DecimalValue(whole, frac))
  {
    var tail := rest + "." + frac;
    DecimalIsClean(tail, rest, frac);
    assert s == head + [','] + tail;
    assert '.' in s by { assert s[|head| + 1 + |rest|] == '.'; }
    ThousandsSeparatorsIgnored(s);
    RemoveOneComma(s, head, tail);
    Regroup(head, rest, frac);
    assert AllDigits(whole) by {
      forall i | 0 <= i < |whole| ensures IsDigit(whole[i]) {
        if i < |head| { assert whole[i] == head[i]; } else { assert whole[i] == rest[i - |head|]; }
      }
    }
    CleanDecimal(whole + "." + frac, whole, frac);
  }

  /** Dropping the one comma between two comma-free texts joins them. */
  lemma RemoveOneComma(s: string, head: string, tail: string)
    requires s == head + [','] + tail
    requires forall i :: 0 <= i < |head| ==> IsDigit(head[i])
    requires forall i :: 0 <= i < |tail| ==> tail[i] != ','
    ensures RemoveChar(s, ',') == head + tail
  {
    assert s == head + ([','] + tail);
    RemoveCharAppend(head, [','] + tail, ',');
    RemoveCharAppend([','], tail, ',');
    assert RemoveChar([','], ',') == [] by { assert [','][1..] == []; }
    assert forall i :: 0 <= i < |head| ==> head[i] != ',';
    RemoveAbsentChar(head, ',');
    RemoveAbsentChar(tail, ',');
  }

  lemma Regroup(head: string, rest: string, frac: string)
    ensures head + (rest + "." + frac) == (head + rest) + "." + frac
  {
  }

  /** The value of a two-digit fraction. */
  lemma TwoDigitFraction(whole: string, frac: string)
    requires AllDigits(whole) && AllDigits(frac) && |frac| == 2
    ensures DecimalValue(whole, frac) ==
      DigitsValue(whole) as real + (10 * DigitValue(frac[0]) + DigitValue(frac[1])) as real / 100.0
  {
    DigitsValueOfTwo(frac);
    assert Pow10(2) == 100;
  }

  /** 1.23 written as `1` and `23`. */
  lemma DollarValue()
    ensures DecimalValue("1", "23") == 1.23
  {
    TwoDigitFraction("1", "23");
    assert DigitsValue("1") == 1 by { assert "1"[..0] == []; }
  }

  /** 45.99 written as `45` and `99`. */
  lemma LiraValue()
    ensures DecimalValue("45", "99") == 45.99
  {
    TwoDigitFraction("45", "99");
    DigitsValueOfTwo("45");
  }

  /** 0.99 written as an empty whole part and `99`. */
  lemma CentsValue()
    ensures DecimalValue("", "99") == 0.99
  {
    TwoDigitFraction("", "99");
  }

  /** 1234.56 written as `1234` and `56`. */
  lemma ThousandsValue()
    ensures DecimalValue("1234", "56") == 1234.56
  {
    TwoDigitFraction("1234", "56");
    DigitsValueOfFour("1234");
  }

  /** A currency sign before `whole.fraction` is ignored. */
  lemma SignThenDecimal(s: string, c: char, d: string, whole: string, frac: string)
    requires s == [c] + d && d == whole + "." + frac && !IsPriceChar(c)
    requires AllDigits(whole) && AllDigits(frac) && |whole| + |frac| > 0
    ensures ParsePrice(Some(s)) == Some(DecimalValue(whole, frac))
  {
    DecimalIsClean(d, whole, frac);
    DropLeading(s, c, d);
    CleanDecimal(d, whole, frac);
  }

  /** A currency sign before `whole,fraction` is ignored. */
  lemma SignThenComma(s: string, c: char, k: string, whole: string, frac: string)
    requires s == [c] + k && k == whole + "," + frac && !IsPriceChar(c)
    requires AllDigits(whole) && AllDigits(frac) && |whole| + |frac| > 0
    ensures ParsePrice(Some(s)) == Some(DecimalValue(whole, frac))
  {
    DecimalComma(k, whole, frac);
    DropLeading(s, c, k);
  }

  /** A currency sign after `whole,fraction` is ignored. */
  lemma CommaThenSign(s: string, k: string, c: char, whole: string, frac: string)
    requires s == k + [c] && k == whole + "," + frac && !IsPriceChar(c)
    requires AllDigits(whole) && AllDigits(frac) && |whole| + |frac| > 0
    ensures ParsePrice(Some(s)) == Some(DecimalValue(whole, frac))
  {
    DecimalComma(k, whole, frac);
    DropTrailing(s, k, c);
  }

  /** Two decimal commas and no dot: there is no number. */
  lemma TwoCommas(s: string, x: string, y: string, z: string)
    requires s == x + "," + y + "," + z && '.' !in s
    ensures ParsePrice(Some(s)) == None
  {
    ParsePriceSucceedsIff(s);
    CountAppend(x + "," + y + ",", z, ',');
    CountAppend(x + "," + y, ",", ',');
    CountAppend(x + ",", y, ',');
    CountAppend(x, ",", ',');
  }

  /** "$1.23": the currency sign goes, the dot is the decimal point. */
  lemma DollarExample(s: string)
    requires s == "$1.23"
    ensures ParsePrice(Some(s)) == Some(1.23)
  {
    SignThenDecimal(s, '$', "1.23", "1", "23");
    DollarValue();
  }

  /** "$.99": a price without a whole part is 0.99, as `float(".99")` is. */
  lemma CentsExample(s: string)
    requires s == "$.99"
    ensures ParsePrice(Some(s)) == Some(0.99)
  {
    assert ".99" == "" + "." + "99";
    SignThenDecimal(s, '$', ".99", "", "99");
    CentsValue();
  }

  /** "1,23€": the currency sign goes, the comma is the decimal separator. */
  lemma EuroExample(s: string)
    requires s == "1,23€"
    ensures ParsePrice(Some(s)) == Some(1.23)
  {
    CommaThenSign(s, "1,23", '€', "1", "23");
    DollarValue();
  }

  /** "₺45,99": a leading lira sign and a decimal comma. */
  lemma LiraExample(s: string)
    requires s == "₺45,99"
    ensures ParsePrice(Some(s)) == Some(45.99)
  {
    SignThenComma(s, '₺', "45,99", "45", "99");
    LiraValue();
  }

  /** "1,234.56": next to a dot, the comma is a thousands separator. */
  lemma ThousandsExample(s: string)
    requires s == "1,234.56"
    ensures ParsePrice(Some(s)) == Some(1234.56)
  {
    ThousandsDecimal(s, "1", "234", "1234", "56");
    ThousandsValue();
  }

  /** "1,2,3" has two decimal commas and no number. */
  lemma TwoCommasExample(s: string)
    requires s == "1,2,3"
    ensures ParsePrice(Some(s)) == None
  {
    TwoCommas(s, "1", "2", "3");
  }

  /** "$" leaves nothing after cleaning. */
  lemma NoDigitsExample(s: string)
    requires s == "$"
    ensures ParsePrice(Some(s)) == None
  {
    ParsePriceSucceedsIff(s);
    assert !IsDigit(s[0]);
  }

  /** With a dot present, commas make no difference. */
  lemma ThousandsSeparatorsIgnored(s: string)
    requires '.' in s
    ensures ParsePrice(Some(s)) == ParsePrice(Some(RemoveChar(s, ',')))
  {
    var t := RemoveChar(s, ',');
    var k, kt := KeepPriceChars(s), KeepPriceChars(t);
    ParsePriceOfText(s);
    ParsePriceOfText(t);
    KeepRemoveChar(s);
    KeepCounts(s, '.');
    assert '.' in k;
    assert '.' in kt by { assert Count(kt, '.') == Count(k, '.'); }
    if ',' !in k {
      RemoveAbsentChar(k, ',');
    }
    assert ResolveSeparators(k) == kt == ResolveSeparators(kt);
  }

  /** Without a dot, a comma reads exactly as a dot would. */
  lemma DecimalCommaIsDot(s: string)
    requires '.' !in s
    ensures ParsePrice(Some(s)) == ParsePrice(Some(ReplaceChar(s, ',', '.')))
  {
    var t := ReplaceChar(s, ',', '.');
    var k, kt := KeepPriceChars(s), KeepPriceChars(t);
    ParsePriceOfText(s);
    ParsePriceOfText(t);
    KeepReplaceChar(s);
    KeepCounts(s, '.');
    assert '.' !in k;
    assert ',' !in kt by { CountReplaceChar(k, ',', '.', ','); }
    if ',' !in k {
      forall i | 0 <= i < |k| ensures kt[i] == k[i] {
        assert k[i] in k;
      }
    }
    assert ResolveSeparators(k) == kt == ResolveSeparators(kt);
  }

  /** Cleaning commutes with dropping commas. */
  lemma {:induction false} KeepRemoveChar(s: string)
    ensures KeepPriceChars(RemoveChar(s, ',')) == RemoveChar(KeepPriceChars(s), ',')
  {
    if s != [] {
      KeepRemoveChar(s[1..]);
      if s[0] != ',' {
        KeepAppend([s[0]], RemoveChar(s[1..], ','));
        if IsPriceChar(s[0]) {
          var k := KeepPriceChars(s);
          assert k[0] == s[0] && k[1..] == KeepPriceChars(s[1..]);
        }
      }
    }
  }

  /** Cleaning commutes with turning commas into dots. */
  lemma {:induction false} KeepReplaceChar(s: string)
    ensures KeepPriceChars(ReplaceChar(s, ',', '.')) == ReplaceChar(KeepPriceChars(s), ',', '.')
  {
    if s != [] {
      KeepReplaceChar(s[1..]);
      var r := ReplaceChar(s, ',', '.');
      assert r == [r[0]] + ReplaceChar(s[1..], ',', '.');
      KeepAppend([r[0]], ReplaceChar(s[1..], ',', '.'));
      if IsPriceChar(s[0]) {
        var k := KeepPriceChars(s);
        assert k[0] == s[0] && k[1..] == KeepPriceChars(s[1..]);
      }
    }
  }

  /** Removing a character that is not there changes nothing. */
  lemma {:induction false} RemoveAbsentChar(s: string, c: char)
    requires c !in s
    ensures RemoveChar(s, c) == s
  {
    if s != [] {
      assert c !in s[1..];
      RemoveAbsentChar(s[1..], c);
    }
  }

  // ---------------------------------------------------------------------
  // Percent-encoding of item names
  // ---------------------------------------------------------------------

  type Byte = b: int | 0 <= b < 256

  /** Code points `char` can hold: the Unicode scalar values. */
  predicate IsScalar(c: int) {
    0 <= c < 0xD800 || 0xE000 <= c < 0x11_0000
  }

  /** UTF-8 encoding of one character (section 3 of RFC 3629). */
  function Utf8EncodeChar(ch: char): (bs: seq<Byte>)
    ensures 1 <= |bs| <= 4
    ensures |bs| == 1 <==> ch as int < 0x80
    ensures |bs| == 1 ==> bs[0] == ch as int
  {
    var c := ch as int;
    if c < 0x80 then [c]
    else if c < 0x800 then [0xC0 + c / 64, 0x80 + c % 64]
    else if c < 0x1_0000 then [0xE0 + c / 4096, 0x80 + (c / 64) % 64, 0x80 + c % 64]
    else [0xF0 + c / 262144, 0x80 + (c / 4096) % 64, 0x80 + (c / 64) % 64, 0x80 + c % 64]
  }

  /** UTF-8 encoding of a text: `s.encode("utf-8")`. */
  function Utf8Encode(s: string): (bs: seq<Byte>)
    ensures |bs| >= |s|
  {
    if s == [] then [] else Utf8EncodeChar(s[0]) + Utf8Encode(s[1..])
  }

  /** The length of the sequence a lead byte opens (0 for a byte that opens none). */
  function SequenceLength(b: Byte): nat {
    if b < 0x80 then 1
    else if 0xC0 <= b < 0xE0 then 2
    else if 0xE0 <= b < 0xF0 then 3
    else if 0xF0 <= b < 0xF8 then 4
    else 0
  }

  /** The code point a sequence of `|bs|` bytes carries: its payload bits, most significant first. */
  function CodePoint(bs: seq<Byte>): int
    requires 1 <= |bs| <= 4
  {
    if |bs| == 1 then bs[0] as int
    else if |bs| == 2 then (bs[0] as int - 0xC0) * 64 + (bs[1] as int - 0x80)
    else if |bs| == 3 then (bs[0] as int - 0xE0) * 4096 + (bs[1] as int - 0x80) * 64 + (bs[2] as int - 0x80)
    else (bs[0] as int - 0xF0) * 262144 + (bs[1] as int - 0x80) * 4096 + (bs[2] as int - 0x80) * 64 + (bs[3] as int - 0x80)
  }

  /**
   * A decoder for what `Utf8Encode` produces: it reads the length from each
   * lead byte and the code point from the payload bits. It is the left
   * inverse of the encoder; it does not reject every malformed input.
   */
  function Utf8Decode(bs: seq<Byte>): Option<string>
    decreases |bs|
  {
    if bs == [] then Some([])
    else
      var n := SequenceLength(bs[0]);
      if n == 0 || n > |bs| then None
      else
        var c := CodePoint(bs[..n]);
        if !IsScalar(c) then None
        else
          match Utf8Decode(bs[n..])
          case None => None
          case Some(rest) => Some([c as char] + rest)
  }

  lemma SplitSix(c: int)
    requires c >= 0
    ensures c / 4096 == (c / 64) / 64
    ensures c / 262144 == (c / 4096) / 64
  {
    var q1, r1 := c / 64, c % 64;
    var q2, r2 := q1 / 64, q1 % 64;
    assert c == 4096 * q2 + (64 * r2 + r1);
    var q3, r3 := q2 / 64, q2 % 64;
    assert c == 262144 * q3 + (4096 * r3 + 64 * r2 + r1);
  }

  /** Each character's bytes open with the right lead byte and carry its code point. */
  lemma Utf8CharRoundTrip(ch: char)
    ensures SequenceLength(Utf8EncodeChar(ch)[0]) == |Utf8EncodeChar(ch)|
    ensures CodePoint(Utf8EncodeChar(ch)) == ch as int
  {
    var c := ch as int;
    SplitSix(c);
    var q1, r1 := c / 64, c % 64;
    var q2, r2 := q1 / 64, q1 % 64;
    assert c == 64 * q1 + r1;
    assert q1 == 64 * q2 + r2;
  }

  /** Decoding undoes encoding. */
  lemma {:induction false} Utf8RoundTrip(s: string)
    ensures Utf8Decode(Utf8Encode(s)) == Some(s)
  {
    if s != [] {
      var head := Utf8EncodeChar(s[0]);
      var bs := Utf8Encode(s);
      Utf8CharRoundTrip(s[0]);
      assert bs[0] == head[0];
      assert bs[..|head|] == head && bs[|head|..] == Utf8Encode(s[1..]);
      Utf8RoundTrip(s[1..]);
      assert s == [s[0]] + s[1..];
    }
  }

  /** The bytes `quote` never escapes: ASCII letters, digits and `_.-~`. */
  predicate IsUnreserved(b: int) {
    || ('A' as int <= b <= 'Z' as int)
    || ('a' as int <= b <= 'z' as int)
    || ('0' as int <= b <= '9' as int)
    || b == '_' as int || b == '.' as int || b == '-' as int || b == '~' as int
  }

  /** The upper-case hexadecimal digit of `d`. */
  function HexDigit(d: int): (c: char)
    requires 0 <= d < 16
    ensures IsUnreserved(c as int)
  {
    if d < 10 then ('0' as int + d) as char else ('A' as int + d - 10) as char
  }

  predicate IsHexDigit(c: char) {
    '0' <= c <= '9' || 'A' <= c <= 'F'
  }

  function HexValue(c: char): (d: int)
    requires IsHexDigit(c)
    ensures 0 <= d < 16
  {
    if c <= '9' then c as int - '0' as int else c as int - 'A' as int + 10
  }

  /** One byte as `quote` writes it. */
  function QuoteByte(b: Byte): (s: string)
    ensures forall i :: 0 <= i < |s| ==> IsUnreserved(s[i] as int) || s[i] == '%'
  {
    if IsUnreserved(b) then [b as char] else ['%', HexDigit(b / 16), HexDigit(b % 16)]
  }

  /** `quote_from_bytes(bs, safe="")`. */
  function QuoteBytes(bs: seq<Byte>): (s: string)
    ensures forall i :: 0 <= i < |s| ==> IsUnreserved(s[i] as int) || s[i] == '%'
  {
    if bs == [] then ""
    else
      var head, rest := QuoteByte(bs[0]), QuoteBytes(bs[1..]);
      assert forall i :: |head| <= i < |head| + |rest| ==> (head + rest)[i] == rest[i - |head|];
      head + rest
  }

  /** `quote(name, safe="")`: the UTF-8 bytes of the name, percent-encoded. */
  function Quote(name: string): string {
    QuoteBytes(Utf8Encode(name))
  }

  /**
   * Percent-decoding of `quote`'s alphabet: `%XX` with upper-case digits
   * gives the byte `XX`, an unreserved character gives itself, anything
   * else is rejected.
   */
  function Unquote(s: string): Option<seq<Byte>>
    decreases |s|
  {
    if s == [] then Some([])
    else if s[0] == '%' then
      if |s| >= 3 && IsHexDigit(s[1]) && IsHexDigit(s[2]) then
        match Unquote(s[3..])
        case None => None
        case Some(rest) => Some([HexValue(s[1]) * 16 + HexValue(s[2])] + rest)
      else None
    else if IsUnreserved(s[0] as int) then
      match Unquote(s[1..])
      case None => None
      case Some(rest) => Some([s[0] as int] + rest)
    else None
  }

  /** Decoding `quote`'s output gives back the bytes. */
  lemma {:induction false} UnquoteQuoteBytes(bs: seq<Byte>)
    ensures Unquote(QuoteBytes(bs)) == Some(bs)
  {
    if bs != [] {
      var head, rest := QuoteByte(bs[0]), QuoteBytes(bs[1..]);
      var s := head + rest;
      UnquoteQuoteBytes(bs[1..]);
      if IsUnreserved(bs[0]) {
        assert s[0] == bs[0] as char && s[1..] == rest;
      } else {
        var b := bs[0];
        assert s[0] == '%' && s[1] == HexDigit(b / 16) && s[2] == HexDigit(b % 16);
        assert s[3..] == rest;
        assert HexValue(HexDigit(b / 16)) * 16 + HexValue(HexDigit(b % 16)) == b;
      }
      assert bs == [bs[0]] + bs[1..];
    }
  }

  /** Names made of unreserved ASCII characters are left as they are. */
  lemma {:induction false} QuoteKeepsUnreserved(name: string)
    requires forall i :: 0 <= i < |name| ==> IsUnreserved(name[i] as int)
    ensures Quote(name) == name
  {
    if name != [] {
      QuoteKeepsUnreserved(name[1..]);
      var bs := Utf8Encode(name);
      assert bs[0] == name[0] as int && bs[1..] == Utf8Encode(name[1..]);
      assert name == [name[0]] + name[1..];
    }
  }

  /** A name of one ASCII character is quoted as that single byte. */
  lemma QuoteAscii(name: string, b: Byte)
    requires |name| == 1 && name[0] as int == b && b < 0x80
    ensures Quote(name) == QuoteByte(b)
  {
    assert Utf8Encode(name) == [b] by {
      assert name[1..] == [];
    }
    assert QuoteBytes([b]) == QuoteByte(b) + QuoteBytes([]);
  }

  /** Examples: space, `|` and `/` as `quote` writes them. */
  lemma QuoteExamples(space: string, bar: string, slash: string)
    requires space == " " && bar == "|" && slash == "/"
    ensures Quote(space) == "%20"
    ensures Quote(bar) == "%7C"
    ensures Quote(slash) == "%2F"
  {
    QuoteAscii(space, 32);
    assert HexDigit(2) == '2' && HexDigit(0) == '0';
    QuoteAscii(bar, 124);
    assert HexDigit(7) == '7' && HexDigit(12) == 'C';
    QuoteAscii(slash, 47);
    assert HexDigit(15) == 'F';
  }

  /** U+2122 is three UTF-8 bytes: E2 84 A2. */
  lemma TrademarkBytes(c: char)
    requires c as int == 0x2122
    ensures Utf8EncodeChar(c) == [0xE2, 0x84, 0xA2]
  {
    assert c as int / 4096 == 2 && (c as int / 64) % 64 == 4 && c as int % 64 == 34;
  }

  /** Example: the trademark sign U+2122 becomes its three UTF-8 bytes. */
  lemma QuoteTrademark(tm: string)
    requires tm == "\U{2122}"
    ensures Quote(tm) == "%E2%84%A2"
  {
    var bs: seq<Byte> := [0xE2, 0x84, 0xA2];
    TrademarkBytes(tm[0]);
    assert Utf8Encode(tm) == Utf8EncodeChar(tm[0]) + Utf8Encode([]) by {
      assert tm[1..] == [];
    }
    assert Utf8Encode(tm) == bs;
    assert QuoteByte(0xE2) == "%E2" by { assert HexDigit(14) == 'E' && HexDigit(2) == '2'; }
    assert QuoteByte(0x84) == "%84" by { assert HexDigit(8) == '8' && HexDigit(4) == '4'; }
    assert QuoteByte(0xA2) == "%A2" by { assert HexDigit(10) == 'A' && HexDigit(2) == '2'; }
    assert QuoteBytes(bs) == QuoteByte(0xE2) + (QuoteByte(0x84) + (QuoteByte(0xA2) + QuoteBytes([]))) by {
      assert bs[1..] == [0x84, 0xA2];
      assert bs[1..][1..] == [0xA2];
      assert bs[1..][1..][1..] == [];
    }
  }

  // ---------------------------------------------------------------------
  // Listing URLs
  // ---------------------------------------------------------------------

  const MarketBaseUrl: string := "https://steamcommunity.com/market"

  /** The listings of app 730 (Counter-Strike). */
  const ListingsEndpoint: string := MarketBaseUrl + "/listings/730"

  /** `build_listing_url`. */
  function BuildListingUrl(name: string): string {
    ListingsEndpoint + "/" + Quote(name)
  }

  /**
   * The URL is the endpoint and one more path segment, which holds no `/`,
   * `?`, `#` or space and decodes back to the name's UTF-8 bytes.
   */
  lemma ListingUrlShape(name: string)
    ensures var segment := BuildListingUrl(name)[|ListingsEndpoint| + 1..];
      && BuildListingUrl(name) == ListingsEndpoint + "/" + segment
      && '/' !in segment && '?' !in segment && '#' !in segment && ' ' !in segment
      && Unquote(segment) == Some(Utf8Encode(name))
  {
    var segment := Quote(name);
    assert BuildListingUrl(name)[|ListingsEndpoint| + 1..] == segment;
    UnquoteQuoteBytes(Utf8Encode(name));
  }

  /** Different items get different URLs. */
  lemma ListingUrlInjective(a: string, b: string)
    requires BuildListingUrl(a) == BuildListingUrl(b)
    ensures a == b
  {
    var n := |ListingsEndpoint| + 1;
    assert Quote(a) == BuildListingUrl(a)[n..];
    assert Quote(b) == BuildListingUrl(b)[n..];
    UnquoteQuoteBytes(Utf8Encode(a));
    UnquoteQuoteBytes(Utf8Encode(b));
    Utf8RoundTrip(a);
    Utf8RoundTrip(b);
  }
}
