/**
 * The market's timestamp text, e.g. "May 18 2026 01: +0": a month
 * abbreviation, a day, a year and an hour, sometimes minutes, and a " +0"
 * marker. Parsing is soft: every failure is "unknown time" (`None`).
 */
module SteamTimestamp {
  import opened Wrappers
  import opened Numerals
  import opened Calendar
  import opened Fields

  /** The zone marker the market appends; it is removed before parsing. */
  const Marker: string := " +0"

  /** `s.replace(" +0", "")`: one left-to-right pass removing non-overlapping occurrences. */
  function StripMarker(s: string): (r: string)
    ensures |r| <= |s|
  {
    if |s| >= 3 && s[..3] == Marker then StripMarker(s[3..])
    else if s == [] then []
    else [s[0]] + StripMarker(s[1..])
  }

  /** Text without a '+' holds no marker and is left as it is. */
  lemma {:induction false} StripMarkerKeepsPlainText(s: string)
    requires '+' !in s
    ensures StripMarker(s) == s
  {
    if |s| >= 3 {
      assert s[1] in s;
      assert s[..3] != Marker;
    }
    if s != [] {
      assert forall c :: c in s[1..] ==> c in s;
      StripMarkerKeepsPlainText(s[1..]);
      assert s == [s[0]] + s[1..];
    }
  }

  /** Text whose second character is not '+' does not start with the marker. */
  lemma StripMarkerStep(t: string)
    requires |t| >= 2 && t[1] != '+'
    ensures StripMarker(t) == [t[0]] + StripMarker(t[1..])
  {
    if |t| >= 3 {
      assert t[..3][1] == t[1];
    }
  }

  /** A marker after text without a '+' goes, and the rest is stripped in turn. */
  lemma {:induction false} StripMarkerAfterPlain(a: string, b: string)
    requires '+' !in a
    ensures StripMarker(a + Marker + b) == a + StripMarker(b)
  {
    var t := a + Marker + b;
    if a == [] {
      assert t[..3] == Marker && t[3..] == b;
    } else {
      var rest := a[1..] + Marker + b;
      assert t == [a[0]] + rest;
      assert t[1] != '+' by {
        if |a| >= 2 {
          assert t[1] == a[1] && a[1] in a;
        } else {
          assert t[1] == Marker[0];
        }
      }
      StripMarkerStep(t);
      assert t[1..] == rest;
      assert '+' !in a[1..] by { assert forall c :: c in a[1..] ==> c in a; }
      StripMarkerAfterPlain(a[1..], b);
      assert a == [a[0]] + a[1..];
    }
  }

  /** A trailing marker after text without a '+' is removed and nothing else is. */
  lemma StripMarkerRemovesTrailing(s: string)
    requires '+' !in s
    ensures StripMarker(s + Marker) == s
  {
    StripMarkerAfterPlain(s, []);
    assert s + Marker + [] == s + Marker;
  }

  /** The two formats the market uses: "%b %d %Y %H:" and "%b %d %Y %H:%M". */
  datatype Format = HourOnly | HourMinute

  /** The formats in the order they are tried; the first that matches wins. */
  const Formats: seq<Format> := [HourOnly, HourMinute]

  const MonthAbbreviations: seq<string> :=
    ["Jan", "Feb", "Mar", "Apr", "May", "Jun", "Jul", "Aug", "Sep", "Oct", "Nov", "Dec"]

  /** Length of a timestamp in the given format ("Mmm DD YYYY HH:" plus "MM"). */
  function Width(fmt: Format): nat {
    if fmt == HourOnly then 15 else 17
  }

  function FindMonth(s: string, from: nat): (r: Option<int>)
    requires from <= 12
    ensures r.Some? ==> from < r.value <= 12 && MonthAbbreviations[r.value - 1] == s
    ensures r.None? ==> forall m :: from <= m < 12 ==> MonthAbbreviations[m] != s
    decreases 12 - from
  {
    if from == 12 then None
    else if MonthAbbreviations[from] == s then Some(from + 1)
    else FindMonth(s, from + 1)
  }

  /** `%b`: the month number of an English abbreviation. */
  function MonthNumber(s: string): (r: Option<int>)
    ensures r.Some? <==> s in MonthAbbreviations
    ensures r.Some? ==> 1 <= r.value <= 12 && MonthAbbreviations[r.value - 1] == s
  {
    FindMonth(s, 0)
  }

  /** A fixed-width field of digits. */
  function DigitsField(s: string): (r: Option<nat>)
    ensures r.Some? <==> |s| > 0 && AllDigits(s)
    ensures r.Some? ==> r.value == DigitsValue(s)
  {
    if |s| > 0 && AllDigits(s) then Some(DigitsValue(s)) else None
  }

  /** `datetime.strptime(s, fmt)` on the fixed-width grammar. */
  function ParseWith(s: string, fmt: Format): (r: Option<DateTime>)
    ensures r.Some? ==> |s| == Width(fmt) && ValidDateTime(r.value)
    ensures r.Some? && fmt == HourOnly ==> r.value.minute == 0
  {
    if |s| != Width(fmt) || s[3] != ' ' || s[6] != ' ' || s[11] != ' ' || s[14] != ':' then None
    else
      var month := MonthNumber(s[..3]);
      var day := DigitsField(s[4..6]);
      var year := DigitsField(s[7..11]);
      var hour := DigitsField(s[12..14]);
      var minute := if fmt == HourOnly then Some(0) else DigitsField(s[15..17]);
      if month.None? || day.None? || year.None? || hour.None? || minute.None? then None
      else
        var dt := DateTime(year.value, month.value, day.value, hour.value, minute.value);
        if ValidDateTime(dt) then Some(dt) else None
  }

  /** The first format in `formats` that parses `s`. */
  function FirstMatch(s: string, formats: seq<Format>): (r: Option<DateTime>)
    ensures r.None? <==> forall i :: 0 <= i < |formats| ==> ParseWith(s, formats[i]).None?
    ensures r.Some? ==> ValidDateTime(r.value)
  {
    if formats == [] then None
    else
      var head := ParseWith(s, formats[0]);
      if head.Some? then head
      else
        assert forall i :: 1 <= i < |formats| ==> formats[i] == formats[1..][i - 1];
        FirstMatch(s, formats[1..])
  }

  /** What `_parse_steam_timestamp` returns for a field, as an instant. */
  function TimestampOf(raw: Field): Option<Instant> {
    if !raw.Text? then None
    else
      match FirstMatch(StripMarker(raw.text), Formats)
      case None => None
      case Some(dt) => Some(ToInstant(dt))
  }

  lemma {:induction false} FirstMatchAt(s: string, formats: seq<Format>, i: nat)
    requires i < |formats|
    requires forall j :: 0 <= j < i ==> ParseWith(s, formats[j]).None?
    requires ParseWith(s, formats[i]).Some?
    ensures FirstMatch(s, formats) == ParseWith(s, formats[i])
  {
    if i > 0 {
      assert ParseWith(s, formats[0]).None?;
      forall j | 0 <= j < i - 1 ensures ParseWith(s, formats[1..][j]).None? {
        assert formats[1..][j] == formats[j + 1];
      }
      FirstMatchAt(s, formats[1..], i - 1);
    }
  }

  /** `_parse_steam_timestamp`: try each format in order, the first that parses wins. */
  method ParseSteamTimestamp(raw: Field) returns (r: Option<Instant>)
    ensures r == TimestampOf(raw)
  {
    if !raw.Text? {
      return None;
    }
    var normalized := StripMarker(raw.text);
    for i := 0 to |Formats|
      invariant forall j :: 0 <= j < i ==> ParseWith(normalized, Formats[j]).None?
    {
      var parsed := ParseWith(normalized, Formats[i]);
      if parsed.Some? {
        FirstMatchAt(normalized, Formats, i);
        return Some(ToInstant(parsed.value));
      }
    }
    return None;
  }

  /** `n` as exactly `width` digits, zero-padded. */
  function Padded(n: nat, width: nat): (r: string)
    requires n < Pow10(width)
    ensures |r| == width && AllDigits(r)
    ensures DigitsValue(r) == n
  {
    if width == 0 then ""
    else
      var init := Padded(n / 10, width - 1);
      var r := init + [DigitChar(n % 10)];
      assert r[..|r| - 1] == init;
      r
  }

  /** The market's rendering of a reading in the given format (without the marker). */
  function Render(dt: DateTime, fmt: Format): (s: string)
    requires ValidDateTime(dt)
  {
    MonthAbbreviations[dt.month - 1] + " " + Padded(dt.day, 2) + " " + Padded(dt.year, 4) + " "
      + Padded(dt.hour, 2) + ":" + (if fmt == HourMinute then Padded(dt.minute, 2) else "")
  }

  lemma DigitsHaveNoPlus(s: string)
    requires AllDigits(s)
    ensures '+' !in s
  {
    forall k | 0 <= k < |s| ensures s[k] != '+' {
      assert IsDigit(s[k]);
    }
  }

  lemma AbbreviationsDistinct()
    ensures forall i, j :: 0 <= i < 12 && 0 <= j < 12 && MonthAbbreviations[i] == MonthAbbreviations[j] ==> i == j
  {
  }

  lemma MonthNumberOfAbbreviation(m: int)
    requires 1 <= m <= 12
    ensures MonthNumber(MonthAbbreviations[m - 1]) == Some(m)
  {
    AbbreviationsDistinct();
  }

  /** Where each part sits in "mon dd yyyy hh:mm", for parts of the widths `Render` uses. */
  lemma FieldLayout(mon: string, dd: string, yyyy: string, hh: string, mm: string)
    requires |mon| == 3 && |dd| == 2 && |yyyy| == 4 && |hh| == 2 && (|mm| == 0 || |mm| == 2)
    ensures var s := mon + " " + dd + " " + yyyy + " " + hh + ":" + mm;
      && |s| == 15 + |mm|
      && s[3] == ' ' && s[6] == ' ' && s[11] == ' ' && s[14] == ':'
      && s[..3] == mon && s[4..6] == dd && s[7..11] == yyyy && s[12..14] == hh
      && s[15..] == mm
  {
  }

  /** Where each part of a rendered reading sits. */
  lemma RenderLayout(dt: DateTime, fmt: Format)
    requires ValidDateTime(dt)
    ensures var s := Render(dt, fmt);
      && |s| == Width(fmt)
      && s[3] == ' ' && s[6] == ' ' && s[11] == ' ' && s[14] == ':'
      && s[..3] == MonthAbbreviations[dt.month - 1]
      && s[4..6] == Padded(dt.day, 2)
      && s[7..11] == Padded(dt.year, 4)
      && s[12..14] == Padded(dt.hour, 2)
      && (fmt == HourMinute ==> s[15..17] == Padded(dt.minute, 2))
  {
    var mon := MonthAbbreviations[dt.month - 1];
    var mm := if fmt == HourMinute then Padded(dt.minute, 2) else "";
    FieldLayout(mon, Padded(dt.day, 2), Padded(dt.year, 4), Padded(dt.hour, 2), mm);
  }

  /** Parsing a rendered reading gives the reading back. */
  lemma {:induction false} ParseRender(dt: DateTime, fmt: Format)
    requires ValidDateTime(dt)
    requires fmt == HourOnly ==> dt.minute == 0
    ensures ParseWith(Render(dt, fmt), fmt) == Some(dt)
  {
    var s := Render(dt, fmt);
    RenderLayout(dt, fmt);
    MonthNumberOfAbbreviation(dt.month);
    assert DigitsField(s[4..6]) == Some(dt.day);
    assert DigitsField(s[7..11]) == Some(dt.year);
    assert DigitsField(s[12..14]) == Some(dt.hour);
    assert fmt == HourMinute ==> DigitsField(s[15..17]) == Some(dt.minute);
  }

  lemma NoPlusInParts(mon: string, dd: string, yyyy: string, hh: string, mm: string)
    requires '+' !in mon && '+' !in dd && '+' !in yyyy && '+' !in hh && '+' !in mm
    ensures '+' !in mon + " " + dd + " " + yyyy + " " + hh + ":" + mm
  {
  }

  lemma AbbreviationsHaveNoPlus(m: int)
    requires 0 <= m < 12
    ensures '+' !in MonthAbbreviations[m]
  {
  }

  /** A rendered reading holds no '+', so no marker either. */
  lemma RenderHasNoPlus(dt: DateTime, fmt: Format)
    requires ValidDateTime(dt)
    ensures '+' !in Render(dt, fmt)
  {
    var dd, yyyy, hh := Padded(dt.day, 2), Padded(dt.year, 4), Padded(dt.hour, 2);
    var mm := if fmt == HourMinute then Padded(dt.minute, 2) else "";
    DigitsHaveNoPlus(dd);
    DigitsHaveNoPlus(yyyy);
    DigitsHaveNoPlus(hh);
    DigitsHaveNoPlus(mm);
    AbbreviationsHaveNoPlus(dt.month - 1);
    NoPlusInParts(MonthAbbreviations[dt.month - 1], dd, yyyy, hh, mm);
  }

  /**
   * A market timestamp in either format, with the marker, parses to the
   * instant of its reading.
   */
  lemma MarketTimestampRoundTrip(dt: DateTime, fmt: Format)
    requires ValidDateTime(dt)
    requires fmt == HourOnly ==> dt.minute == 0
    ensures TimestampOf(Text(Render(dt, fmt) + Marker)) == Some(ToInstant(dt))
  {
    var s := Render(dt, fmt);
    assert StripMarker(s + Marker) == s by {
      RenderHasNoPlus(dt, fmt);
      StripMarkerRemovesTrailing(s);
    }
    assert FirstMatch(s, Formats) == Some(dt) by {
      ParseRender(dt, fmt);
      if fmt == HourOnly {
        FirstMatchAt(s, Formats, 0);
      } else {
        assert ParseWith(s, HourOnly).None? by {
          RenderLayout(dt, fmt);
        }
        FirstMatchAt(s, Formats, 1);
      }
    }
  }

  lemma PaddedTwo(n: nat)
    requires n < 100
    ensures Padded(n, 2) == [DigitChar(n / 10), DigitChar(n % 10)]
  {
    assert Padded(n / 10 / 10, 0) == "";
    assert n / 10 / 10 == 0;
  }

  /** The separators and the month of "May 18 2026 01:". */
  lemma ExampleMonth(s: string)
    requires s == "May 18 2026 01:"
    ensures |s| == Width(HourOnly) && s[3] == ' ' && s[6] == ' ' && s[11] == ' ' && s[14] == ':'
    ensures MonthNumber(s[..3]) == Some(5)
  {
    assert s[..3] == MonthAbbreviations[4];
    MonthNumberOfAbbreviation(5);
  }

  /** The day and hour of "May 18 2026 01:". */
  lemma ExampleDayHour(s: string)
    requires s == "May 18 2026 01:"
    ensures DigitsField(s[4..6]) == Some(18) && DigitsField(s[12..14]) == Some(1)
  {
    DigitsValueOfTwo(s[4..6]);
    DigitsValueOfTwo(s[12..14]);
  }

  /** The year of "May 18 2026 01:". */
  lemma ExampleYear(s: string)
    requires s == "May 18 2026 01:"
    ensures DigitsField(s[7..11]) == Some(2026)
  {
    DigitsValueOfFour(s[7..11]);
  }

  /** Text whose separators and fields read as a valid date parses, in the first format, to that date. */
  lemma ParseFixedFields(s: string, dt: DateTime)
    requires |s| == Width(HourOnly) && s[3] == ' ' && s[6] == ' ' && s[11] == ' ' && s[14] == ':'
    requires MonthNumber(s[..3]) == Some(dt.month)
    requires DigitsField(s[4..6]) == Some(dt.day) && DigitsField(s[12..14]) == Some(dt.hour)
    requires DigitsField(s[7..11]) == Some(dt.year)
    requires dt.minute == 0 && ValidDateTime(dt)
    ensures ParseWith(s, HourOnly) == Some(dt)
  {
  }

  /** "May 18 2026 01: +0" is 01:00 UTC on 18 May 2026. */
  lemma HourOnlyExample(raw: string)
    requires raw == "May 18 2026 01: +0"
    ensures TimestampOf(Text(raw)) == Some(ToInstant(DateTime(2026, 5, 18, 1, 0)))
  {
    var s := "May 18 2026 01:";
    assert raw == s + Marker;
    assert '+' !in s;
    StripMarkerRemovesTrailing(s);
    ExampleMonth(s);
    ExampleDayHour(s);
    ExampleYear(s);
    ParseFixedFields(s, DateTime(2026, 5, 18, 1, 0));
    FirstMatchAt(s, Formats, 0);
  }

  /** `strptime` checks the date: 29 February parses in a leap year... */
  lemma LeapDayParses(s: string)
    requires s == "Feb 29 2024 01:"
    ensures ParseWith(s, HourOnly) == Some(DateTime(2024, 2, 29, 1, 0))
  {
    assert s[..3] == MonthAbbreviations[1];
    MonthNumberOfAbbreviation(2);
    DigitsValueOfTwo(s[4..6]);
    DigitsValueOfTwo(s[12..14]);
    DigitsValueOfFour(s[7..11]);
    ParseFixedFields(s, DateTime(2024, 2, 29, 1, 0));
  }

  /** ...and is rejected in a common year, where February has 28 days. */
  lemma CommonYearLeapDayRejected(s: string)
    requires s == "Feb 29 2026 01:"
    ensures ParseWith(s, HourOnly) == None
  {
    assert s[..3] == MonthAbbreviations[1];
    MonthNumberOfAbbreviation(2);
    DigitsValueOfTwo(s[4..6]);
    DigitsValueOfTwo(s[12..14]);
    DigitsValueOfFour(s[7..11]);
    assert !ValidDateTime(DateTime(2026, 2, 29, 1, 0));
  }

  /** Non-text values are "unknown time", never an error. */
  lemma NonTextIsUnknown(raw: Field)
    requires !raw.Text?
    ensures TimestampOf(raw) == None
  {
  }

  /** `replace` makes one pass: removing a marker can join the text into a new one. */
  lemma StripMarkerSinglePass()
    ensures StripMarker("  +0+0") == " +0"
  {
    assert "  +0+0"[..3][1] != Marker[1];
    assert "  +0+0"[1..] == " +0+0";
    assert " +0+0"[..3] == Marker;
    assert " +0+0"[3..] == "+0";
    assert "+0"[1..] == "0";
  }
}
