/**
 * The price analysis of analyzer.py: tolerant decoding of raw history rows,
 * the volume-weighted average over the last 24 hours with its fallback to all
 * valid rows, and the discount rule. Prices are exact reals.
 */
module Analyzer {
  import opened Wrappers
  import opened Numerals
  import opened Calendar
  import opened Fields
  import opened SteamTimestamp

  /** A raw history row, `[timestamp, price, volume, ...]`; it may be short or malformed. */
  type Row = seq<Field>

  /** A volume that counts: `_weighted_average` only ever sees positive ones. */
  type Volume = v: int | v > 0 witness 1

  /** A decoded trade: its price and its volume. */
  datatype PricePoint = PricePoint(price: real, volume: Volume)

  /** A decoded row with the instant it was observed, when that is known. */
  datatype Tagged = Tagged(point: PricePoint, observedAt: Option<Instant>)

  /** `_safe_float`: `float(str(value).replace(",", "."))`, `None` when that fails. */
  function SafeFloat(value: Field): Option<real> {
    ParseFloat(ReplaceChar(Str(value), ',', '.'))
  }

  /** `_safe_int`: `int(value)`, `None` when that fails. */
  function SafeInt(value: Field): (r: Option<int>)
    ensures value.Whole? ==> r == Some(value.number)
    ensures value.Null? ==> r == None
  {
    match value
    case Text(s) => ParseInt(s)
    case Whole(n) => Some(n)
    case Null => None
  }

  /**
   * One row through the loop body: rows with fewer than three fields, an
   * unreadable price, an unreadable volume or a volume of at most zero are
   * skipped; an unreadable timestamp only leaves the time unknown.
   */
  function NormalizeRow(row: Row): Option<Tagged> {
    if |row| < 3 then None
    else
      var price := SafeFloat(row[1]);
      var volume := SafeInt(row[2]);
      if price.None? || volume.None? || volume.value <= 0 then None
      else Some(Tagged(PricePoint(price.value, volume.value), TimestampOf(row[0])))
  }

  /** Every row decoded, in order. */
  function Decode(rows: seq<Row>): (ds: seq<Option<Tagged>>)
    ensures |ds| == |rows|
  {
    if rows == [] then [] else Decode(rows[..|rows| - 1]) + [NormalizeRow(rows[|rows| - 1])]
  }

  /** A point belongs to the window when its time is known and not before `threshold`. */
  predicate InWindow(t: Tagged, threshold: Instant) {
    t.observedAt.Some? && t.observedAt.value >= threshold
  }

  /** The points of the valid rows, in row order (`all_points`). */
  function Points(ds: seq<Option<Tagged>>): (ps: seq<PricePoint>)
    ensures |ps| <= |ds|
  {
    if ds == [] then []
    else
      var init := Points(ds[..|ds| - 1]);
      var last := ds[|ds| - 1];
      if last.Some? then init + [last.value.point] else init
  }

  /** The points of the valid rows observed at or after `threshold`, in row order (`last_24h_points`). */
  function Recent(ds: seq<Option<Tagged>>, threshold: Instant): (ps: seq<PricePoint>)
    ensures |ps| <= |ds|
  {
    if ds == [] then []
    else
      var init := Recent(ds[..|ds| - 1], threshold);
      var last := ds[|ds| - 1];
      if last.Some? && InWindow(last.value, threshold) then init + [last.value.point] else init
  }

  /** Σ price·volume. */
  function WeightedSum(ps: seq<PricePoint>): real {
    if ps == [] then 0.0 else ps[0].price * ps[0].volume as real + WeightedSum(ps[1..])
  }

  /** Σ volume. */
  function TotalVolume(ps: seq<PricePoint>): (v: int)
    ensures ps != [] ==> v > 0
  {
    if ps == [] then 0 else ps[0].volume + TotalVolume(ps[1..])
  }

  function MinPrice(ps: seq<PricePoint>): (m: real)
    requires ps != []
    ensures forall i :: 0 <= i < |ps| ==> m <= ps[i].price
    ensures exists i :: 0 <= i < |ps| && m == ps[i].price
  {
    if |ps| == 1 then ps[0].price
    else
      var rest := MinPrice(ps[1..]);
      assert forall i :: 1 <= i < |ps| ==> ps[i] == ps[1..][i - 1];
      if ps[0].price <= rest then ps[0].price else rest
  }

  function MaxPrice(ps: seq<PricePoint>): (m: real)
    requires ps != []
    ensures forall i :: 0 <= i < |ps| ==> ps[i].price <= m
    ensures exists i :: 0 <= i < |ps| && m == ps[i].price
  {
    if |ps| == 1 then ps[0].price
    else
      var rest := MaxPrice(ps[1..]);
      assert forall i :: 1 <= i < |ps| ==> ps[i] == ps[1..][i - 1];
      if ps[0].price >= rest then ps[0].price else rest
  }

  lemma ScaleBelow(a: real, b: real, v: real)
    requires a <= b && v >= 0.0
    ensures a * v <= b * v
  {
  }

  /** With every price between `lo` and `hi`, the weighted sum lies between lo·Σv and hi·Σv. */
  lemma {:induction false} WeightedSumBetween(ps: seq<PricePoint>, lo: real, hi: real)
    requires forall i :: 0 <= i < |ps| ==> lo <= ps[i].price <= hi
    ensures lo * TotalVolume(ps) as real <= WeightedSum(ps) <= hi * TotalVolume(ps) as real
  {
    if ps != [] {
      var v := ps[0].volume as real;
      ScaleBelow(lo, ps[0].price, v);
      ScaleBelow(ps[0].price, hi, v);
      assert forall i :: 0 <= i < |ps[1..]| ==> ps[1..][i] == ps[i + 1];
      WeightedSumBetween(ps[1..], lo, hi);
    }
  }

  lemma QuotientBetween(s: real, v: real, lo: real, hi: real)
    requires v > 0.0 && lo * v <= s <= hi * v
    ensures lo <= s / v <= hi
  {
    assert (s / v) * v == s;
  }

  /**
   * `_weighted_average`: Σ(price·volume) / Σvolume. Its callers only pass
   * non-empty lists of positive volumes, so the division is defined.
   */
  function WeightedAverage(ps: seq<PricePoint>): (r: real)
    requires ps != []
  {
    WeightedSum(ps) / TotalVolume(ps) as real
  }

  lemma AverageBetween(ps: seq<PricePoint>, lo: real, hi: real)
    requires ps != []
    requires lo * TotalVolume(ps) as real <= WeightedSum(ps) <= hi * TotalVolume(ps) as real
    ensures lo <= WeightedAverage(ps) <= hi
  {
    QuotientBetween(WeightedSum(ps), TotalVolume(ps) as real, lo, hi);
  }

  /** The weighted average lies between the cheapest and the dearest price. */
  lemma WeightedAverageWithinPrices(ps: seq<PricePoint>)
    requires ps != []
    ensures MinPrice(ps) <= WeightedAverage(ps) <= MaxPrice(ps)
  {
    WeightedSumBetween(ps, MinPrice(ps), MaxPrice(ps));
    AverageBetween(ps, MinPrice(ps), MaxPrice(ps));
  }

  /** Points of a single price average to that price, whatever their volumes. */
  lemma WeightedAverageOfOnePrice(ps: seq<PricePoint>, p: real)
    requires ps != []
    requires forall i :: 0 <= i < |ps| ==> ps[i].price == p
    ensures WeightedAverage(ps) == p
  {
    WeightedAverageWithinPrices(ps);
  }

  /** The 24-hour window, in microseconds. */
  const Window: int := Hours(24)

  /**
   * The window is closed at its start: a point observed exactly 24 hours
   * before `now` is recent, one observed a microsecond earlier is not.
   */
  lemma WindowBoundary(p: PricePoint, now: Instant)
    ensures Recent([Some(Tagged(p, Some(now - Window)))], now - Window) == [p]
    ensures Recent([Some(Tagged(p, Some(now - Window - 1)))], now - Window) == []
  {
    var inside: seq<Option<Tagged>> := [Some(Tagged(p, Some(now - Window)))];
    var outside: seq<Option<Tagged>> := [Some(Tagged(p, Some(now - Window - 1)))];
    assert inside[..0] == [] && outside[..0] == [];
  }

  /**
   * The averaging policy over decoded rows: the window's points when there
   * are any, otherwise all valid points, otherwise nothing.
   */
  function ReferenceOf(ds: seq<Option<Tagged>>, threshold: Instant): Option<real> {
    var recent := Recent(ds, threshold);
    var all := Points(ds);
    if recent != [] then Some(WeightedAverage(recent))
    else if all != [] then Some(WeightedAverage(all))
    else None
  }

  /**
   * What `calculate_weighted_average_last_24h` returns for a history at
   * `now`; its early return on an empty history agrees with the policy, as
   * an empty history has no points.
   */
  function ReferencePrice(history: seq<Row>, now: Instant): Option<real> {
    ReferenceOf(Decode(history), now - Window)
  }

  lemma DecodeStep(rows: seq<Row>, i: int)
    requires 0 <= i < |rows|
    ensures Decode(rows[..i + 1]) == Decode(rows[..i]) + [NormalizeRow(rows[i])]
  {
    assert rows[..i + 1][..i] == rows[..i];
  }

  /** How one more decoded row extends both lists of points. */
  lemma PointsStep(ds: seq<Option<Tagged>>, d: Option<Tagged>, threshold: Instant)
    ensures Points(ds + [d]) == Points(ds) + (if d.Some? then [d.value.point] else [])
    ensures Recent(ds + [d], threshold) == Recent(ds, threshold) +
      (if d.Some? && InWindow(d.value, threshold) then [d.value.point] else [])
  {
    assert (ds + [d])[..|ds|] == ds;
  }

  /** `calculate_weighted_average_last_24h`, with the clock reading passed in as `now`. */
  method CalculateWeightedAverageLast24h(history: seq<Row>, now: Instant) returns (avg: Option<real>)
    ensures avg == ReferencePrice(history, now)
  {
    if |history| == 0 {
      return None;
    }
    var threshold := now - Window;
    var last24hPoints: seq<PricePoint> := [];
    var allPoints: seq<PricePoint> := [];
    for i := 0 to |history|
      invariant allPoints == Points(Decode(history[..i]))
      invariant last24hPoints == Recent(Decode(history[..i]), threshold)
    {
      var row := history[i];
      DecodeStep(history, i);
      PointsStep(Decode(history[..i]), NormalizeRow(row), threshold);
      if |row| >= 3 {
        var price := SafeFloat(row[1]);
        var volume := SafeInt(row[2]);
        var timestamp := ParseSteamTimestamp(row[0]);
        if price.Some? && volume.Some? && volume.value > 0 {
          allPoints := allPoints + [PricePoint(price.value, volume.value)];
          if timestamp.Some? && timestamp.value >= threshold {
            last24hPoints := last24hPoints + [PricePoint(price.value, volume.value)];
          }
        }
      }
    }
    assert history[..|history|] == history;
    if last24hPoints != [] {
      return Some(WeightedAverage(last24hPoints));
    }
    if allPoints != [] {
      return Some(WeightedAverage(allPoints));
    }
    return None;
  }

  lemma {:induction false} DecodeAppend(a: seq<Row>, b: seq<Row>)
    ensures Decode(a + b) == Decode(a) + Decode(b)
    decreases |b|
  {
    if b == [] {
      assert a + b == a;
    } else {
      var b' := b[..|b| - 1];
      assert (a + b)[..|a + b| - 1] == a + b';
      assert (a + b)[|a + b| - 1] == b[|b| - 1];
      DecodeAppend(a, b');
    }
  }

  lemma {:induction false} PointsAppend(d1: seq<Option<Tagged>>, d2: seq<Option<Tagged>>, threshold: Instant)
    ensures Points(d1 + d2) == Points(d1) + Points(d2)
    ensures Recent(d1 + d2, threshold) == Recent(d1, threshold) + Recent(d2, threshold)
    decreases |d2|
  {
    if d2 == [] {
      assert d1 + d2 == d1;
    } else {
      var d2' := d2[..|d2| - 1];
      assert (d1 + d2)[..|d1 + d2| - 1] == d1 + d2';
      assert (d1 + d2)[|d1 + d2| - 1] == d2[|d2| - 1];
      PointsAppend(d1, d2', threshold);
    }
  }

  /** Every point in the window is a valid point. */
  lemma {:induction false} RecentWithinPoints(ds: seq<Option<Tagged>>, threshold: Instant)
    ensures forall p :: p in Recent(ds, threshold) ==> p in Points(ds)
  {
    if ds != [] {
      RecentWithinPoints(ds[..|ds| - 1], threshold);
    }
  }

  /** The three outcomes of the averaging policy. */
  lemma ReferencePolicy(ds: seq<Option<Tagged>>, threshold: Instant)
    ensures var recent := Recent(ds, threshold);
      recent != [] ==> ReferenceOf(ds, threshold) == Some(WeightedAverage(recent))
    ensures var all := Points(ds);
      Recent(ds, threshold) == [] && all != [] ==> ReferenceOf(ds, threshold) == Some(WeightedAverage(all))
    ensures Points(ds) == [] <==> ReferenceOf(ds, threshold) == None
  {
    var recent := Recent(ds, threshold);
    RecentWithinPoints(ds, threshold);
    if recent != [] {
      assert recent[0] in Points(ds);
    }
  }

  /** An empty history has no reference price. */
  lemma EmptyHistoryHasNoReference(now: Instant)
    ensures ReferencePrice([], now) == None
  {
  }

  /**
   * A skipped row (one `NormalizeRow` rejects), wherever it stands, changes
   * nothing, even in an otherwise empty history. `InsertedRowDecodes` carries
   * this over to raw rows.
   */
  lemma SkippedRowAddsNothing(da: seq<Option<Tagged>>, db: seq<Option<Tagged>>, threshold: Instant)
    ensures ReferenceOf(da + [None] + db, threshold) == ReferenceOf(da + db, threshold)
  {
    var skipped: seq<Option<Tagged>> := [None];
    PointsAppend(da + skipped, db, threshold);
    PointsAppend(da, skipped, threshold);
    PointsAppend(da, db, threshold);
    assert skipped[..0] == [];
  }

  /**
   * While the window holds a point, a row outside it (skipped, too old, or
   * of unknown time) changes nothing.
   */
  lemma OutOfWindowAddsNothing(da: seq<Option<Tagged>>, d: Option<Tagged>, db: seq<Option<Tagged>>, threshold: Instant)
    requires !(d.Some? && InWindow(d.value, threshold))
    requires Recent(da + db, threshold) != []
    ensures ReferenceOf(da + [d] + db, threshold) == ReferenceOf(da + db, threshold)
  {
    PointsAppend(da + [d], db, threshold);
    PointsAppend(da, [d], threshold);
    PointsAppend(da, db, threshold);
    assert [d][..0] == [];
    assert Recent(da + [d] + db, threshold) == Recent(da + db, threshold);
  }

  /** Decoding `a + [row] + b` and `a + b`, piece by piece. */
  lemma InsertedRowDecodes(a: seq<Row>, row: Row, b: seq<Row>)
    ensures Decode(a + [row] + b) == Decode(a) + [NormalizeRow(row)] + Decode(b)
    ensures Decode(a + b) == Decode(a) + Decode(b)
  {
    DecodeAppend(a, [row]);
    DecodeAppend(a + [row], b);
    DecodeAppend(a, b);
    assert [row][..0] == [];
  }

  /** A list's cheapest and dearest prices bound those of any list whose points all belong to it. */
  lemma PricesOfSublist(sub: seq<PricePoint>, all: seq<PricePoint>)
    requires sub != [] && forall p :: p in sub ==> p in all
    ensures all != []
    ensures MinPrice(all) <= MinPrice(sub) && MaxPrice(sub) <= MaxPrice(all)
  {
    assert sub[0] in all;
    var i :| 0 <= i < |sub| && MinPrice(sub) == sub[i].price;
    var j :| 0 <= j < |sub| && MaxPrice(sub) == sub[j].price;
    assert sub[i] in all;
    assert sub[j] in all;
  }

  /** The reference price lies between the cheapest and the dearest valid point. */
  lemma ReferenceWithinValidPrices(ds: seq<Option<Tagged>>, threshold: Instant)
    requires ReferenceOf(ds, threshold).Some?
    ensures Points(ds) != []
    ensures var all := Points(ds);
      MinPrice(all) <= ReferenceOf(ds, threshold).value <= MaxPrice(all)
  {
    var recent := Recent(ds, threshold);
    ReferencePolicy(ds, threshold);
    if recent != [] {
      RecentWithinPoints(ds, threshold);
      PricesOfSublist(recent, Points(ds));
      WeightedAverageWithinPrices(recent);
    } else {
      WeightedAverageWithinPrices(Points(ds));
    }
  }

  lemma NoCommaInFormattedInt(n: int)
    ensures ReplaceChar(FormatInt(n), ',', '.') == FormatInt(n)
  {
    var s := FormatInt(n);
    var digits := FormatNat(if n < 0 then -n else n);
    forall i | 0 <= i < |s| ensures s[i] != ',' {
      if n < 0 && i > 0 {
        assert s[i] == digits[i - 1];
      }
    }
  }

  /** An integer field reads as that number. */
  lemma SafeFloatOfWhole(n: int)
    ensures SafeFloat(Whole(n)) == Some(n as real)
  {
    NoCommaInFormattedInt(n);
    ParseFloatFormatInt(n);
  }

  /** Null reads as no price. */
  lemma SafeFloatOfNull()
    ensures SafeFloat(Null) == None
  {
    assert "None"[0] == 'N';
  }

  lemma TwoOccurrences(s: string, c: char, i: int, j: int)
    requires 0 <= i < j < |s| && s[i] == c && s[j] == c
    ensures Count(s, c) >= 2
  {
    assert s == s[..j] + s[j..];
    CountAppend(s[..j], s[j..], c);
    assert s[..j][i] == c;
    assert s[j..][0] == c;
  }

  /** Text with both separators becomes two dots, which `float` rejects: "1,234.5" is no price. */
  lemma SafeFloatRejectsMixedSeparators(s: string)
    requires ',' in s && '.' in s
    ensures SafeFloat(Text(s)) == None
  {
    var r := ReplaceChar(s, ',', '.');
    var i :| 0 <= i < |s| && s[i] == ',';
    var j :| 0 <= j < |s| && s[j] == '.';
    if i < j {
      TwoOccurrences(r, '.', i, j);
    } else {
      TwoOccurrences(r, '.', j, i);
    }
    ParseFloatRejectsTwoDots(r);
  }

  /** A comma is a decimal separator: "1,23" is 1.23. */
  lemma DecimalCommaExample(s: string)
    requires s == "1,23"
    ensures SafeFloat(Text(s)) == Some(1.23)
  {
    var r := ReplaceChar(s, ',', '.');
    assert r == "1.23";
    assert IndexOf(r, '.') == 1;
    assert r[..1] == "1" && r[2..] == "23";
    assert DigitsValue("23") == 23 by {
      assert "23"[..1] == "2";
    }
  }

  /** A text without a whole part still reads: ".5" is 0.5. */
  lemma LeadingDotExample(s: string)
    requires s == ".5"
    ensures SafeFloat(Text(s)) == Some(0.5)
  {
    assert ReplaceChar(s, ',', '.') == s;
    ParseUnsignedDecimal(s, "", "5");
    assert DigitsValue("5") == 5 by { assert "5"[..0] == []; }
  }

  /** A volume of "0" drops the row. */
  lemma ZeroVolumeExample(ts: Field, price: Field, volume: string)
    requires volume == "0"
    ensures NormalizeRow([ts, price, Text(volume)]) == None
  {
    assert IsDigit(volume[0]) && volume[..0] == [];
    assert DigitsValue(volume) == 0;
  }

  /** `discount_percentage`: how far `current` is below `average`, in percent; 0 without a positive average. */
  function DiscountPercentage(current: real, average: real): (r: real)
    ensures average <= 0.0 ==> r == 0.0
  {
    if average <= 0.0 then 0.0 else ((average - current) / average) * 100.0
  }

  /**
   * `is_discount_significant`, which computes the percentage itself: never
   * without a positive average, otherwise exactly when the discount reaches
   * the threshold.
   */
  function IsDiscountSignificant(current: real, average: real, threshold: real): (r: bool)
    ensures r <==> average > 0.0 && DiscountPercentage(current, average) >= threshold
  {
    if average <= 0.0 then false
    else ((average - current) / average) * 100.0 >= threshold
  }

  /** Paying the average is no discount. */
  lemma NoDiscountAtAverage(p: real)
    requires p > 0.0
    ensures DiscountPercentage(p, p) == 0.0
  {
    assert (p - p) / p == 0.0;
  }

  /** The discount recovers the price: average·(1 − d/100) == current. */
  lemma DiscountDeterminesPrice(current: real, average: real)
    requires average > 0.0
    ensures average * (1.0 - DiscountPercentage(current, average) / 100.0) == current
  {
    var q := (average - current) / average;
    assert q * average == average - current;
    assert DiscountPercentage(current, average) / 100.0 == q;
  }

  /** For a fixed positive average, a lower price is a strictly larger discount. */
  lemma DiscountStrictlyDecreasing(c1: real, c2: real, average: real)
    requires average > 0.0 && c1 < c2
    ensures DiscountPercentage(c1, average) > DiscountPercentage(c2, average)
  {
    DiscountDeterminesPrice(c1, average);
    DiscountDeterminesPrice(c2, average);
    var d1, d2 := DiscountPercentage(c1, average), DiscountPercentage(c2, average);
    if d1 <= d2 {
      ScaleBelow(1.0 - d2 / 100.0, 1.0 - d1 / 100.0, average);
    }
  }

  /** Significant exactly when the price is at most average·(1 − threshold/100). */
  lemma SignificantIffAtMostTargetPrice(current: real, average: real, threshold: real)
    requires average > 0.0
    ensures IsDiscountSignificant(current, average, threshold) <==>
      current <= average * (1.0 - threshold / 100.0)
  {
    var d := DiscountPercentage(current, average);
    DiscountDeterminesPrice(current, average);
    if d >= threshold {
      ScaleBelow(1.0 - d / 100.0, 1.0 - threshold / 100.0, average);
    } else {
      ScaleBelow(1.0 - threshold / 100.0, 1.0 - d / 100.0, average);
      assert (1.0 - threshold / 100.0) * average < (1.0 - d / 100.0) * average by {
        var gap := (d / 100.0 - threshold / 100.0) * average;
        assert gap < 0.0;
      }
    }
  }

  /** 14.0 against an average of 17.5 is a 20% discount. */
  lemma DiscountExample()
    ensures DiscountPercentage(14.0, 17.5) == 20.0
    ensures IsDiscountSignificant(14.0, 17.5, 10.0)
  {
  }
}
