/**
 * The proleptic Gregorian calendar of Python's `datetime`, and the instants
 * the pipeline compares: an `Instant` counts microseconds (the resolution of
 * `datetime`) on the UTC timeline from 0001-01-01 00:00.
 */
module Calendar {

  type Instant = int

  const MicrosPerMinute: int := 60 * 1000 * 1000
  const MinutesPerDay: int := 24 * 60

  /** `timedelta(minutes=n)` in microseconds. */
  function Minutes(n: int): int {
    n * MicrosPerMinute
  }

  /** `timedelta(hours=n)` in microseconds. */
  function Hours(n: int): int {
    n * 60 * MicrosPerMinute
  }

  /** A wall-clock reading to the minute, as the market's timestamps give it. */
  datatype DateTime = DateTime(year: int, month: int, day: int, hour: int, minute: int)

  predicate IsLeapYear(y: int) {
    y % 4 == 0 && (y % 100 != 0 || y % 400 == 0)
  }

  function DaysInYear(y: int): int {
    if IsLeapYear(y) then 366 else 365
  }

  function DaysInMonth(y: int, m: int): (n: int)
    requires 1 <= m <= 12
    ensures 28 <= n <= 31
  {
    if m == 2 then (if IsLeapYear(y) then 29 else 28)
    else if m == 4 || m == 6 || m == 9 || m == 11 then 30
    else 31
  }

  /** The range `datetime` accepts: years 1 to 9999, real days of real months. */
  predicate ValidDateTime(dt: DateTime) {
    && 1 <= dt.year <= 9999
    && 1 <= dt.month <= 12
    && 1 <= dt.day <= DaysInMonth(dt.year, dt.month)
    && 0 <= dt.hour < 24
    && 0 <= dt.minute < 60
  }

  /** Days in the years before `y`. */
  function DaysBeforeYear(y: int): int
    requires y >= 1
  {
    var p := y - 1;
    365 * p + p / 4 - p / 100 + p / 400
  }

  /** Days in the months of year `y` before month `m`. */
  function DaysBeforeMonth(y: int, m: int): int
    requires 1 <= m <= 12
  {
    var cumulative := [0, 31, 59, 90, 120, 151, 181, 212, 243, 273, 304, 334];
    cumulative[m - 1] + (if m > 2 && IsLeapYear(y) then 1 else 0)
  }

  /** `date.toordinal()`: 1 for 0001-01-01. */
  function DayOrdinal(dt: DateTime): int
    requires ValidDateTime(dt)
  {
    DaysBeforeYear(dt.year) + DaysBeforeMonth(dt.year, dt.month) + dt.day
  }

  /** The UTC instant of a wall-clock reading (the zone is asserted, not read). */
  function ToInstant(dt: DateTime): Instant
    requires ValidDateTime(dt)
  {
    ((DayOrdinal(dt) - 1) * MinutesPerDay + dt.hour * 60 + dt.minute) * MicrosPerMinute
  }

  /** Chronological order of readings: year, then month, day, hour and minute. */
  predicate Before(a: DateTime, b: DateTime) {
    || a.year < b.year
    || (a.year == b.year && a.month < b.month)
    || (a.year == b.year && a.month == b.month && a.day < b.day)
    || (a.year == b.year && a.month == b.month && a.day == b.day && a.hour < b.hour)
    || (a.year == b.year && a.month == b.month && a.day == b.day && a.hour == b.hour && a.minute < b.minute)
  }

  /** Integer division by 4 steps up exactly at the multiples of 4. */
  lemma DivStep4(n: nat)
    ensures (n + 1) / 4 == n / 4 + (if (n + 1) % 4 == 0 then 1 else 0)
  {
    var q, r := n / 4, n % 4;
    assert n == 4 * q + r;
    assert n + 1 == 4 * q + (r + 1);
  }

  /** Integer division by 100 steps up exactly at the multiples of 100. */
  lemma DivStep100(n: nat)
    ensures (n + 1) / 100 == n / 100 + (if (n + 1) % 100 == 0 then 1 else 0)
  {
    var q, r := n / 100, n % 100;
    assert n == 100 * q + r;
    assert n + 1 == 100 * q + (r + 1);
  }

  /** Integer division by 400 steps up exactly at the multiples of 400. */
  lemma DivStep400(n: nat)
    ensures (n + 1) / 400 == n / 400 + (if (n + 1) % 400 == 0 then 1 else 0)
  {
    var q, r := n / 400, n % 400;
    assert n == 400 * q + r;
    assert n + 1 == 400 * q + (r + 1);
  }

  /** Multiples of 400 are multiples of 100. */
  lemma FourHundredsAreHundreds(y: int)
    requires y % 400 == 0
    ensures y % 100 == 0
  {
    var k := 4 * (y / 400);
    assert y == 100 * k;
  }

  /** Multiples of 100 are multiples of 4. */
  lemma HundredsAreFours(y: int)
    requires y % 100 == 0
    ensures y % 4 == 0
  {
    var k := 25 * (y / 100);
    assert y == 4 * k;
  }


  lemma DaysBeforeYearStep(y: int)
    requires y >= 1
    ensures DaysBeforeYear(y + 1) == DaysBeforeYear(y) + DaysInYear(y)
  {
    var p := y - 1;
    DivStep4(p);
    DivStep100(p);
    DivStep400(p);
    if y % 400 == 0 {
      FourHundredsAreHundreds(y);
    }
    if y % 100 == 0 {
      HundredsAreFours(y);
    }
  }

  lemma {:induction false} DaysBeforeYearGrows(y1: int, y2: int)
    requires 1 <= y1 < y2
    ensures DaysBeforeYear(y1) + DaysInYear(y1) <= DaysBeforeYear(y2)
    decreases y2 - y1
  {
    DaysBeforeYearStep(y1);
    if y1 + 1 < y2 {
      DaysBeforeYearGrows(y1 + 1, y2);
    }
  }

  lemma MonthsFitInYear(y: int, m: int)
    requires 1 <= m <= 12
    ensures DaysBeforeMonth(y, m) >= 0
    ensures DaysBeforeMonth(y, m) + DaysInMonth(y, m) <= DaysInYear(y)
  {
  }

  lemma MonthsInOrder(y: int, m1: int, m2: int)
    requires 1 <= m1 < m2 <= 12
    ensures DaysBeforeMonth(y, m1) + DaysInMonth(y, m1) <= DaysBeforeMonth(y, m2)
  {
  }

  /** Earlier calendar days have smaller ordinals. */
  lemma DayOrdinalOrder(a: DateTime, b: DateTime)
    requires ValidDateTime(a) && ValidDateTime(b)
    requires Before(a, b) && !(a.year == b.year && a.month == b.month && a.day == b.day)
    ensures DayOrdinal(a) < DayOrdinal(b)
  {
    if a.year < b.year {
      MonthsFitInYear(a.year, a.month);
      MonthsFitInYear(b.year, b.month);
      DaysBeforeYearGrows(a.year, b.year);
    } else if a.month < b.month {
      MonthsInOrder(a.year, a.month, b.month);
    }
  }

  /** Converting to an instant preserves and reflects chronological order. */
  lemma ToInstantOrder(a: DateTime, b: DateTime)
    requires ValidDateTime(a) && ValidDateTime(b)
    ensures Before(a, b) <==> ToInstant(a) < ToInstant(b)
    ensures a == b <==> ToInstant(a) == ToInstant(b)
  {
    if Before(a, b) {
      BeforeMeansEarlier(a, b);
    } else if Before(b, a) {
      BeforeMeansEarlier(b, a);
    } else {
      assert a == b;
    }
  }

  /** Minute counts keep the order of (day, hour, minute) triples. */
  lemma MinuteOfDayOrder(da: int, ha: int, ma: int, db: int, hb: int, mb: int)
    requires 0 <= ha < 24 && 0 <= hb < 24 && 0 <= ma < 60 && 0 <= mb < 60
    requires da < db || (da == db && (ha < hb || (ha == hb && ma < mb)))
    ensures da * 1440 + ha * 60 + ma < db * 1440 + hb * 60 + mb
  {
    if da < db {
      assert (da + 1) * 1440 <= db * 1440;
    }
  }

  lemma ScaleToMicros(x: int, y: int)
    requires x < y
    ensures x * MicrosPerMinute < y * MicrosPerMinute
  {
    assert x * 60000000 < y * 60000000;
  }

  lemma BeforeMeansEarlier(a: DateTime, b: DateTime)
    requires ValidDateTime(a) && ValidDateTime(b) && Before(a, b)
    ensures ToInstant(a) < ToInstant(b)
  {
    var da, db := DayOrdinal(a) - 1, DayOrdinal(b) - 1;
    if !(a.year == b.year && a.month == b.month && a.day == b.day) {
      DayOrdinalOrder(a, b);
    }
    MinuteOfDayOrder(da, a.hour, a.minute, db, b.hour, b.minute);
    ScaleToMicros(da * 1440 + a.hour * 60 + a.minute, db * 1440 + b.hour * 60 + b.minute);
  }


}
