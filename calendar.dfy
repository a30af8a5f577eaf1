/** The slice of Python's `datetime` that the script uses: proleptic Gregorian dates,
    `toordinal()`, a time of day for `datetime.now()`, comparison, and the `.days`
    of a difference. */
module Calendar {

  /** `datetime.MINYEAR` and `datetime.MAXYEAR`. */
  const MinYear: int := 1
  const MaxYear: int := 9999

  const MicrosPerDay: int := 86_400_000_000

  predicate IsLeapYear(y: int)
  {
    y % 4 == 0 && (y % 100 != 0 || y % 400 == 0)
  }

  function DaysInMonth(y: int, m: int): (n: int)
    requires 1 <= m <= 12
    ensures 28 <= n <= 31
  {
    if m == 2 then (if IsLeapYear(y) then 29 else 28)
    else if m == 4 || m == 6 || m == 9 || m == 11 then 30
    else 31
  }

  function DaysInYear(y: int): int
  {
    if IsLeapYear(y) then 366 else 365
  }

  datatype Date = Date(year: int, month: int, day: int)

  /** The dates `datetime.date` accepts. */
  predicate ValidDate(d: Date)
  {
    MinYear <= d.year <= MaxYear && 1 <= d.month <= 12 && 1 <= d.day <= DaysInMonth(d.year, d.month)
  }

  /** Days of year `y` that come before the first of month `m` (`m == 13` is the year's end). */
  function DaysBeforeMonth(y: int, m: int): nat
    requires 1 <= m <= 13
    decreases m
  {
    if m == 1 then 0 else DaysBeforeMonth(y, m - 1) + DaysInMonth(y, m - 1)
  }

  /** Days from 0001-01-01 up to the first of January of year `y`. */
  function DaysBeforeYear(y: int): nat
    requires y >= MinYear
    decreases y
  {
    if y == MinYear then 0 else DaysBeforeYear(y - 1) + DaysInYear(y - 1)
  }

  /** Python's `date.toordinal()`: 0001-01-01 is day 1. */
  function Ordinal(d: Date): int
    requires ValidDate(d)
  {
    DaysBeforeYear(d.year) + DaysBeforeMonth(d.year, d.month) + d.day
  }

  /** Calendar order of two dates: by year, then month, then day. */
  predicate Before(a: Date, b: Date)
  {
    a.year < b.year ||
    (a.year == b.year && (a.month < b.month || (a.month == b.month && a.day < b.day)))
  }

  lemma {:induction false} DaysBeforeMonthMonotone(y: int, i: int, j: int)
    requires 1 <= i <= j <= 13
    ensures DaysBeforeMonth(y, i) <= DaysBeforeMonth(y, j)
    decreases j - i
  {
    if i < j {
      DaysBeforeMonthMonotone(y, i, j - 1);
    }
  }

  lemma {:induction false} DaysBeforeYearMonotone(i: int, j: int)
    requires MinYear <= i <= j
    ensures DaysBeforeYear(i) + (j - i) * 365 <= DaysBeforeYear(j)
    decreases j - i
  {
    if i < j {
      DaysBeforeYearMonotone(i, j - 1);
    }
  }

  /** The twelve months add up to the year's length. */
  lemma DaysBeforeMonthYearEnd(y: int)
    ensures DaysBeforeMonth(y, 13) == DaysInYear(y)
  {
    assert DaysBeforeMonth(y, 3) == 31 + DaysInMonth(y, 2);
    assert DaysBeforeMonth(y, 7) == DaysBeforeMonth(y, 3) + 31 + 30 + 31 + 30;
    assert DaysBeforeMonth(y, 13) == DaysBeforeMonth(y, 7) + 31 + 31 + 30 + 31 + 30 + 31;
  }

  /** A valid date's ordinal lies within the ordinals of its own year. */
  lemma OrdinalWithinYear(d: Date)
    requires ValidDate(d)
    ensures DaysBeforeYear(d.year) < Ordinal(d) <= DaysBeforeYear(d.year) + DaysInYear(d.year)
  {
    DaysBeforeMonthMonotone(d.year, d.month + 1, 13);
    DaysBeforeMonthYearEnd(d.year);
  }

  /** `toordinal()` is strictly increasing in calendar order. */
  lemma OrdinalIncreasing(a: Date, b: Date)
    requires ValidDate(a) && ValidDate(b) && Before(a, b)
    ensures Ordinal(a) < Ordinal(b)
  {
    if a.year < b.year {
      OrdinalWithinYear(a);
      OrdinalWithinYear(b);
      DaysBeforeYearMonotone(a.year + 1, b.year);
      assert DaysBeforeYear(a.year + 1) == DaysBeforeYear(a.year) + DaysInYear(a.year);
    } else if a.month < b.month {
      DaysBeforeMonthMonotone(a.year, a.month + 1, b.month);
    }
  }

  /** Comparing ordinals is the same as comparing dates. */
  lemma OrdinalOrder(a: Date, b: Date)
    requires ValidDate(a) && ValidDate(b)
    ensures Before(a, b) <==> Ordinal(a) < Ordinal(b)
    ensures a == b <==> Ordinal(a) == Ordinal(b)
  {
    if Before(a, b) {
      OrdinalIncreasing(a, b);
    } else if Before(b, a) {
      OrdinalIncreasing(b, a);
    }
  }

  /** A point in time: a date and the microseconds elapsed since its midnight. */
  datatype DateTime = DateTime(date: Date, micros: int)

  predicate ValidDateTime(t: DateTime)
  {
    ValidDate(t.date) && 0 <= t.micros < MicrosPerDay
  }

  /** What `datetime.strptime` and `datetime(y, m, d)` produce: the date at 00:00. */
  function AtMidnight(d: Date): (t: DateTime)
    requires ValidDate(d)
    ensures ValidDateTime(t) && t.date == d
  {
    DateTime(d, 0)
  }

  /** Microseconds since the start of 0001-01-01; comparing these is comparing datetimes. */
  function Instant(t: DateTime): int
    requires ValidDateTime(t)
  {
    Ordinal(t.date) * MicrosPerDay + t.micros
  }

  /** Python's `(b - a).days`: the difference in whole days, rounded toward minus infinity. */
  function DaysBetween(a: DateTime, b: DateTime): (n: int)
    requires ValidDateTime(a) && ValidDateTime(b)
    ensures n * MicrosPerDay <= Instant(b) - Instant(a) < (n + 1) * MicrosPerDay
  {
    (Instant(b) - Instant(a)) / MicrosPerDay
  }

  /** Days from a midnight to a later or earlier instant count whole calendar days only. */
  lemma DaysSinceMidnight(a: Date, t: DateTime)
    requires ValidDate(a) && ValidDateTime(t)
    ensures DaysBetween(AtMidnight(a), t) == Ordinal(t.date) - Ordinal(a)
  {
    var n := DaysBetween(AtMidnight(a), t);
    var k := Ordinal(t.date) - Ordinal(a);
    assert Instant(t) - Instant(AtMidnight(a)) == k * MicrosPerDay + t.micros;
  }

  /** Days from an instant to a midnight lose one when the instant is past its own midnight. */
  lemma DaysUntilMidnight(t: DateTime, b: Date)
    requires ValidDateTime(t) && ValidDate(b)
    ensures DaysBetween(t, AtMidnight(b)) ==
            Ordinal(b) - Ordinal(t.date) - (if t.micros == 0 then 0 else 1)
  {
    var k := Ordinal(b) - Ordinal(t.date);
    assert Instant(AtMidnight(b)) - Instant(t) == k * MicrosPerDay - t.micros;
  }

  /** Python's `start <= t <= end` for two dates at midnight. */
  predicate Within(start: Date, end: Date, t: DateTime)
    requires ValidDate(start) && ValidDate(end) && ValidDateTime(t)
    ensures Within(start, end, t) ==> Ordinal(start) <= Ordinal(t.date) <= Ordinal(end)
  {
    Instant(AtMidnight(start)) <= Instant(t) <= Instant(AtMidnight(end))
  }

  /** Because `end` is at midnight, the closing day itself is inside only at 00:00 exactly. */
  lemma WithinByDays(start: Date, end: Date, t: DateTime)
    requires ValidDate(start) && ValidDate(end) && ValidDateTime(t)
    ensures Within(start, end, t) <==>
            Ordinal(start) <= Ordinal(t.date) &&
            (Ordinal(t.date) < Ordinal(end) || (Ordinal(t.date) == Ordinal(end) && t.micros == 0))
  {
    var s, d, e := Ordinal(start), Ordinal(t.date), Ordinal(end);
    assert Instant(AtMidnight(start)) == s * MicrosPerDay;
    assert Instant(AtMidnight(end)) == e * MicrosPerDay;
    assert Instant(t) == d * MicrosPerDay + t.micros;
    if s <= d {
      assert s * MicrosPerDay <= d * MicrosPerDay;
    } else {
      assert s * MicrosPerDay >= d * MicrosPerDay + MicrosPerDay;
    }
    if d < e {
      assert d * MicrosPerDay + MicrosPerDay <= e * MicrosPerDay;
    } else if d > e {
      assert d * MicrosPerDay >= e * MicrosPerDay + MicrosPerDay;
    }
  }
}
