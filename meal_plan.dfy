/** The body of `main` (Meal_Plan_Status.py:82-118) once the balances have been read from
    the card account: find the semester window, fall back to 20 August - 21 December when
    none is found, and compute the status report. */
module MealPlan {
  import opened Results
  import opened Calendar
  import opened DateToken
  import opened SemesterResolver
  import opened Pacing

  /** Why `main` stops with "ERROR: ...": a calendar cell that does not parse, or a
      semester whose first class day is also the day the halls close. */
  datatype Failure = DateFailure(error: DateError) | ZeroLengthSemester

  /** The default window of lines 88-89. */
  function FallbackWindow(year: int): (w: (Date, Date))
    requires MinYear <= year <= MaxYear
    ensures ValidDate(w.0) && ValidDate(w.1) && w.0.year == w.1.year == year
    ensures Before(w.0, w.1)
  {
    (Date(year, 8, 20), Date(year, 12, 21))
  }

  /** The default window is 123 days long in every year. */
  lemma FallbackLength(year: int, today: DateTime)
    requires MinYear <= year <= MaxYear && ValidDateTime(today)
    ensures Counts(FallbackWindow(year).0, FallbackWindow(year).1, today).total == 123
  {
    assert DaysBeforeMonth(year, 12) == DaysBeforeMonth(year, 8) + 31 + 30 + 31 + 30;
  }

  /** The window `main` works with: the one found, or the default one for this year. */
  function ChosenWindow(found: Option<Window>, today: DateTime): (w: (Date, Date))
    requires ValidDateTime(today)
    requires found.Some? ==> ValidWindow(found.value)
    ensures ValidDate(w.0) && ValidDate(w.1)
    ensures found.Some? ==> w == (found.value.start, found.value.end)
    ensures found.None? ==> w == FallbackWindow(today.date.year)
  {
    if found.Some? then (found.value.start, found.value.end) else FallbackWindow(today.date.year)
  }

  /** The outcome of `main` for a calendar page, the current instant and the two balances. */
  function Status(page: seq<Section>, today: DateTime, flexLeft: real, swipesLeft: int, policy: YearPolicy)
    : (r: Result<Report, Failure>)
    requires ValidDateTime(today)
    ensures r.Ok? ==> ValidDate(r.value.start) && ValidDate(r.value.end)
  {
    match Resolve(page, today, policy)
    case Err(e) => Err(DateFailure(e))
    case Ok(found) =>
      var w := ChosenWindow(found, today);
      match ComputeReport(w.0, w.1, today, flexLeft, swipesLeft)
      case None => Err(ZeroLengthSemester)
      case Some(rep) => Ok(rep)
  }

  /** How `main` ends: a parse error escapes from the calendar scan; a zero-length window
      can only come from the page, never from the default; otherwise the report covers the
      window found, or the default one when the page has none. */
  lemma StatusOutcome(page: seq<Section>, today: DateTime, flexLeft: real, swipesLeft: int, policy: YearPolicy)
    requires ValidDateTime(today)
    ensures var r, res := Status(page, today, flexLeft, swipesLeft, policy), Resolve(page, today, policy);
            (r.Err? && r.error.DateFailure? <==> res.Err?) &&
            (res.Err? ==> r == Err(DateFailure(res.error))) &&
            (r == Err(ZeroLengthSemester) <==>
              res.Ok? && res.value.Some? && res.value.value.start == res.value.value.end) &&
            (res.Ok? && res.value.Some? && r.Ok? ==>
              r.value.start == res.value.value.start && r.value.end == res.value.value.end) &&
            (res == Ok(None) ==> r.Ok? && (r.value.start, r.value.end) == FallbackWindow(today.date.year))
  {
    var res := Resolve(page, today, policy);
    if res.Ok? && res.value.None? {
      var w := FallbackWindow(today.date.year);
      OrdinalIncreasing(w.0, w.1);
    }
  }

  /** With a window found on the page, today lies inside it, so the days elapsed and the
      days left are both between 0 and the length of the window. */
  lemma StatusCountsInWindow(page: seq<Section>, today: DateTime, policy: YearPolicy)
    requires ValidDateTime(today)
    requires Resolve(page, today, policy).Ok? && Resolve(page, today, policy).value.Some?
    ensures var w := Resolve(page, today, policy).value.value;
            var c := Counts(w.start, w.end, today);
            0 <= c.sinceStart <= c.total && 0 <= c.tillEnd <= c.total
  {
    var w := Resolve(page, today, policy).value.value;
    CountsWithinWindow(w.start, w.end, today);
  }

  /** `main` from the calendar scan on: the scan, the fallback and the calculations. */
  method MealPlanStatus(page: seq<Section>, today: DateTime, flexLeft: real, swipesLeft: int, policy: YearPolicy)
    returns (r: Result<Report, Failure>)
    requires ValidDateTime(today)
    ensures r == Status(page, today, flexLeft, swipesLeft, policy)
  {
    var found := GetSemesterDates(page, today, policy);
    if found.Err? {
      return Err(DateFailure(found.error));
    }
    var start, end;
    if found.value.Some? {
      start, end := found.value.value.start, found.value.value.end;
    } else {
      start, end := FallbackWindow(today.date.year).0, FallbackWindow(today.date.year).1;
    }
    var report := ComputeReport(start, end, today, flexLeft, swipesLeft);
    if report.None? {
      return Err(ZeroLengthSemester);
    }
    return Ok(report.value);
  }

  /** A default-window run: on 20 October 2024 at midnight, 61 of the 123 days have passed,
      so 31000/123 Flex Points should be left, and with 300 left the differential is
      5900/123 and the projection positive. */
  lemma OctoberExample()
    ensures var w := FallbackWindow(2024);
            var today := DateTime(Date(2024, 10, 20), 0);
            var c := Counts(w.0, w.1, today);
            c == DayCounts(123, 61, 62) &&
            ComputeReport(w.0, w.1, today, 300.0, 100).Some? &&
            ComputeReport(w.0, w.1, today, 300.0, 100).value.flexShouldLeft == 31000.0 / 123.0 &&
            ComputeReport(w.0, w.1, today, 300.0, 100).value.flexDifferential == 5900.0 / 123.0 &&
            ComputeReport(w.0, w.1, today, 300.0, 100).value.flexProjection > 0.0
  {
    var w := FallbackWindow(2024);
    var today := DateTime(Date(2024, 10, 20), 0);
    FallbackLength(2024, today);
    assert DaysBeforeMonth(2024, 10) == DaysBeforeMonth(2024, 8) + 31 + 30;
    assert DaysBeforeMonth(2024, 12) == DaysBeforeMonth(2024, 10) + 31 + 30;
    var c := Counts(w.0, w.1, today);
    var rep := ComputeReport(w.0, w.1, today, 300.0, 100).value;
    assert rep.flexShouldLeft * 123.0 == 500.0 * 62.0;
    DifferentialMatchesProjection(FlexBudget, 300.0, 123, 61);
  }
}
