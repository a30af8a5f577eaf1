/** The calculation block of `main` (Meal_Plan_Status.py:90-118): day counts over the
    semester window and the pace of the 500 Flex Points and 230 meal swipes of the plan.
    Python floats are modelled as exact reals. */
module Pacing {
  import opened Results
  import opened Calendar

  /** Flex Points the plan starts with (lines 95, 99, 101, 112). */
  const FlexBudget: real := 500.0
  /** Meal swipes of the "Block 230" plan (lines 98, 118). */
  const SwipeBudget: int := 230

  /** `total_days`, `days_since_start` and `days_till_end` (lines 90-92). */
  datatype DayCounts = DayCounts(total: int, sinceStart: int, tillEnd: int)

  /** The three `.days` differences, with the window's dates at midnight and `today` the
      current instant: whole calendar days, except that a day already begun does not
      count towards the days left. */
  function Counts(start: Date, end: Date, today: DateTime): (c: DayCounts)
    requires ValidDate(start) && ValidDate(end) && ValidDateTime(today)
    ensures c.total == Ordinal(end) - Ordinal(start)
    ensures c.sinceStart == Ordinal(today.date) - Ordinal(start)
    ensures c.tillEnd == Ordinal(end) - Ordinal(today.date) - (if today.micros == 0 then 0 else 1)
  {
    DaysSinceMidnight(start, AtMidnight(end));
    DaysSinceMidnight(start, today);
    DaysUntilMidnight(today, end);
    DayCounts(DaysBetween(AtMidnight(start), AtMidnight(end)),
              DaysBetween(AtMidnight(start), today),
              DaysBetween(today, AtMidnight(end)))
  }

  /** The days elapsed and the days left make up the window, less the day under way. */
  lemma CountsAddUp(start: Date, end: Date, today: DateTime)
    requires ValidDate(start) && ValidDate(end) && ValidDateTime(today)
    ensures var c := Counts(start, end, today);
            c.sinceStart + c.tillEnd == c.total - (if today.micros == 0 then 0 else 1)
  {
  }

  /** Inside the window neither count is negative and neither exceeds the window. */
  lemma CountsWithinWindow(start: Date, end: Date, today: DateTime)
    requires ValidDate(start) && ValidDate(end) && ValidDateTime(today)
    requires Within(start, end, today)
    ensures var c := Counts(start, end, today);
            0 <= c.sinceStart <= c.total && 0 <= c.tillEnd <= c.total
  {
    WithinByDays(start, end, today);
  }

  /** `x / days if days else 0` (lines 97, 110, 111): an even share of what is left over
      the days left, or 0 on the last day. */
  function PerDay(left: real, days: int): (r: real)
    ensures days == 0 ==> r == 0.0
    ensures days != 0 ==> r * days as real == left
  {
    if days != 0 then left / days as real else 0.0
  }

  /** `budget - ((budget / total_days) * days_since_start)` (lines 98-101): the allowance
      left after spending evenly for the days elapsed. Python raises ZeroDivisionError
      when `total_days` is 0, so the caller must rule that out. */
  function ShouldHaveLeft(budget: real, total: int, since: int): (r: real)
    requires total != 0
    ensures r * total as real == budget * (total - since) as real
  {
    var perDay := budget / total as real;
    assert perDay * total as real == budget;
    budget - perDay * since as real
  }

  /** On the first day the whole allowance should be left, and none on the closing day. */
  lemma ShouldHaveLeftEnds(budget: real, total: int)
    requires total != 0
    ensures ShouldHaveLeft(budget, total, 0) == budget
    ensures ShouldHaveLeft(budget, total, total) == 0.0
  {
    var a, b := ShouldHaveLeft(budget, total, 0), ShouldHaveLeft(budget, total, total);
    assert a * total as real == budget * total as real;
    assert b * total as real == 0.0;
  }

  /** The allowance shrinks as days pass. */
  lemma ShouldHaveLeftDecreasing(budget: real, total: int, d1: int, d2: int)
    requires total > 0 && budget > 0.0 && d1 < d2
    ensures ShouldHaveLeft(budget, total, d2) < ShouldHaveLeft(budget, total, d1)
  {
    var a, b := ShouldHaveLeft(budget, total, d1), ShouldHaveLeft(budget, total, d2);
    assert (a - b) * total as real == budget * (d2 - d1) as real;
  }

  /** `budget - ((budget - left) / days_since_start * total_days)` when any day has passed,
      otherwise what is left (lines 112, 118): the balance at the end of the window if
      spending goes on at the average rate so far. */
  function Projection(budget: real, left: real, total: int, since: int): (r: real)
    ensures since == 0 ==> r == left
    ensures since != 0 ==> (budget - r) * since as real == (budget - left) * total as real
  {
    if since != 0 then
      var rate := (budget - left) / since as real;
      assert rate * since as real == budget - left;
      budget - rate * total as real
    else left
  }

  /** On the closing day the projection is what is actually left. */
  lemma ProjectionAtEnd(budget: real, left: real, total: int)
    requires total != 0
    ensures Projection(budget, left, total, total) == left
  {
    var p := Projection(budget, left, total, total);
    assert (budget - p) * total as real == (budget - left) * total as real;
    assert (budget - p - (budget - left)) * total as real == 0.0;
  }

  /** The differential (lines 109, 117) and the projection agree in sign: ahead of the even
      pace exactly when on course to finish with something left. The projection scaled by
      the days elapsed is the differential scaled by the length of the window. */
  lemma DifferentialMatchesProjection(budget: real, left: real, total: int, since: int)
    requires total != 0 && since != 0
    ensures Projection(budget, left, total, since) * since as real ==
            (left - ShouldHaveLeft(budget, total, since)) * total as real
    ensures total > 0 && since > 0 ==>
            (left - ShouldHaveLeft(budget, total, since) >= 0.0 <==>
             Projection(budget, left, total, since) >= 0.0)
  {
    var p, s := Projection(budget, left, total, since), ShouldHaveLeft(budget, total, since);
    var T, S := total as real, since as real;
    assert (budget - p) * S == (budget - left) * T;
    assert s * T == budget * (T - S);
    assert p * S == (left - s) * T;
    if total > 0 && since > 0 {
      if p >= 0.0 {
        assert (left - s) * T >= 0.0;
      } else {
        assert (left - s) * T < 0.0;
      }
    }
  }

  /** What `main` prints: the window, then the Flex Point and meal swipe status. */
  datatype Report = Report(
    start: Date, end: Date,
    flexLeft: real, flexShouldLeft: real, flexDifferential: real,
    flexWeekly: real, flexDaily: real, flexProjection: real,
    swipesLeft: int, swipesPerDay: real, swipesDifferential: real, swipesProjection: real)

  /** Lines 95-118 once the day counts are known and `total_days` is not 0. */
  function Figures(start: Date, end: Date, c: DayCounts, flexLeft: real, swipesLeft: int): (rep: Report)
    requires c.total != 0
    ensures rep.start == start && rep.end == end && rep.flexLeft == flexLeft && rep.swipesLeft == swipesLeft
  {
    var swipeBudget := SwipeBudget as real;
    var flexShouldLeft := ShouldHaveLeft(FlexBudget, c.total, c.sinceStart);
    var swipesShouldLeft := ShouldHaveLeft(swipeBudget, c.total, c.sinceStart);
    Report(
      start, end,
      flexLeft, flexShouldLeft, flexLeft - flexShouldLeft,
      PerDay(flexLeft, c.tillEnd) * 7.0, PerDay(flexLeft, c.tillEnd),
      Projection(FlexBudget, flexLeft, c.total, c.sinceStart),
      swipesLeft, PerDay(swipesLeft as real, c.tillEnd),
      swipesLeft as real - swipesShouldLeft,
      Projection(swipeBudget, swipesLeft as real, c.total, c.sinceStart))
  }

  /** Lines 90-118 for a window, the current instant and the two balances read from the
      card account, or None where line 98 divides by a `total_days` of 0. */
  function ComputeReport(start: Date, end: Date, today: DateTime, flexLeft: real, swipesLeft: int)
    : (r: Option<Report>)
    requires ValidDate(start) && ValidDate(end) && ValidDateTime(today)
    ensures r.None? <==> start == end
    ensures r.Some? ==> Counts(start, end, today).total != 0 &&
                        r.value == Figures(start, end, Counts(start, end, today), flexLeft, swipesLeft)
  {
    var c := Counts(start, end, today);
    OrdinalOrder(start, end);
    if c.total == 0 then None else Some(Figures(start, end, c, flexLeft, swipesLeft))
  }

  /** The differentials compare what is left with the even-pace allowance. */
  lemma ReportDifferentials(start: Date, end: Date, c: DayCounts, flexLeft: real, swipesLeft: int)
    requires c.total != 0
    ensures var rep := Figures(start, end, c, flexLeft, swipesLeft);
            var T, S := c.total as real, c.sinceStart as real;
            (flexLeft - rep.flexDifferential) * T == FlexBudget * (T - S) &&
            (swipesLeft as real - rep.swipesDifferential) * T == SwipeBudget as real * (T - S)
  {
  }

  /** The daily and weekly figures share out what is left over the days left, and are 0
      on the closing day. */
  lemma ReportShares(start: Date, end: Date, c: DayCounts, flexLeft: real, swipesLeft: int)
    requires c.total != 0
    ensures var rep := Figures(start, end, c, flexLeft, swipesLeft);
            (c.tillEnd != 0 ==>
              rep.flexDaily * c.tillEnd as real == flexLeft &&
              rep.flexWeekly * c.tillEnd as real == 7.0 * flexLeft &&
              rep.swipesPerDay * c.tillEnd as real == swipesLeft as real) &&
            (c.tillEnd == 0 ==> rep.flexDaily == rep.flexWeekly == rep.swipesPerDay == 0.0)
  {
    var daily := PerDay(flexLeft, c.tillEnd);
    if c.tillEnd != 0 {
      assert daily * 7.0 * c.tillEnd as real == 7.0 * (daily * c.tillEnd as real);
    }
  }

  /** Each projection is what is left before any day has passed, and otherwise its
      differential rescaled from the days elapsed to the whole window. */
  lemma ReportProjections(start: Date, end: Date, c: DayCounts, flexLeft: real, swipesLeft: int)
    requires c.total != 0
    ensures var rep := Figures(start, end, c, flexLeft, swipesLeft);
            var T, S := c.total as real, c.sinceStart as real;
            (c.sinceStart == 0 ==> rep.flexProjection == flexLeft && rep.swipesProjection == swipesLeft as real) &&
            (c.sinceStart != 0 ==>
              rep.flexProjection * S == rep.flexDifferential * T &&
              rep.swipesProjection * S == rep.swipesDifferential * T)
  {
    if c.sinceStart != 0 {
      DifferentialMatchesProjection(FlexBudget, flexLeft, c.total, c.sinceStart);
      DifferentialMatchesProjection(SwipeBudget as real, swipesLeft as real, c.total, c.sinceStart);
    }
  }
}
