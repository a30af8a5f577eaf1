# Meal plan status, modelled in Dafny

`Meal_Plan_Status.py` helps a student pace a dining plan. The plan holds 500 Flex Points and
230 meal swipes. The script reads the registrar's academic calendar page and finds the
semester that contains today. It then reads the two balances from the card account and
prints how far the student is ahead of or behind an even spending pace.

This project models three parts of the script, together with the parts of Python's
`datetime` they rely on:

- **Calendar cells** (`text.dfy`, `date_token.dfy`): `parse_flexible_date`.
  - It deletes every `.` from the cell.
  - It matches `^([A-Za-z]+) (\d+)` with greedy runs and ignores any trailing text.
  - It hands the two groups and the year to `strptime(..., "%b %d %Y")`. In the C locale
    this accepts the twelve English abbreviations in any case, a day of `1`-`9` or two
    digits `01`-`31`, a four-digit year, and only a day the month actually has.
  - Both ways the parse can fail are kept apart: the script's own "Unrecognized date
    format" error and the `ValueError` raised inside `strptime`.
- **Semester window** (`semester_resolver.dfy`): `get_semester_dates`, on a page already
  split into sections.
  - Each section has a heading and the rows of the table under it; a row is its cell
    texts.
  - The heading filter is applied, along with the year each section's dates are read in.
  - Rows are scanned in order, and the last "Classes begin" / "Undergraduate Halls close"
    row wins. The first cell that does not parse aborts the whole call.
  - The `result` dict is insertion-ordered, and re-assigning a key keeps its place.
  - The answer is the first window with `start <= today <= end`, where `end` is a midnight.
  - The nested loops are methods (`ScanRows`, `RecordPage`, `FindCovering`,
    `GetSemesterDates`). Each is proved equal to a recursive specification, and the
    properties are proved about that specification.
- **Pacing report** (`calendar.dfy`, `pacing.dfy`, `meal_plan.dfy`): the body of `main` from
  the calendar lookup on.
  - If no window is found, 20 August to 21 December of this year is used instead.
  - The three `.days` counts are floored differences. `today` carries a time of day.
  - The report contains:
    - the even-pace allowances and the differentials;
    - the daily, weekly and per-day shares, which are 0 when the days left are 0;
    - the projections, which fall back to the balance when no day has passed.
  - A run ends in one of three ways: a report, the date error escaping the calendar scan,
    or the division by a zero `total_days` on line 98.

`spring_year.dfy` exhibits the discrepancy listed under Findings and proves the corrected
reading. It works on a one-section page whose table is written the way the calendar writes
dates.

Dates follow Python's proleptic Gregorian calendar, years 1 to 9999. `Ordinal` is
`date.toordinal()`. A `DateTime` is a date plus the microseconds since its midnight. The
balances and every derived figure are exact reals.

Four behaviours of the code are easy to misread; the model follows the code:

- A calendar cell that does not parse aborts the whole lookup, not just that candidate's
  window. The error also escapes `main`, whose `except` prints it.
  (`SemesterResolver.SectionDatesOutcome`, `SemesterResolver.RecordedErrorStops`,
  `MealPlan.StatusOutcome`)
- `today` comes from `datetime.now()` and carries a time of day, so inside the window
  `days_since_start + days_till_end` is `total_days - 1` except at midnight exactly.
  (`Pacing.CountsAddUp`)
- The rate guards on lines 97, 110 and 111 are truthiness tests: a negative `days_till_end`
  still divides. Only 0 gives 0. (`Pacing.PerDay`)
- A degenerate window can only have `total_days == 0`, never less: a window found on the
  page holds today, and the default window is 123 days. That case ends the run with
  `ZeroDivisionError` on line 98. (`Pacing.ComputeReport`, `MealPlan.StatusOutcome`)

Whether Spring dates are read in this year or the next is a parameter, `YearPolicy`:
- `AsWritten` is lines 51 and 53 exactly.
- `HeadingYear` is the corrected reading.

Every operation of the resolver and of `main` takes the policy, so each property above is
proved for both readings.

## Model

| member | source | states |
|---|---|---|
| Text.RemoveDots | Meal_Plan_Status.py:28 | the result has no `.`, and text without dots is returned unchanged |
| Text.RemoveDotsAppend | Meal_Plan_Status.py:28 | deleting dots distributes over concatenation |
| Text.DotInsertionIgnored | Meal_Plan_Status.py:28 | inserting a `.` anywhere does not change the dot-free text |
| Text.NotContainsFirstChar | Meal_Plan_Status.py:41-42 | a substring test (`in`) fails when the needle's first character is absent |
| DateToken.LetterRun | Meal_Plan_Status.py:29 | `[A-Za-z]+` takes the longest run of ASCII letters |
| DateToken.DigitRun | Meal_Plan_Status.py:29 | `\d+` takes the longest run of digits |
| DateToken.LetterRunIs | Meal_Plan_Status.py:29 | a maximal letter run has exactly one length |
| DateToken.DigitRunIs | Meal_Plan_Status.py:29 | a maximal digit run has exactly one length |
| DateToken.MatchToken | Meal_Plan_Status.py:29-31 | a match is letters, one space and digits at the start of the text, with both runs maximal; the groups are those two runs |
| DateToken.MatchTokenIff | Meal_Plan_Status.py:29-30 | the regex matches exactly when the text starts with letters, a space and digits |
| DateToken.MatchTokenGroups | Meal_Plan_Status.py:29-31 | letters, a space, digits and any text not starting with a digit give back the letters and the digits as the groups |
| DateToken.MonthNumber | Meal_Plan_Status.py:32 | `%b` gives month m exactly when the lower-cased name is the m-th abbreviation, and fails on any other name |
| DateToken.AbbreviationsDistinct | Meal_Plan_Status.py:32 | no two month abbreviations are equal |
| DateToken.MonthNameRead | Meal_Plan_Status.py:32 | `%b` reads each English abbreviation as its own month |
| DateToken.DecimalRoundTrip | Meal_Plan_Status.py:32 | the digits `str(n)` writes read back as `n` |
| DateToken.DecimalLength | Meal_Plan_Status.py:32 | `str(n)` has k digits when 10^(k-1) <= n < 10^k |
| DateToken.NatToDecimalAtLeast | Meal_Plan_Status.py:32 | `str(n)` has at least k digits when n >= 10^(k-1) |
| DateToken.DayField | Meal_Plan_Status.py:32 | `%d` accepts one or two digits with a value from 1 to 31, and gives that value |
| DateToken.DayNumberRead | Meal_Plan_Status.py:32 | `%d` reads each day number from 1 to 31 written by `str` as itself |
| DateToken.YearFieldOfYear | Meal_Plan_Status.py:32 | `%Y` reads back the interpolated year exactly when it has four digits |
| DateToken.Strptime | Meal_Plan_Status.py:32 | `strptime` succeeds exactly when month, day and four-digit year are readable and the day exists in that month; the result is that year with the month's position among the twelve abbreviations and the day's value; otherwise it raises `ValueError` |
| DateToken.StrptimeWritten | Meal_Plan_Status.py:32 | the month abbreviation and day number of any valid date from year 1000 on are read back as that date |
| DateToken.ParseFlexibleDate | Meal_Plan_Status.py:27-33 | every date returned is valid and carries exactly the `year` argument |
| DateToken.ParseRejectsExactly | Meal_Plan_Status.py:28-33 | "Unrecognized date format" is raised exactly when the dot-free text lacks the letters-space-digits start; otherwise the outcome is `strptime` of the two groups |
| DateToken.ParseIgnoresDot | Meal_Plan_Status.py:28 | a `.` anywhere in the cell does not change the outcome |
| DateToken.ParseIgnoresTrailingText | Meal_Plan_Status.py:29-32 | text after the day digits is ignored |
| DateToken.ParseFormatRoundTrip | Meal_Plan_Status.py:27-33 | a cell written as `%b` and the day number parses back, in the date's own year, to that date |
| DateToken.ParseExampleAug26 | Meal_Plan_Status.py:28-32 | "Aug 26" and "Aug. 26" in 2024 both give 26 August 2024 |
| DateToken.ParseExampleTbd | Meal_Plan_Status.py:29-33 | "TBD" raises "Unrecognized date format" |
| Calendar.DaysInMonth | Meal_Plan_Status.py:32 | months have 28 to 31 days; February has 29 in Gregorian leap years |
| Calendar.DaysBeforeMonthMonotone | Meal_Plan_Status.py:57 | the days before a month grow with the month |
| Calendar.DaysBeforeYearMonotone | Meal_Plan_Status.py:57 | the days before a year grow with the year |
| Calendar.OrdinalWithinYear | Meal_Plan_Status.py:57 | a date's ordinal lies within its own year's span |
| Calendar.OrdinalIncreasing | Meal_Plan_Status.py:57 | `toordinal()` is strictly increasing in calendar order |
| Calendar.OrdinalOrder | Meal_Plan_Status.py:57 | comparing dates is comparing ordinals, in both directions, and equal ordinals are equal dates |
| Calendar.DaysBetween | Meal_Plan_Status.py:90-92 | `.days` is the difference in whole days, rounded toward minus infinity |
| Calendar.DaysSinceMidnight | Meal_Plan_Status.py:90-91 | from a midnight, `.days` counts calendar days whatever the time of the later instant |
| Calendar.DaysUntilMidnight | Meal_Plan_Status.py:92 | up to a midnight, `.days` loses one day when the earlier instant is past its own midnight |
| Calendar.Within | Meal_Plan_Status.py:57 | a time inside the window falls on a day from the start date to the end date |
| Calendar.WithinByDays | Meal_Plan_Status.py:57 | `start <= today <= end` holds from the first day on, and on the closing day only at 00:00 |
| SemesterResolver.FirstFailure | Meal_Plan_Status.py:45-53 | finds the first date row whose cell does not parse, with every earlier date row parsing, or reports that all of them parse |
| SemesterResolver.FirstFailureStep | Meal_Plan_Status.py:45-53 | after a clean prefix, the next row is the first failure exactly when it is a date row whose cell does not parse |
| SemesterResolver.FirstFailureFound | Meal_Plan_Status.py:45-53 | the first failing row is the one the scan stops at |
| SemesterResolver.LastDescribing | Meal_Plan_Status.py:49-53 | finds the last row whose second cell mentions the marker, or reports that none does |
| SemesterResolver.LastDescribingUnique | Meal_Plan_Status.py:49-53 | a mentioning row with none after it is the one kept |
| SemesterResolver.LatestDate | Meal_Plan_Status.py:50-53 | a date kept for a marker is valid and in the section's year |
| SemesterResolver.LatestDateStep | Meal_Plan_Status.py:50-53 | one more row replaces the kept date with its own when it mentions the marker, and otherwise leaves it |
| SemesterResolver.SectionDates | Meal_Plan_Status.py:44-54 | the dates found in a table are valid and in the year the section is read in |
| SemesterResolver.SectionDatesOutcome | Meal_Plan_Status.py:44-54 | a table raises exactly when a date cell fails to parse; otherwise it gives a window exactly when it has both a start row and an end row |
| SemesterResolver.LastMatchingRowWins | Meal_Plan_Status.py:49-53 | the start and end are the dates of the last matching rows |
| SemesterResolver.ScanRows | Meal_Plan_Status.py:44-54 | the row loop with its reassigned `start` and `end` computes `SectionDates` |
| SemesterResolver.IndexOfName | Meal_Plan_Status.py:55 | finds where a heading already sits in the dict, or reports that it is absent |
| SemesterResolver.Put | Meal_Plan_Status.py:55 | `result[semester] = ...` adds a new heading last and replaces an existing heading's dates in place; keys stay distinct |
| SemesterResolver.PutWellDated | Meal_Plan_Status.py:55 | the assignment keeps every entry's dates valid and in its heading's year |
| SemesterResolver.PutEntries | Meal_Plan_Status.py:55 | after the assignment the new window is present, every other entry was there before under another heading, and no heading is lost |
| SemesterResolver.IsCandidate | Meal_Plan_Status.py:41-42 | a heading is considered only if it names Fall or Spring: one naming Fall but not Spring exactly when it names this year, one naming Spring exactly when it names this year or the next |
| SemesterResolver.SectionYear | Meal_Plan_Status.py:51-53 | dates are read in this year or the next; a Fall heading always in this year; as written, in this year exactly when the heading names Fall |
| SemesterResolver.RecordSection | Meal_Plan_Status.py:41-55 | handling one heading keeps the keys distinct and every entry valid and dated in its heading's year |
| SemesterResolver.Recorded | Meal_Plan_Status.py:39-55 | the dict after the heading loop has distinct keys and valid dates in each heading's year |
| SemesterResolver.RecordedStep | Meal_Plan_Status.py:39-55 | a heading that yields a window is assigned into the dict; any other heading leaves it unchanged |
| SemesterResolver.FirstCovering | Meal_Plan_Status.py:56-59 | finds the first entry, in insertion order, whose window holds today, or reports that none does |
| SemesterResolver.Resolve | Meal_Plan_Status.py:35-59 | a returned window is valid and holds today |
| SemesterResolver.RecordedErrorStops | Meal_Plan_Status.py:51-53 | once a date cell raises, the rest of the page has no effect |
| SemesterResolver.RecordPage | Meal_Plan_Status.py:39-55 | the heading loop computes `Recorded` |
| SemesterResolver.FindCovering | Meal_Plan_Status.py:56-59 | the loop over `result.items()` computes `FirstCovering` |
| SemesterResolver.GetSemesterDates | Meal_Plan_Status.py:35-59 | the function computes `Resolve`, and a returned window holds today |
| SemesterResolver.WindowOf | Meal_Plan_Status.py:55 | the window a section records is keyed by its heading, and both its dates are valid and in the year that heading is read in |
| SemesterResolver.LastWriter | Meal_Plan_Status.py:55 | the last section under a heading that records a window, if any |
| SemesterResolver.LastWriterIsLast | Meal_Plan_Status.py:55 | no later section under that heading records a window |
| SemesterResolver.RecordedFromCandidates | Meal_Plan_Status.py:41-55 | every dict entry holds the window of the last candidate section under that heading that found both dates |
| SemesterResolver.RecordedComplete | Meal_Plan_Status.py:41-55 | every candidate section that found both dates has an entry under its heading |
| SemesterResolver.NonCandidateIgnored | Meal_Plan_Status.py:41-42 | removing a section that fails the heading filter, from anywhere in the page, changes nothing |
| SemesterResolver.RecordedEmptyIff | Meal_Plan_Status.py:54-55 | the dict stays empty exactly when no section records a window |
| SemesterResolver.NoWindowWithoutBothMarkers | Meal_Plan_Status.py:54-59 | when every candidate table lacks a start row or an end row, nothing is returned (unless a cell raised) |
| SemesterResolver.SpringNeverResolvedAsWritten | Meal_Plan_Status.py:51-57 | as written, every window returned is under a heading containing "Fall" |
| SpringYear.MarkersDistinct | Meal_Plan_Status.py:50-52 | each marker mentions itself and not the other |
| SpringYear.TwoRowTableDates | Meal_Plan_Status.py:44-54 | a table with one start row and one end row gives exactly those two dates |
| SpringYear.OneTablePage | Meal_Plan_Status.py:39-55 | a page with one such candidate table, dated in its heading's year, records exactly that window |
| SpringYear.SpringHeading | Meal_Plan_Status.py:41-42 | "Spring 2025" contains "Spring" and `str(2025)`, and not "Fall" |
| SpringYear.SpringCandidateYears | Meal_Plan_Status.py:41-42 | "Spring 2025" passes the heading filter in 2024 and in 2025, but not in 2026 |
| SpringYear.HeadingYearResolvesCurrentTable | Meal_Plan_Status.py:51-53 | with the corrected year, a candidate table that names this year and holds today is returned |
| SpringYear.AsWrittenMissesSpringTable | Meal_Plan_Status.py:51-53 | as written, the same table under a Spring heading is read a year late and nothing is returned |
| SpringYear.SpringFebruaryExample | Meal_Plan_Status.py:41-57 | on 10 February 2025, a "Spring 2025" table from 13 January to 17 May is missed as written and returned when corrected |
| Pacing.Counts | Meal_Plan_Status.py:90-92 | `total_days` and `days_since_start` count calendar days; `days_till_end` also drops the day under way |
| Pacing.CountsAddUp | Meal_Plan_Status.py:90-92 | days elapsed plus days left is `total_days`, less one unless today is at midnight |
| Pacing.CountsWithinWindow | Meal_Plan_Status.py:90-92 | inside the window, both counts lie between 0 and `total_days` |
| Pacing.PerDay | Meal_Plan_Status.py:97 | the share is 0 when the days left are 0, and otherwise times the days left gives the balance |
| Pacing.ShouldHaveLeft | Meal_Plan_Status.py:98-101 | the allowance times `total_days` is the budget times the days not yet elapsed |
| Pacing.ShouldHaveLeftEnds | Meal_Plan_Status.py:98-101 | the allowance is the whole budget on the first day and 0 on the last |
| Pacing.ShouldHaveLeftDecreasing | Meal_Plan_Status.py:98-101 | the allowance strictly shrinks as days pass |
| Pacing.Projection | Meal_Plan_Status.py:112 | with no day elapsed the projection is the balance; otherwise the projected consumption over the window is the consumption so far scaled by `total_days / days_since_start` |
| Pacing.ProjectionAtEnd | Meal_Plan_Status.py:112 | on the closing day the projection is the balance itself |
| Pacing.DifferentialMatchesProjection | Meal_Plan_Status.py:109-118 | whenever both divisions happen, projection × days elapsed = differential × `total_days`, for either sign of the day counts; inside a window the two have the same sign |
| Pacing.Figures | Meal_Plan_Status.py:95-118 | the report carries the window and the two balances read |
| Pacing.ComputeReport | Meal_Plan_Status.py:90-118 | the calculation fails exactly when start equals end (a `total_days` of 0), and otherwise is `Figures` of the day counts |
| Pacing.ReportDifferentials | Meal_Plan_Status.py:98-117 | both differentials measure the balance against the even-pace allowance |
| Pacing.ReportShares | Meal_Plan_Status.py:97-111 | daily and weekly Flex Points and swipes per day share out the balance over the days left (weekly = 7 days' worth); all are 0 when the days left are 0 |
| Pacing.ReportProjections | Meal_Plan_Status.py:112-118 | both projections are the balance when no day has passed, and otherwise, for any non-zero `days_since_start` (negative before the window too), the differential rescaled to the whole window |
| MealPlan.FallbackWindow | Meal_Plan_Status.py:86-89 | the default window is 20 August to 21 December of this year, both valid, in order |
| MealPlan.FallbackLength | Meal_Plan_Status.py:88-90 | the default window is 123 days in every year |
| MealPlan.ChosenWindow | Meal_Plan_Status.py:85-89 | the window found on the page is used, or the default one when there is none |
| MealPlan.Status | Meal_Plan_Status.py:82-118 | a report's window dates are valid |
| MealPlan.StatusOutcome | Meal_Plan_Status.py:85-98 | the run fails with the date error exactly when the lookup raises; it divides by zero exactly when the page's window starts and ends on the same day; otherwise it reports on the window found, or on the default one |
| MealPlan.StatusCountsInWindow | Meal_Plan_Status.py:85-92 | with a window found on the page, days elapsed and days left both lie between 0 and `total_days` |
| MealPlan.MealPlanStatus | Meal_Plan_Status.py:82-118 | the body of `main` computes `Status` |
| MealPlan.OctoberExample | Meal_Plan_Status.py:88-112 | on 20 October 2024 with the default window, `total_days` is 123 and 61 days have elapsed; 31000/123 Flex Points should be left; with 300 left, the differential is 5900/123 and the projection positive |

## Left out

- Fetching the calendar page and walking its HTML (lines 36-37, 39-40, 43, 45-46, 49) is not modelled. The page is given as its `<h3>` sections: the heading text after `strip()`, and the cell texts of each row of the table that follows. A heading with no table after it (`find_next` returning `None`) is not represented.
- `get_flex_points_and_swipes` (lines 65-76) is left out because it is browser automation against the card account. The two balances are inputs.
- `datetime.now()` (line 83) is an input, `today`.
- `clear_console`, the `print` calls, `round(..., 2)`, `strftime` for display, `input` and the top-level `except` (lines 19-25, 87, 103-126) are left out as presentation and I/O. A failure is returned as a value instead of printed.
- Floating point is left out: balances and derived figures are exact reals, so rounding in the last place is not modelled.
- `strptime` is modelled for the C locale only: English month abbreviations, ASCII letters and digits. Python's `\d` also matches non-ASCII decimal digits, and other locales use other month names. Neither is modelled.
- Only the `%d` forms the calendar's cells can produce are distinguished. Because the regex group holds nothing but digits, the space-padded day form `strptime` also accepts cannot occur.
- SemesterResolver.LastWriter: states only that the section found records a window under that heading; that no later one does is the separate lemma `LastWriterIsLast`.
- Pacing.Figures: its contract names only the fields copied through; the meaning of the computed figures is stated by `ReportDifferentials`, `ReportShares` and `ReportProjections`.
- MealPlan.Status: its contract states only that the dates are valid; the outcomes are stated by `StatusOutcome` and the figures by the `Pacing` lemmas.

## Findings

| source | as written | input that shows it | evidently intended | confidence | as-written member | corrected member |
|---|---|---|---|---|---|---|
| Meal_Plan_Status.py:51-53 | every date under a heading without "Fall" is read as `today.year + 1`, including under "Spring <this year>", which the filter on line 42 admits | a "Spring 2025" table with "Jan 13" (Classes begin) and "May 17" (Undergraduate Halls close), and today 10 February 2025: the window is read as 2026, nothing is returned, and `main` falls back to 20 August - 21 December 2025 | Spring dates are read in the year the heading names, so the current spring semester is found | high; not executed | SpringYear.AsWrittenMissesSpringTable | SpringYear.HeadingYearResolvesCurrentTable |

The general form of the as-written behaviour is `SemesterResolver.SpringNeverResolvedAsWritten`:
as written, no window under a heading without "Fall" is ever returned. The corrected reading
is `YearPolicy.HeadingYear`. It reads a section in this year when the heading says "Fall" or
names this year, and in the next year otherwise. `SpringYear.SpringFebruaryExample` shows
both readings on the same page.
