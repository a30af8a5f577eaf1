/** The selection logic of `get_semester_dates` (Meal_Plan_Status.py:35-59). The calendar
    page is given as its `<h3>` sections, each with the rows of the table that follows
    the heading; a row is the text of its `<td>` cells. */
module SemesterResolver {
  import opened Results
  import opened Text
  import opened Calendar
  import opened DateToken

  type Row = seq<string>

  /** A heading's stripped text and the rows of the table under it. */
  datatype Section = Section(heading: string, rows: seq<Row>)

  /** A recorded semester: the heading it was found under, its first class day and the
      day the undergraduate halls close (both at midnight). */
  datatype Window = Window(name: string, start: Date, end: Date)

  /** Which year a section's dates are given. `AsWritten` is the script's rule: this year
      for a Fall heading, next year for any other. `HeadingYear` also gives this year to a
      Spring heading that names this year (see the Findings section of the README). */
  datatype YearPolicy = AsWritten | HeadingYear

  const StartMarker: string := "Classes begin"
  const EndMarker: string := "Undergraduate Halls close"

  /** The heading filter: a Fall heading naming this year, or a Spring heading naming this
      year or the next. */
  predicate IsCandidate(heading: string, year: int)
    ensures IsCandidate(heading, year) ==> Contains(heading, "Fall") || Contains(heading, "Spring")
    ensures IsCandidate(heading, year) ==>
      Contains(heading, IntToDecimal(year)) || Contains(heading, IntToDecimal(year + 1))
    ensures Contains(heading, "Fall") && !Contains(heading, "Spring") ==>
      (IsCandidate(heading, year) <==> Contains(heading, IntToDecimal(year)))
    ensures Contains(heading, "Spring") ==>
      (IsCandidate(heading, year) <==>
       Contains(heading, IntToDecimal(year)) || Contains(heading, IntToDecimal(year + 1)))
  {
    (Contains(heading, "Fall") && Contains(heading, IntToDecimal(year))) ||
    (Contains(heading, "Spring") &&
     (Contains(heading, IntToDecimal(year)) || Contains(heading, IntToDecimal(year + 1))))
  }

  /** The year handed to `parse_flexible_date` for every date under `heading`. */
  function SectionYear(heading: string, year: int, policy: YearPolicy): (r: int)
    ensures r == year || r == year + 1
    ensures Contains(heading, "Fall") ==> r == year
    ensures policy == AsWritten ==> (r == year <==> Contains(heading, "Fall"))
  {
    match policy
    case AsWritten => if Contains(heading, "Fall") then year else year + 1
    case HeadingYear =>
      if Contains(heading, "Fall") || Contains(heading, IntToDecimal(year)) then year else year + 1
  }

  /** A row of at least two cells whose second cell mentions `marker`. */
  predicate Describes(row: Row, marker: string)
  {
    |row| >= 2 && Contains(row[1], marker)
  }

  /** A row whose first cell the scan parses as a date. */
  predicate IsDateRow(row: Row)
  {
    Describes(row, StartMarker) || Describes(row, EndMarker)
  }

  /** The first date row whose cell does not parse: the row whose `ValueError` escapes. */
  function FirstFailure(rows: seq<Row>, year: int): (r: Option<nat>)
    ensures r.Some? ==>
      r.value < |rows| && IsDateRow(rows[r.value]) &&
      ParseFlexibleDate(rows[r.value][0], year).Err? &&
      forall j :: 0 <= j < r.value && IsDateRow(rows[j]) ==> ParseFlexibleDate(rows[j][0], year).Ok?
    ensures r.None? ==>
      forall j :: 0 <= j < |rows| && IsDateRow(rows[j]) ==> ParseFlexibleDate(rows[j][0], year).Ok?
    decreases |rows|
  {
    if rows == [] then None
    else
      var prefix, last := rows[..|rows| - 1], rows[|rows| - 1];
      assert forall j :: 0 <= j < |prefix| ==> prefix[j] == rows[j];
      match FirstFailure(prefix, year)
      case Some(i) => Some(i)
      case None =>
        if IsDateRow(last) && ParseFlexibleDate(last[0], year).Err? then Some(|rows| - 1) else None
  }

  /** The last row that describes `marker`: the one whose date survives the scan. */
  function LastDescribing(rows: seq<Row>, marker: string): (r: Option<nat>)
    ensures r.Some? ==>
      r.value < |rows| && Describes(rows[r.value], marker) &&
      forall j :: r.value < j < |rows| ==> !Describes(rows[j], marker)
    ensures r.None? ==> forall j :: 0 <= j < |rows| ==> !Describes(rows[j], marker)
    decreases |rows|
  {
    if rows == [] then None
    else if Describes(rows[|rows| - 1], marker) then Some(|rows| - 1)
    else
      var prefix := rows[..|rows| - 1];
      assert forall j :: 0 <= j < |prefix| ==> prefix[j] == rows[j];
      LastDescribing(prefix, marker)
  }

  /** The date held for `marker` after scanning `rows` in which every date cell parses. */
  function LatestDate(rows: seq<Row>, marker: string, year: int): (r: Option<Date>)
    requires marker == StartMarker || marker == EndMarker
    requires FirstFailure(rows, year).None?
    ensures r.Some? ==> ValidDate(r.value) && r.value.year == year
  {
    match LastDescribing(rows, marker)
    case Some(i) => Some(ParseFlexibleDate(rows[i][0], year).value)
    case None => None
  }

  /** What scanning one section's table found: the first parse error, or the start and
      end dates when both markers were found, or nothing. */
  function SectionDates(rows: seq<Row>, year: int): (r: Result<Option<(Date, Date)>, DateError>)
    ensures r.Ok? && r.value.Some? ==>
      ValidDate(r.value.value.0) && ValidDate(r.value.value.1) &&
      r.value.value.0.year == year && r.value.value.1.year == year
  {
    match FirstFailure(rows, year)
    case Some(i) => Err(ParseFlexibleDate(rows[i][0], year).error)
    case None =>
      match (LatestDate(rows, StartMarker, year), LatestDate(rows, EndMarker, year))
      case (Some(s), Some(e)) => Ok(Some((s, e)))
      case _ => Ok(None)
  }

  /** A table raises exactly when one of its date cells does not parse, and otherwise
      gives a window exactly when it has both a start row and an end row. */
  lemma SectionDatesOutcome(rows: seq<Row>, year: int)
    ensures SectionDates(rows, year).Err? <==>
      exists j :: 0 <= j < |rows| && IsDateRow(rows[j]) && ParseFlexibleDate(rows[j][0], year).Err?
    ensures SectionDates(rows, year).Ok? ==>
      (SectionDates(rows, year).value.Some? <==>
        (exists i :: 0 <= i < |rows| && Describes(rows[i], StartMarker)) &&
        (exists j :: 0 <= j < |rows| && Describes(rows[j], EndMarker)))
  {
    match FirstFailure(rows, year)
    case Some(i) =>
    case None =>
      if (exists i :: 0 <= i < |rows| && Describes(rows[i], StartMarker)) &&
         (exists j :: 0 <= j < |rows| && Describes(rows[j], EndMarker)) {
        assert LastDescribing(rows, StartMarker).Some? && LastDescribing(rows, EndMarker).Some?;
      }
  }

  /** A describing row with none after it is the one `LastDescribing` finds. */
  lemma LastDescribingUnique(rows: seq<Row>, marker: string, i: int)
    requires 0 <= i < |rows| && Describes(rows[i], marker)
    requires forall j :: i < j < |rows| ==> !Describes(rows[j], marker)
    ensures LastDescribing(rows, marker) == Some(i)
  {
  }

  /** When several rows mention a marker, the last of them gives the date. */
  lemma LastMatchingRowWins(rows: seq<Row>, year: int, s: Date, e: Date)
    requires SectionDates(rows, year) == Ok(Some((s, e)))
    ensures forall i :: 0 <= i < |rows| && Describes(rows[i], StartMarker) &&
                        (forall j :: i < j < |rows| ==> !Describes(rows[j], StartMarker))
                        ==> ParseFlexibleDate(rows[i][0], year) == Ok(s)
    ensures forall i :: 0 <= i < |rows| && Describes(rows[i], EndMarker) &&
                        (forall j :: i < j < |rows| ==> !Describes(rows[j], EndMarker))
                        ==> ParseFlexibleDate(rows[i][0], year) == Ok(e)
  {
    forall i | 0 <= i < |rows| && Describes(rows[i], StartMarker) &&
               (forall j :: i < j < |rows| ==> !Describes(rows[j], StartMarker))
      ensures ParseFlexibleDate(rows[i][0], year) == Ok(s)
    {
      LastDescribingUnique(rows, StartMarker, i);
    }
    forall i | 0 <= i < |rows| && Describes(rows[i], EndMarker) &&
               (forall j :: i < j < |rows| ==> !Describes(rows[j], EndMarker))
      ensures ParseFlexibleDate(rows[i][0], year) == Ok(e)
    {
      LastDescribingUnique(rows, EndMarker, i);
    }
  }

  /** One more row: the scan either meets its first bad date cell there or carries on. */
  lemma FirstFailureStep(rows: seq<Row>, i: int, year: int)
    requires 0 <= i < |rows| && FirstFailure(rows[..i], year).None?
    ensures FirstFailure(rows[..i + 1], year) ==
            if IsDateRow(rows[i]) && ParseFlexibleDate(rows[i][0], year).Err? then Some(i) else None
  {
    assert rows[..i + 1][..i] == rows[..i];
  }

  /** A bad date cell met at row `i` is the first one of the whole table. */
  lemma FirstFailureFound(rows: seq<Row>, i: int, year: int)
    requires 0 <= i < |rows| && FirstFailure(rows[..i], year).None?
    requires IsDateRow(rows[i]) && ParseFlexibleDate(rows[i][0], year).Err?
    ensures FirstFailure(rows, year) == Some(i)
  {
    assert forall j :: 0 <= j < i ==> rows[..i][j] == rows[j];
  }

  /** One more row whose date cells parse: a describing row replaces the held date. */
  lemma LatestDateStep(rows: seq<Row>, i: int, marker: string, year: int)
    requires marker == StartMarker || marker == EndMarker
    requires 0 <= i < |rows| && FirstFailure(rows[..i + 1], year).None?
    ensures FirstFailure(rows[..i], year).None?
    ensures LatestDate(rows[..i + 1], marker, year) ==
            if Describes(rows[i], marker) then Some(ParseFlexibleDate(rows[i][0], year).value)
            else LatestDate(rows[..i], marker, year)
  {
    assert rows[..i + 1][..i] == rows[..i];
  }

  /** The scan of one table (lines 44-53): later matching rows overwrite earlier ones, and a
      date cell that does not parse ends the whole resolution. */
  method ScanRows(rows: seq<Row>, year: int) returns (r: Result<Option<(Date, Date)>, DateError>)
    ensures r == SectionDates(rows, year)
  {
    var start: Option<Date> := None;
    var end: Option<Date> := None;
    for i := 0 to |rows|
      invariant FirstFailure(rows[..i], year).None?
      invariant start == LatestDate(rows[..i], StartMarker, year)
      invariant end == LatestDate(rows[..i], EndMarker, year)
    {
      FirstFailureStep(rows, i, year);
      var cells := rows[i];
      if |cells| < 2 {
        LatestDateStep(rows, i, StartMarker, year);
        LatestDateStep(rows, i, EndMarker, year);
        continue;
      }
      var desc := cells[1];
      if Contains(desc, StartMarker) {
        var parsed := ParseFlexibleDate(cells[0], year);
        if parsed.Err? {
          FirstFailureFound(rows, i, year);
          return Err(parsed.error);
        }
        start := Some(parsed.value);
      }
      if Contains(desc, EndMarker) {
        var parsed := ParseFlexibleDate(cells[0], year);
        if parsed.Err? {
          FirstFailureFound(rows, i, year);
          return Err(parsed.error);
        }
        end := Some(parsed.value);
      }
      LatestDateStep(rows, i, StartMarker, year);
      LatestDateStep(rows, i, EndMarker, year);
    }
    assert rows[..|rows|] == rows;
    if start.Some? && end.Some? {
      r := Ok(Some((start.value, end.value)));
    } else {
      r := Ok(None);
    }
  }

  predicate ValidWindow(w: Window)
  {
    ValidDate(w.start) && ValidDate(w.end)
  }

  /** `start <= today <= end` for one item of the `result` dict (line 57): `Within` on the
      window's own dates, named for the item so the scans over the dict read as the source. */
  predicate Covers(w: Window, today: DateTime)
    requires ValidWindow(w) && ValidDateTime(today)
  {
    Within(w.start, w.end, today)
  }

  /** No two entries of the `result` dict share a key. */
  predicate DistinctNames(d: seq<Window>)
  {
    forall i, j :: 0 <= i < j < |d| ==> d[i].name != d[j].name
  }

  function IndexOfName(d: seq<Window>, name: string): (r: Option<nat>)
    ensures r.Some? ==> r.value < |d| && d[r.value].name == name
    ensures r.None? ==> forall i :: 0 <= i < |d| ==> d[i].name != name
  {
    if d == [] then None
    else if d[0].name == name then Some(0)
    else match IndexOfName(d[1..], name)
      case Some(i) => Some(i + 1)
      case None => None
  }

  /** `result[w.name] = (w.start, w.end)` on an insertion-ordered dict: a new key goes
      last, a key already present keeps its place and takes the new dates. */
  function Put(d: seq<Window>, w: Window): (r: seq<Window>)
    requires DistinctNames(d)
    ensures DistinctNames(r)
    ensures (forall i :: 0 <= i < |d| ==> d[i].name != w.name) ==> r == d + [w]
    ensures (exists k :: 0 <= k < |d| && d[k].name == w.name) ==>
      |r| == |d| && forall i :: 0 <= i < |d| ==> r[i] == if d[i].name == w.name then w else d[i]
  {
    match IndexOfName(d, w.name)
    case Some(k) => d[k := w]
    case None => d + [w]
  }

  /** A window holding valid dates in the year its heading calls for. */
  predicate WellDated(w: Window, year: int, policy: YearPolicy)
  {
    ValidWindow(w) &&
    w.start.year == SectionYear(w.name, year, policy) && w.end.year == SectionYear(w.name, year, policy)
  }

  predicate AllWellDated(d: seq<Window>, year: int, policy: YearPolicy)
  {
    forall i :: 0 <= i < |d| ==> WellDated(d[i], year, policy)
  }

  lemma PutWellDated(d: seq<Window>, w: Window, year: int, policy: YearPolicy)
    requires DistinctNames(d) && AllWellDated(d, year, policy) && WellDated(w, year, policy)
    ensures AllWellDated(Put(d, w), year, policy)
  {
    var r := Put(d, w);
    if exists k :: 0 <= k < |d| && d[k].name == w.name {
      assert forall i :: 0 <= i < |r| ==> r[i] == d[i] || r[i] == w;
    } else {
      assert forall i :: 0 <= i < |r| ==> (i < |d| && r[i] == d[i]) || r[i] == w;
    }
  }

  /** Adds one section's window to the dict when the section is a candidate and both of
      its dates were found (lines 41-55). */
  function RecordSection(acc: seq<Window>, sec: Section, year: int, policy: YearPolicy)
    : (r: Result<seq<Window>, DateError>)
    requires DistinctNames(acc) && AllWellDated(acc, year, policy)
    ensures r.Ok? ==> DistinctNames(r.value) && AllWellDated(r.value, year, policy)
  {
    if !IsCandidate(sec.heading, year) then Ok(acc)
    else
      match SectionDates(sec.rows, SectionYear(sec.heading, year, policy))
      case Err(e) => Err(e)
      case Ok(None) => Ok(acc)
      case Ok(Some(dates)) =>
        var w := Window(sec.heading, dates.0, dates.1);
        PutWellDated(acc, w, year, policy);
        Ok(Put(acc, w))
  }

  /** The `result` dict after the first loop, or the error that escaped it. Every entry
      holds valid dates in the year its heading calls for. */
  function Recorded(page: seq<Section>, year: int, policy: YearPolicy): (r: Result<seq<Window>, DateError>)
    ensures r.Ok? ==> DistinctNames(r.value) && AllWellDated(r.value, year, policy)
    decreases |page|
  {
    if page == [] then Ok([])
    else
      match Recorded(page[..|page| - 1], year, policy)
      case Err(e) => Err(e)
      case Ok(acc) => RecordSection(acc, page[|page| - 1], year, policy)
  }

  /** The index of the first entry, in insertion order, whose window holds `today`. */
  function FirstCovering(d: seq<Window>, today: DateTime): (r: Option<nat>)
    requires forall i :: 0 <= i < |d| ==> ValidWindow(d[i])
    requires ValidDateTime(today)
    ensures r.Some? ==>
      r.value < |d| && Covers(d[r.value], today) &&
      forall j :: 0 <= j < r.value ==> !Covers(d[j], today)
    ensures r.None? ==> forall j :: 0 <= j < |d| ==> !Covers(d[j], today)
  {
    if d == [] then None
    else if Covers(d[0], today) then Some(0)
    else match FirstCovering(d[1..], today)
      case Some(i) => Some(i + 1)
      case None => None
  }

  /** `get_semester_dates(url, today)` on the page: the first recorded window holding
      `today`, none, or the parse error. */
  function Resolve(page: seq<Section>, today: DateTime, policy: YearPolicy)
    : (r: Result<Option<Window>, DateError>)
    requires ValidDateTime(today)
    ensures r.Ok? && r.value.Some? ==> ValidWindow(r.value.value) && Covers(r.value.value, today)
  {
    match Recorded(page, today.date.year, policy)
    case Err(e) => Err(e)
    case Ok(acc) =>
      match FirstCovering(acc, today)
      case Some(i) => Ok(Some(acc[i]))
      case None => Ok(None)
  }

  /** Once a section has raised, the rest of the page is never looked at. */
  lemma {:induction false} RecordedErrorStops(page: seq<Section>, n: int, year: int, policy: YearPolicy)
    requires 0 <= n <= |page| && Recorded(page[..n], year, policy).Err?
    ensures Recorded(page, year, policy) == Recorded(page[..n], year, policy)
    decreases |page| - n
  {
    if n < |page| {
      assert page[..n + 1][..n] == page[..n];
      RecordedErrorStops(page, n + 1, year, policy);
    } else {
      assert page[..n] == page;
    }
  }

  /** The loop over headings (lines 39-55): fills the dict, or stops at the first date
      cell that does not parse. */
  method RecordPage(page: seq<Section>, year: int, policy: YearPolicy)
    returns (r: Result<seq<Window>, DateError>)
    ensures r == Recorded(page, year, policy)
  {
    var result: seq<Window> := [];
    for k := 0 to |page|
      invariant Recorded(page[..k], year, policy) == Ok(result)
    {
      assert page[..k + 1][..k] == page[..k];
      var semester := page[k].heading;
      if IsCandidate(semester, year) {
        var dates := ScanRows(page[k].rows, SectionYear(semester, year, policy));
        if dates.Err? {
          RecordedErrorStops(page, k + 1, year, policy);
          return Err(dates.error);
        }
        if dates.value.Some? {
          var (start, end) := dates.value.value;
          result := Put(result, Window(semester, start, end));
        }
      }
    }
    assert page[..|page|] == page;
    return Ok(result);
  }

  /** The loop over the dict's items (lines 56-59): the first window holding `today`. */
  method FindCovering(result: seq<Window>, today: DateTime) returns (r: Option<nat>)
    requires forall i :: 0 <= i < |result| ==> ValidWindow(result[i])
    requires ValidDateTime(today)
    ensures r == FirstCovering(result, today)
  {
    for k := 0 to |result|
      invariant forall j :: 0 <= j < k ==> !Covers(result[j], today)
    {
      if Covers(result[k], today) {
        return Some(k);
      }
    }
    return None;
  }

  /** `get_semester_dates` with the page fetched and parsed: the loop over headings fills
      the dict, the loop over its items picks the first window holding `today`. */
  method GetSemesterDates(page: seq<Section>, today: DateTime, policy: YearPolicy)
    returns (r: Result<Option<Window>, DateError>)
    requires ValidDateTime(today)
    ensures r == Resolve(page, today, policy)
    ensures r.Ok? && r.value.Some? ==> ValidWindow(r.value.value) && Covers(r.value.value, today)
  {
    var recorded := RecordPage(page, today.date.year, policy);
    if recorded.Err? {
      return Err(recorded.error);
    }
    var result := recorded.value;
    var i := FindCovering(result, today);
    if i.Some? {
      return Ok(Some(result[i.value]));
    }
    return Ok(None);
  }

  /** A candidate section whose table gives both dates. */
  predicate YieldsWindow(sec: Section, year: int, policy: YearPolicy)
  {
    IsCandidate(sec.heading, year) &&
    var dates := SectionDates(sec.rows, SectionYear(sec.heading, year, policy));
    dates.Ok? && dates.value.Some?
  }

  /** The window such a section records. */
  function WindowOf(sec: Section, year: int, policy: YearPolicy): (w: Window)
    requires YieldsWindow(sec, year, policy)
    ensures w.name == sec.heading && WellDated(w, year, policy)
  {
    var dates := SectionDates(sec.rows, SectionYear(sec.heading, year, policy)).value.value;
    Window(sec.heading, dates.0, dates.1)
  }

  /** What one more section does to a dict that has not raised. */
  lemma RecordedStep(page: seq<Section>, year: int, policy: YearPolicy)
    requires page != [] && Recorded(page, year, policy).Ok?
    ensures Recorded(page[..|page| - 1], year, policy).Ok?
    ensures var before := Recorded(page[..|page| - 1], year, policy).value;
            var last := page[|page| - 1];
            Recorded(page, year, policy).value ==
              if YieldsWindow(last, year, policy) then Put(before, WindowOf(last, year, policy)) else before
  {
  }

  /** What a dict assignment keeps and adds. */
  lemma PutEntries(d: seq<Window>, w: Window)
    requires DistinctNames(d)
    ensures w in Put(d, w)
    ensures forall x :: x in Put(d, w) ==> x == w || (x in d && x.name != w.name)
    ensures forall x :: x in d ==> exists y :: y in Put(d, w) && y.name == x.name
  {
    var r := Put(d, w);
    if exists k :: 0 <= k < |d| && d[k].name == w.name {
      var k :| 0 <= k < |d| && d[k].name == w.name;
      assert r[k] == w;
      forall x | x in d
        ensures exists y :: y in r && y.name == x.name
      {
        var i :| 0 <= i < |d| && d[i] == x;
        assert r[i] in r;
      }
    } else {
      assert r == d + [w];
    }
  }

  /** The last section of `page` that records a window under `name`. */
  function LastWriter(page: seq<Section>, name: string, year: int, policy: YearPolicy): (r: Option<nat>)
    ensures r.Some? ==>
      r.value < |page| && page[r.value].heading == name && YieldsWindow(page[r.value], year, policy)
    decreases |page|
  {
    if page == [] then None
    else
      var last := page[|page| - 1];
      if last.heading == name && YieldsWindow(last, year, policy) then Some(|page| - 1)
      else
        var prefix := page[..|page| - 1];
        var r := LastWriter(prefix, name, year, policy);
        assert r.Some? ==> prefix[r.value] == page[r.value];
        r
  }

  /** No section after the last writer of `name` records a window under that name. */
  lemma {:induction false} LastWriterIsLast(page: seq<Section>, name: string, year: int, policy: YearPolicy, j: int)
    requires 0 <= j < |page| && page[j].heading == name
    requires LastWriter(page, name, year, policy).Some? ==> LastWriter(page, name, year, policy).value < j
    ensures !YieldsWindow(page[j], year, policy)
    decreases |page|
  {
    var prefix := page[..|page| - 1];
    if j < |page| - 1 {
      assert prefix[j] == page[j];
      LastWriterIsLast(prefix, name, year, policy, j);
    }
  }

  /** Every dict entry was written by a candidate section with that heading, and holds the
      dates of the last such section that found both dates: sections failing the heading
      filter never contribute, and a repeated heading keeps the later section's dates. */
  lemma {:induction false} RecordedFromCandidates(page: seq<Section>, year: int, policy: YearPolicy)
    requires Recorded(page, year, policy).Ok?
    ensures forall w :: w in Recorded(page, year, policy).value ==>
              LastWriter(page, w.name, year, policy).Some? &&
              WindowOf(page[LastWriter(page, w.name, year, policy).value], year, policy) == w
    decreases |page|
  {
    if page != [] {
      var prefix, last := page[..|page| - 1], page[|page| - 1];
      RecordedStep(page, year, policy);
      RecordedFromCandidates(prefix, year, policy);
      var before := Recorded(prefix, year, policy).value;
      var acc := Recorded(page, year, policy).value;
      var found := YieldsWindow(last, year, policy);
      if found {
        PutEntries(before, WindowOf(last, year, policy));
      }
      forall w | w in acc
        ensures LastWriter(page, w.name, year, policy).Some?
        ensures WindowOf(page[LastWriter(page, w.name, year, policy).value], year, policy) == w
      {
        if !(found && w == WindowOf(last, year, policy)) {
          assert w in before && (found ==> w.name != last.heading);
          var k := LastWriter(prefix, w.name, year, policy).value;
          assert prefix[k] == page[k];
        }
      }
    }
  }

  /** Every candidate section that found both dates has an entry under its heading. */
  lemma {:induction false} RecordedComplete(page: seq<Section>, year: int, policy: YearPolicy)
    requires Recorded(page, year, policy).Ok?
    ensures forall k :: 0 <= k < |page| && YieldsWindow(page[k], year, policy) ==>
              exists w :: w in Recorded(page, year, policy).value && w.name == page[k].heading
    decreases |page|
  {
    if page != [] {
      var prefix, last := page[..|page| - 1], page[|page| - 1];
      RecordedStep(page, year, policy);
      RecordedComplete(prefix, year, policy);
      var before := Recorded(prefix, year, policy).value;
      var acc := Recorded(page, year, policy).value;
      var found := YieldsWindow(last, year, policy);
      if found {
        PutEntries(before, WindowOf(last, year, policy));
      }
      forall k | 0 <= k < |page| && YieldsWindow(page[k], year, policy)
        ensures exists w :: w in acc && w.name == page[k].heading
      {
        if k == |page| - 1 {
          assert WindowOf(last, year, policy) in acc;
        } else {
          assert prefix[k] == page[k];
          var x :| x in before && x.name == page[k].heading;
          if found {
            var y :| y in acc && y.name == x.name;
          }
        }
      }
    }
  }

  /** A section that fails the heading filter can be dropped from anywhere in the page
      without changing the outcome. */
  lemma {:induction false} NonCandidateIgnored(a: seq<Section>, sec: Section, b: seq<Section>, year: int, policy: YearPolicy)
    requires !IsCandidate(sec.heading, year)
    ensures Recorded(a + [sec] + b, year, policy) == Recorded(a + b, year, policy)
    decreases |b|
  {
    if b == [] {
      assert (a + [sec] + b)[..|a|] == a;
      assert a + b == a;
    } else {
      var b' := b[..|b| - 1];
      NonCandidateIgnored(a, sec, b', year, policy);
      assert (a + [sec] + b)[..|a + [sec] + b| - 1] == a + [sec] + b';
      assert (a + b)[..|a + b| - 1] == a + b';
    }
  }

  /** The dict stays empty exactly when no section records a window. */
  lemma {:induction false} RecordedEmptyIff(page: seq<Section>, year: int, policy: YearPolicy)
    requires Recorded(page, year, policy).Ok?
    ensures Recorded(page, year, policy).value == [] <==>
              forall k :: 0 <= k < |page| ==> !YieldsWindow(page[k], year, policy)
    decreases |page|
  {
    var acc := Recorded(page, year, policy).value;
    if exists k :: 0 <= k < |page| && YieldsWindow(page[k], year, policy) {
      var k :| 0 <= k < |page| && YieldsWindow(page[k], year, policy);
      RecordedComplete(page, year, policy);
      var w :| w in acc && w.name == page[k].heading;
    } else if page != [] {
      var prefix := page[..|page| - 1];
      RecordedStep(page, year, policy);
      forall k | 0 <= k < |prefix|
        ensures !YieldsWindow(prefix[k], year, policy)
      {
        assert prefix[k] == page[k];
      }
      RecordedEmptyIff(prefix, year, policy);
    }
  }

  /** If no candidate table has both a "Classes begin" and an "Undergraduate Halls close"
      row, no window is returned. */
  lemma NoWindowWithoutBothMarkers(page: seq<Section>, today: DateTime, policy: YearPolicy)
    requires ValidDateTime(today)
    requires forall k :: 0 <= k < |page| && IsCandidate(page[k].heading, today.date.year) ==>
               (forall i :: 0 <= i < |page[k].rows| ==> !Describes(page[k].rows[i], StartMarker)) ||
               (forall i :: 0 <= i < |page[k].rows| ==> !Describes(page[k].rows[i], EndMarker))
    ensures Resolve(page, today, policy).Err? || Resolve(page, today, policy) == Ok(None)
  {
    var year := today.date.year;
    if Recorded(page, year, policy).Ok? {
      forall k | 0 <= k < |page|
        ensures !YieldsWindow(page[k], year, policy)
      {
        if IsCandidate(page[k].heading, year) {
          SectionDatesOutcome(page[k].rows, SectionYear(page[k].heading, year, policy));
        }
      }
      RecordedEmptyIff(page, year, policy);
    }
  }

  /** As written, every date under a heading without "Fall" is given next year, so such a
      window starts after `today` and is never the one returned. */
  lemma SpringNeverResolvedAsWritten(page: seq<Section>, today: DateTime)
    requires ValidDateTime(today)
    requires Resolve(page, today, AsWritten).Ok? && Resolve(page, today, AsWritten).value.Some?
    ensures Contains(Resolve(page, today, AsWritten).value.value.name, "Fall")
  {
    var w := Resolve(page, today, AsWritten).value.value;
    var acc := Recorded(page, today.date.year, AsWritten).value;
    var i := FirstCovering(acc, today).value;
    assert w == acc[i] && WellDated(w, today.date.year, AsWritten);
    if !Contains(w.name, "Fall") {
      assert Before(today.date, w.start);
      OrdinalIncreasing(today.date, w.start);
      WithinByDays(w.start, w.end, today);
    }
  }
}
