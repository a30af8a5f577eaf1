/** Which year the Spring dates are read in: the heading filter admits "Spring <this year>",
    but the script reads every non-Fall date with next year's number, so a Spring window
    that holds today is never returned. These lemmas exhibit that on a one-section page
    and prove the corrected reading resolves it. */
module SpringYear {
  import opened Results
  import opened Text
  import opened Calendar
  import opened DateToken
  import opened SemesterResolver

  /** A calendar table with one "Classes begin" row and one "Undergraduate Halls close"
      row, dated as `strftime("%b %-d")` would write them. */
  function TwoRowTable(start: Date, end: Date): seq<Row>
    requires ValidDate(start) && ValidDate(end)
  {
    [[FormatToken(start), StartMarker], [FormatToken(end), EndMarker]]
  }

  lemma MarkersDistinct()
    ensures Contains(StartMarker, StartMarker) && !Contains(StartMarker, EndMarker)
    ensures Contains(EndMarker, EndMarker) && !Contains(EndMarker, StartMarker)
  {
    assert OccursAt(StartMarker, StartMarker, 0);
    assert OccursAt(EndMarker, EndMarker, 0);
    NotContainsFirstChar(StartMarker, EndMarker);
    NotContainsFirstChar(EndMarker, StartMarker);
  }

  /** Scanning such a table in the dates' own year finds exactly those dates. */
  lemma TwoRowTableDates(start: Date, end: Date)
    requires ValidDate(start) && ValidDate(end) && start.year == end.year && 1000 <= start.year
    ensures SectionDates(TwoRowTable(start, end), start.year) == Ok(Some((start, end)))
  {
    var rows := TwoRowTable(start, end);
    MarkersDistinct();
    ParseFormatRoundTrip(start);
    ParseFormatRoundTrip(end);
    assert Describes(rows[0], StartMarker) && !Describes(rows[0], EndMarker);
    assert Describes(rows[1], EndMarker) && !Describes(rows[1], StartMarker);
    assert FirstFailure(rows, start.year).None?;
    assert LastDescribing(rows, StartMarker) == Some(0);
    assert LastDescribing(rows, EndMarker) == Some(1);
  }

  /** A page holding one such table under a candidate heading, dated in the year the
      heading calls for, records exactly that window. */
  lemma OneTablePage(heading: string, start: Date, end: Date, year: int, policy: YearPolicy)
    requires IsCandidate(heading, year)
    requires ValidDate(start) && ValidDate(end) && 1000 <= start.year
    requires start.year == end.year == SectionYear(heading, year, policy)
    ensures Recorded([Section(heading, TwoRowTable(start, end))], year, policy) ==
            Ok([Window(heading, start, end)])
  {
    var sec := Section(heading, TwoRowTable(start, end));
    var w := Window(heading, start, end);
    TwoRowTableDates(start, end);
    assert Put([], w) == [w];
    assert RecordSection([], sec, year, policy) == Ok([w]);
    assert [sec][..0] == [];
  }

  /** With the corrected year, a candidate table under a heading naming this year that
      holds today is the window returned. */
  lemma HeadingYearResolvesCurrentTable(heading: string, start: Date, end: Date, today: DateTime)
    requires ValidDateTime(today)
    requires IsCandidate(heading, today.date.year) && Contains(heading, IntToDecimal(today.date.year))
    requires ValidDate(start) && ValidDate(end) && start.year == end.year == today.date.year
    requires 1000 <= today.date.year && Within(start, end, today)
    ensures Resolve([Section(heading, TwoRowTable(start, end))], today, HeadingYear) ==
            Ok(Some(Window(heading, start, end)))
  {
    var w := Window(heading, start, end);
    OneTablePage(heading, start, end, today.date.year, HeadingYear);
    assert FirstCovering([w], today) == Some(0);
  }

  /** As written, the same table under a Spring heading is read one year late, so it
      records a window that starts after today and nothing is returned. */
  lemma AsWrittenMissesSpringTable(heading: string, start: Date, end: Date, today: DateTime)
    requires ValidDateTime(today)
    requires Contains(heading, "Spring") && !Contains(heading, "Fall")
    requires Contains(heading, IntToDecimal(today.date.year))
    requires ValidDate(start) && ValidDate(end) && start.year == end.year == today.date.year
    requires 1000 <= today.date.year < 9999
    requires ValidDate(Date(start.year + 1, start.month, start.day))
    requires ValidDate(Date(end.year + 1, end.month, end.day))
    ensures Resolve([Section(heading, TwoRowTable(start, end))], today, AsWritten) == Ok(None)
  {
    var year := today.date.year;
    var start', end' := Date(year + 1, start.month, start.day), Date(year + 1, end.month, end.day);
    var w := Window(heading, start', end');
    assert TwoRowTable(start', end') == TwoRowTable(start, end);
    OneTablePage(heading, start', end', year, AsWritten);
    OrdinalIncreasing(today.date, start');
    WithinByDays(start', end', today);
    assert FirstCovering([w], today) == None;
  }

  lemma SpringHeading()
    ensures Contains("Spring 2025", "Spring") && !Contains("Spring 2025", "Fall")
    ensures Contains("Spring 2025", IntToDecimal(2025))
  {
    assert OccursAt("Spring 2025", "Spring", 0);
    NotContainsFirstChar("Spring 2025", "Fall");
    assert IntToDecimal(2025) == "2025" by {
      assert NatToDecimal(2) == "2";
      assert NatToDecimal(20) == "20";
      assert NatToDecimal(202) == "202";
    }
    assert OccursAt("Spring 2025", "2025", 7);
  }

  /** The heading filter admits "Spring 2025" both in 2024, for the coming spring, and in
      2025, but not in 2026. */
  lemma SpringCandidateYears()
    ensures IsCandidate("Spring 2025", 2024) && IsCandidate("Spring 2025", 2025)
    ensures !IsCandidate("Spring 2025", 2026)
  {
    SpringHeading();
    var h := "Spring 2025";
    assert IntToDecimal(2026) == "2026" && IntToDecimal(2027) == "2027" by {
      assert NatToDecimal(202) == "202";
    }
    forall i | 0 <= i <= |h| ensures !OccursAt(h, "2026", i) && !OccursAt(h, "2027", i) {
      if i + 4 <= |h| {
        assert h[i..i + 4][3] == h[i + 3];
      }
    }
  }

  /** The discrepancy on one page: on 10 February 2025 a "Spring 2025" table running from
      13 January to 17 May is missed as written and returned with the corrected year. */
  lemma SpringFebruaryExample()
    ensures var page := [Section("Spring 2025", TwoRowTable(Date(2025, 1, 13), Date(2025, 5, 17)))];
            var today := DateTime(Date(2025, 2, 10), 0);
            Resolve(page, today, AsWritten) == Ok(None) &&
            Resolve(page, today, HeadingYear) ==
              Ok(Some(Window("Spring 2025", Date(2025, 1, 13), Date(2025, 5, 17))))
  {
    var start, end, today := Date(2025, 1, 13), Date(2025, 5, 17), DateTime(Date(2025, 2, 10), 0);
    SpringHeading();
    AsWrittenMissesSpringTable("Spring 2025", start, end, today);
    OrdinalIncreasing(start, today.date);
    OrdinalIncreasing(today.date, end);
    WithinByDays(start, end, today);
    HeadingYearResolvesCurrentTable("Spring 2025", start, end, today);
  }
}
