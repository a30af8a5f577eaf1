/** `parse_flexible_date` (Meal_Plan_Status.py:27-33): drop every `.`, match
    `^([A-Za-z]+) (\d+)`, and hand month, day and year to
    `datetime.strptime(..., "%b %d %Y")`. */
module DateToken {
  import opened Results
  import opened Text
  import opened Calendar

  /** The two `ValueError`s the parse can raise. */
  datatype DateError =
    | Unrecognized(text: string)                      // the explicit raise, with the dot-free text
    | NotADate(month: string, day: string, year: int) // raised inside `strptime`

  /** The two groups captured by the regular expression. */
  datatype Token = Token(month: string, day: string)

  /** The number of leading ASCII letters. */
  function LetterRun(s: string): (n: nat)
    ensures n <= |s| && AllLetters(s[..n]) && (n == |s| || !IsAsciiLetter(s[n]))
  {
    if s == [] || !IsAsciiLetter(s[0]) then 0
    else
      var n := 1 + LetterRun(s[1..]);
      assert s[..n] == [s[0]] + s[1..][..n - 1];
      n
  }

  /** The number of leading ASCII digits. */
  function DigitRun(s: string): (n: nat)
    ensures n <= |s| && AllDigits(s[..n]) && (n == |s| || !IsAsciiDigit(s[n]))
  {
    if s == [] || !IsAsciiDigit(s[0]) then 0
    else
      var n := 1 + DigitRun(s[1..]);
      assert s[..n] == [s[0]] + s[1..][..n - 1];
      n
  }

  lemma LetterRunIs(s: string, n: nat)
    requires n <= |s| && AllLetters(s[..n]) && (n == |s| || !IsAsciiLetter(s[n]))
    ensures LetterRun(s) == n
  {
    var k := LetterRun(s);
    assert forall i :: 0 <= i < n ==> s[..n][i] == s[i];
    assert forall i :: 0 <= i < k ==> s[..k][i] == s[i];
  }

  lemma DigitRunIs(s: string, n: nat)
    requires n <= |s| && AllDigits(s[..n]) && (n == |s| || !IsAsciiDigit(s[n]))
    ensures DigitRun(s) == n
  {
    var k := DigitRun(s);
    assert forall i :: 0 <= i < n ==> s[..n][i] == s[i];
    assert forall i :: 0 <= i < k ==> s[..k][i] == s[i];
  }

  /** `s` begins with `n` letters, one space and `m` digits. */
  predicate ShapeAt(s: string, n: int, m: int)
  {
    0 < n && 0 < m && n + 1 + m <= |s| &&
    AllLetters(s[..n]) && s[n] == ' ' && AllDigits(s[n + 1..n + 1 + m])
  }

  /** The text the regular expression `^[A-Za-z]+ \d+` accepts at its start. */
  ghost predicate HasTokenShape(s: string)
  {
    exists n, m :: ShapeAt(s, n, m)
  }

  /** `re.match(r'^([A-Za-z]+) (\d+)', s)`: both runs are greedy, and whatever follows
      the digits is ignored. */
  function MatchToken(s: string): (r: Option<Token>)
    ensures r.Some? ==> AllLetters(r.value.month) && AllDigits(r.value.day)
    ensures r.Some? ==>
      var n, m := |r.value.month|, |r.value.day|;
      ShapeAt(s, n, m) && r.value.month == s[..n] && r.value.day == s[n + 1..n + 1 + m] &&
      (n + 1 + m == |s| || !IsAsciiDigit(s[n + 1 + m]))
  {
    var n := LetterRun(s);
    if n == 0 || n == |s| || s[n] != ' ' then None
    else
      var m := DigitRun(s[n + 1..]);
      if m == 0 then None
      else
        assert s[n + 1..][..m] == s[n + 1..n + 1 + m];
        Some(Token(s[..n], s[n + 1..n + 1 + m]))
  }

  /** The match succeeds exactly on text of the expected shape. */
  lemma MatchTokenIff(s: string)
    ensures MatchToken(s).Some? <==> HasTokenShape(s)
  {
    if HasTokenShape(s) {
      var n, m :| ShapeAt(s, n, m);
      LetterRunIs(s, n);
      assert s[n + 1] == s[n + 1..n + 1 + m][0];
      assert DigitRun(s[n + 1..]) > 0;
    }
  }

  /** Letters, a space and digits are captured as the two groups, whatever comes after
      (as long as it does not continue the digits). */
  lemma MatchTokenGroups(month: string, day: string, rest: string)
    requires |month| > 0 && AllLetters(month)
    requires |day| > 0 && AllDigits(day)
    requires rest == [] || !IsAsciiDigit(rest[0])
    ensures MatchToken(month + " " + day + rest) == Some(Token(month, day))
  {
    var s := month + " " + day + rest;
    var n, m := |month|, |day|;
    assert s[..n] == month && s[n] == ' ' && s[n + 1..n + 1 + m] == day;
    LetterRunIs(s, n);
    var t := s[n + 1..];
    assert t == day + rest;
    assert t[..m] == day;
    DigitRunIs(t, m);
  }

  /** `%b` in the C locale: the English three-letter abbreviations, matched ignoring case. */
  const MonthAbbreviations: seq<string> :=
    ["jan", "feb", "mar", "apr", "may", "jun", "jul", "aug", "sep", "oct", "nov", "dec"]

  function FindFrom(names: seq<string>, key: string, i: nat): (r: Option<int>)
    requires i <= |names|
    ensures r.Some? ==> i <= r.value < |names| && names[r.value] == key
    ensures r.None? ==> key !in names[i..]
    decreases |names| - i
  {
    if i == |names| then None
    else if names[i] == key then Some(i)
    else FindFrom(names, key, i + 1)
  }

  /** The month number (1 to 12) `%b` reads from a name, or none. */
  function MonthNumber(name: string): (r: Option<int>)
    ensures r.Some? ==> 1 <= r.value <= 12 && MonthAbbreviations[r.value - 1] == Lower(name)
    ensures r.None? ==> Lower(name) !in MonthAbbreviations
  {
    match FindFrom(MonthAbbreviations, Lower(name), 0)
    case Some(i) => Some(i + 1)
    case None => None
  }

  function DigitValue(c: char): int
    requires IsAsciiDigit(c)
  {
    c as int - '0' as int
  }

  /** The value of a string of ASCII digits. */
  function DecimalValue(s: string): (v: nat)
    requires AllDigits(s)
  {
    if s == [] then 0 else 10 * DecimalValue(s[..|s| - 1]) + DigitValue(s[|s| - 1])
  }

  /** `str` and `DecimalValue` are inverse. */
  lemma {:induction false} DecimalRoundTrip(n: nat)
    ensures DecimalValue(NatToDecimal(n)) == n
  {
    if n >= 10 {
      DecimalRoundTrip(n / 10);
      var s := NatToDecimal(n);
      assert s[..|s| - 1] == NatToDecimal(n / 10);
    }
  }

  function Pow10(k: nat): nat
  {
    if k == 0 then 1 else 10 * Pow10(k - 1)
  }

  /** `str(n)` has `k` digits exactly when `10^(k-1) <= n < 10^k`. */
  lemma {:induction false} DecimalLength(n: nat, k: nat)
    requires k >= 1 && Pow10(k - 1) <= n < Pow10(k)
    ensures |NatToDecimal(n)| == k
  {
    if k > 1 {
      DecimalLength(n / 10, k - 1);
    }
  }

  /** strptime's `%d`: `3[01]|[12]\d|0[1-9]|[1-9]`, and since a space must follow,
      nothing longer is accepted. */
  function DayField(digits: string): (r: Option<int>)
    requires AllDigits(digits)
    ensures r.Some? ==> 1 <= r.value <= 31 && r.value == DecimalValue(digits)
    ensures r.Some? <==> 1 <= |digits| <= 2 && 1 <= DecimalValue(digits) <= 31
  {
    if |digits| == 1 then
      assert digits[..0] == [];
      if digits[0] == '0' then None else Some(DigitValue(digits[0]))
    else if |digits| == 2 then
      assert digits[..1] == [digits[0]] && [digits[0]][..0] == [];
      assert DecimalValue(digits[..1]) == DigitValue(digits[0]);
      var v := 10 * DigitValue(digits[0]) + DigitValue(digits[1]);
      if 1 <= v <= 31 then Some(v) else None
    else None
  }

  /** strptime's `%Y`: exactly four digits. */
  function YearField(text: string): (r: Option<int>)
  {
    if |text| == 4 && AllDigits(text) then Some(DecimalValue(text)) else None
  }

  /** The year written out by the f-string is read back by `%Y` exactly for four-digit years. */
  lemma YearFieldOfYear(year: int)
    ensures YearField(IntToDecimal(year)) == if 1000 <= year <= 9999 then Some(year) else None
  {
    if year < 0 {
      assert IntToDecimal(year)[0] == '-';
    } else {
      DecimalRoundTrip(year);
      if year < 10 {
      } else if year < 100 {
        DecimalLength(year, 2);
      } else if year < 1000 {
        DecimalLength(year, 3);
      } else if year < 10000 {
        DecimalLength(year, 4);
      } else {
        var k := NatToDecimal(year);
        assert Pow10(4) == 10000;
        assert |k| >= 5 by { NatToDecimalAtLeast(year, 5); }
      }
    }
  }

  lemma {:induction false} NatToDecimalAtLeast(n: nat, k: nat)
    requires k >= 1 && n >= Pow10(k - 1)
    ensures |NatToDecimal(n)| >= k
  {
    if k > 1 {
      NatToDecimalAtLeast(n / 10, k - 1);
    }
  }

  /** `datetime.strptime(f"{month} {day} {year}", "%b %d %Y")`. */
  function Strptime(month: string, day: string, year: int): (r: Result<Date, DateError>)
    requires AllDigits(day)
    ensures r.Ok? ==> ValidDate(r.value) && r.value.year == year
    ensures r.Ok? <==>
      MonthNumber(month).Some? && DayField(day).Some? && 1000 <= year <= 9999 &&
      DayField(day).value <= DaysInMonth(year, MonthNumber(month).value)
    ensures r.Ok? ==> r.value == Date(year, MonthNumber(month).value, DayField(day).value)
    ensures r.Err? ==> r.error == NotADate(month, day, year)
  {
    YearFieldOfYear(year);
    var m, d, y := MonthNumber(month), DayField(day), YearField(IntToDecimal(year));
    if m.Some? && d.Some? && y.Some? && d.value <= DaysInMonth(y.value, m.value) then
      Ok(Date(y.value, m.value, d.value))
    else
      Err(NotADate(month, day, year))
  }

  /** `parse_flexible_date(text, year)`. */
  function ParseFlexibleDate(text: string, year: int): (r: Result<Date, DateError>)
    ensures r.Ok? ==> ValidDate(r.value) && r.value.year == year
  {
    var s := RemoveDots(text);
    match MatchToken(s)
    case None => Err(Unrecognized(s))
    case Some(tok) => Strptime(tok.month, tok.day, year)
  }

  /** The explicit "Unrecognized date format" error is raised exactly when the dot-free
      text does not start with letters, one space and digits; otherwise the outcome is
      whatever `strptime` makes of the two groups. */
  lemma ParseRejectsExactly(text: string, year: int)
    ensures ParseFlexibleDate(text, year) == Err(Unrecognized(RemoveDots(text))) <==>
            !HasTokenShape(RemoveDots(text))
    ensures HasTokenShape(RemoveDots(text)) ==>
            var tok := MatchToken(RemoveDots(text)).value;
            ParseFlexibleDate(text, year) == Strptime(tok.month, tok.day, year)
  {
    MatchTokenIff(RemoveDots(text));
  }

  /** Dots are removed before matching, so a dot anywhere changes nothing. */
  lemma ParseIgnoresDot(a: string, b: string, year: int)
    ensures ParseFlexibleDate(a + "." + b, year) == ParseFlexibleDate(a + b, year)
  {
    DotInsertionIgnored(a, b);
  }

  /** Text after the day number is ignored, provided it does not extend the number. */
  lemma ParseIgnoresTrailingText(month: string, day: string, rest: string, year: int)
    requires |month| > 0 && AllLetters(month)
    requires |day| > 0 && AllDigits(day)
    requires RemoveDots(rest) == [] || !IsAsciiDigit(RemoveDots(rest)[0])
    ensures ParseFlexibleDate(month + " " + day + rest, year) == Strptime(month, day, year)
  {
    assert '.' !in month && '.' !in day;
    RemoveDotsAppend(month + " " + day, rest);
    RemoveDotsAppend(month + " ", day);
    RemoveDotsAppend(month, " ");
    MatchTokenGroups(month, day, RemoveDots(rest));
  }

  /** How `strftime("%b")` writes a month. */
  const MonthNames: seq<string> :=
    ["Jan", "Feb", "Mar", "Apr", "May", "Jun", "Jul", "Aug", "Sep", "Oct", "Nov", "Dec"]

  /** A calendar cell such as `Aug 26` for a date. */
  function FormatToken(d: Date): string
    requires ValidDate(d)
  {
    MonthNames[d.month - 1] + " " + NatToDecimal(d.day)
  }

  lemma MonthNamesFold(i: int)
    requires 0 <= i < 12
    ensures Lower(MonthNames[i]) == MonthAbbreviations[i]
  {
  }

  /** No two abbreviations are the same, so each names one month. */
  lemma AbbreviationsDistinct(a: int, b: int)
    requires 0 <= a < 12 && 0 <= b < 12 && MonthAbbreviations[a] == MonthAbbreviations[b]
    ensures a == b
  {
    var x, y := MonthAbbreviations[a], MonthAbbreviations[b];
    assert x[0] == y[0] && x[1] == y[1] && x[2] == y[2];
  }

  /** `%b` reads each written month name back as its own month. */
  lemma MonthNameRead(i: int)
    requires 0 <= i < 12
    ensures MonthNumber(MonthNames[i]) == Some(i + 1)
  {
    MonthNamesFold(i);
    var m := MonthNumber(MonthNames[i]);
    assert m.Some? by {
      assert Lower(MonthNames[i]) in MonthAbbreviations;
    }
    AbbreviationsDistinct(m.value - 1, i);
  }

  /** `%d` reads each day number written by `str` back as itself. */
  lemma DayNumberRead(day: int)
    requires 1 <= day <= 31
    ensures AllDigits(NatToDecimal(day)) && DayField(NatToDecimal(day)) == Some(day)
  {
    DecimalRoundTrip(day);
    if day >= 10 {
      DecimalLength(day, 2);
    }
  }

  /** `strptime` accepts the written month name and day of a valid date. */
  lemma StrptimeWritten(d: Date)
    requires ValidDate(d) && 1000 <= d.year
    ensures AllDigits(NatToDecimal(d.day))
    ensures Strptime(MonthNames[d.month - 1], NatToDecimal(d.day), d.year) == Ok(d)
  {
    MonthNameRead(d.month - 1);
    DayNumberRead(d.day);
  }

  /** Reading back a written cell with the date's own year gives the date. */
  lemma ParseFormatRoundTrip(d: Date)
    requires ValidDate(d) && 1000 <= d.year
    ensures ParseFlexibleDate(FormatToken(d), d.year) == Ok(d)
  {
    var name := MonthNames[d.month - 1];
    var day := NatToDecimal(d.day);
    assert AllLetters(name) && |name| == 3;
    assert FormatToken(d) == name + " " + day + "";
    ParseIgnoresTrailingText(name, day, "", d.year);
    StrptimeWritten(d);
  }

  /** A calendar cell with and without the abbreviation's period. */
  lemma ParseExampleAug26()
    ensures ParseFlexibleDate("Aug 26", 2024) == Ok(Date(2024, 8, 26))
    ensures ParseFlexibleDate("Aug. 26", 2024) == Ok(Date(2024, 8, 26))
  {
    var d := Date(2024, 8, 26);
    assert ValidDate(d);
    assert NatToDecimal(26) == "26" by {
      assert NatToDecimal(2) == "2";
      assert DigitChar(6) == '6';
    }
    assert MonthNames[7] == "Aug";
    assert FormatToken(d) == "Aug 26";
    ParseFormatRoundTrip(d);
    assert "Aug. 26" == "Aug" + "." + " 26";
    assert "Aug 26" == "Aug" + " 26";
    ParseIgnoresDot("Aug", " 26", 2024);
  }

  /** A placeholder cell is rejected rather than read as some date. */
  lemma ParseExampleTbd()
    ensures ParseFlexibleDate("TBD", 2024) == Err(Unrecognized("TBD"))
  {
    assert '.' !in "TBD";
    LetterRunIs("TBD", 3);
  }
}
