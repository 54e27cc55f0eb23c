/**
 * The date normaliser of the importer (`parseDateDDMonYY` and
 * `excelSerialDateToJSDate`): a cell value becomes a date, whose
 * `YYYY-MM-DD` text is what the source returns, or nothing.
 *
 * Attempts, in order, first success wins:
 *  1. a number strictly between 0 and 60000 is a spreadsheet serial day
 *     (the 1900 date system of ECMA-376 Part 1, section 18.17.4), counted from
 *     1899-12-30 as day 1;
 *  2. `D-Mon-YY` / `D-Mon-YYYY` (month abbreviation in any letter case);
 *  3. `YYYY-MM-DD` with `-` or `/` separators;
 *  4. `M/D/YYYY` with `-` or `/` separators;
 *  5. the host's own date parser, accepted only for a year after 1900.
 * Branches 2 to 4 build the date with the `Date` constructor and keep it only
 * when year, month and day survive construction.
 */
module DateUtils {
  import opened Wrappers
  import opened Text
  import opened Calendar
  import opened IsoDate
  import opened JsValues

  // ---------------------------------------------------------------- serial days

  /** `Date.UTC(1899, 11, 30)`, the date of serial 1 in this code. */
  const SerialEpoch := CivilDate(1899, 12, 30)

  /** `excelSerialDateToJSDate`: the epoch plus ⌊serial − 1⌋ whole days. */
  function SerialToDate(serial: real): (c: CivilDate)
    ensures Valid(c)
    ensures DaysFromCivil(c) == DaysFromCivil(SerialEpoch) + (serial - 1.0).Floor
  {
    CivilFromDays(DaysFromCivil(SerialEpoch) + (serial - 1.0).Floor)
  }

  /** Serial 1 is 1899-12-30 here, one day before the spreadsheet convention's 1900-01-01. */
  lemma SerialOne()
    ensures SerialToDate(1.0) == CivilDate(1899, 12, 30)
  {
    var c := SerialToDate(1.0);
    assert (1.0 - 1.0).Floor == 0;
    DaysFromCivilInjective(c, SerialEpoch);
  }

  /** Every serial in the accepted range lands in a four-digit year. */
  lemma SerialYears(serial: real)
    requires 0.0 < serial < 60000.0
    ensures 1899 <= SerialToDate(serial).year <= 2064
  {
    var c := SerialToDate(serial);
    DayOfYearBounds(c);
    if c.year < 1899 {
      YearsOrdered(c.year, 1899);
    }
    if c.year > 2065 {
      YearsOrdered(2065, c.year);
    }
  }

  // ---------------------------------------------------------------- month names

  const MonthAbbreviations: seq<string> :=
    ["jan", "feb", "mar", "apr", "may", "jun", "jul", "aug", "sep", "oct", "nov", "dec"]

  /** The 0-based month of a three-letter abbreviation, in any letter case. */
  function MonthIndex(t: string): (r: Option<nat>)
    ensures r.Some? <==> |t| == 3 && Lower(t) in MonthAbbreviations
    ensures r.Some? ==> r.value < 12 && MonthAbbreviations[r.value] == Lower(t)
    ensures r.Some? ==> forall k :: 0 <= k < |t| ==> !IsDigit(t[k]) && !IsJsWhitespace(t[k]) && t[k] != '-' && t[k] != '/'
  {
    var l := Lower(t);
    if l == "jan" then Some(0) else if l == "feb" then Some(1) else if l == "mar" then Some(2)
    else if l == "apr" then Some(3) else if l == "may" then Some(4) else if l == "jun" then Some(5)
    else if l == "jul" then Some(6) else if l == "aug" then Some(7) else if l == "sep" then Some(8)
    else if l == "oct" then Some(9) else if l == "nov" then Some(10) else if l == "dec" then Some(11)
    else None
  }

  // ---------------------------------------------------------------- the three patterns

  predicate IsSeparator(c: char) {
    c == '-' || c == '/'
  }

  /** The three captured groups of `^(\d{1,2})-(Jan|...|Dec)-(\d{2}|\d{4})$`, flag `i`. */
  datatype DayMonYearText = DayMonYearText(day: string, month: string, year: string)

  predicate WellFormedDayMonYear(p: DayMonYearText) {
    1 <= |p.day| <= 2 && AllDigits(p.day)
    && MonthIndex(p.month).Some?
    && (|p.year| == 2 || |p.year| == 4) && AllDigits(p.year)
  }

  function DayMonYearString(p: DayMonYearText): string {
    p.day + "-" + p.month + "-" + p.year
  }

  function MatchDayMonYear(s: string): (r: Option<DayMonYearText>)
    ensures r.Some? ==> WellFormedDayMonYear(r.value) && DayMonYearString(r.value) == s
  {
    var p := if |s| > 1 && s[1] == '-' then 1 else 2;
    if |s| < p + 7 || s[p] != '-' || s[p + 4] != '-' then None
    else
      var parts := DayMonYearText(s[..p], s[p + 1..p + 4], s[p + 5..]);
      if WellFormedDayMonYear(parts) then
        assert DayMonYearString(parts) == s;
        Some(parts)
      else None
  }

  /** The matcher recognises every string of the pattern and splits it into its own groups. */
  lemma MatchDayMonYearComplete(p: DayMonYearText)
    requires WellFormedDayMonYear(p)
    ensures MatchDayMonYear(DayMonYearString(p)) == Some(p)
  {
    var s := DayMonYearString(p);
    var k := |p.day|;
    assert s[k] == '-' && s[k + 4] == '-';
    if k == 2 {
      assert s[1] == p.day[1];
    }
    assert s[..k] == p.day;
    forall i | 0 <= i < 3
      ensures s[k + 1 + i] == p.month[i]
    {
    }
    assert s[k + 1..k + 4] == p.month;
    assert s[k + 5..] == p.year;
  }

  /** The three captured groups of `^(\d{4})[-/](\d{2})[-/](\d{2})$`, with the separators. */
  datatype IsoText = IsoText(year: string, sep1: char, month: string, sep2: char, day: string)

  predicate WellFormedIso(p: IsoText) {
    |p.year| == 4 && AllDigits(p.year) && IsSeparator(p.sep1)
    && |p.month| == 2 && AllDigits(p.month) && IsSeparator(p.sep2)
    && |p.day| == 2 && AllDigits(p.day)
  }

  function IsoString(p: IsoText): string {
    p.year + [p.sep1] + p.month + [p.sep2] + p.day
  }

  function MatchIso(s: string): (r: Option<IsoText>)
    ensures r.Some? ==> WellFormedIso(r.value) && IsoString(r.value) == s
  {
    if |s| != 10 then None
    else
      var parts := IsoText(s[..4], s[4], s[5..7], s[7], s[8..]);
      if WellFormedIso(parts) then
        assert IsoString(parts) == s;
        Some(parts)
      else None
  }

  lemma MatchIsoComplete(p: IsoText)
    requires WellFormedIso(p)
    ensures MatchIso(IsoString(p)) == Some(p)
  {
    var s := IsoString(p);
    assert s[..4] == p.year && s[5..7] == p.month && s[8..] == p.day;
  }

  /** The three captured groups of `^(\d{1,2})[-/](\d{1,2})[-/](\d{4})$`, with the separators. */
  datatype MdyText = MdyText(month: string, sep1: char, day: string, sep2: char, year: string)

  predicate WellFormedMdy(p: MdyText) {
    1 <= |p.month| <= 2 && AllDigits(p.month) && IsSeparator(p.sep1)
    && 1 <= |p.day| <= 2 && AllDigits(p.day) && IsSeparator(p.sep2)
    && |p.year| == 4 && AllDigits(p.year)
  }

  function MdyString(p: MdyText): string {
    p.month + [p.sep1] + p.day + [p.sep2] + p.year
  }

  function MatchMdy(s: string): (r: Option<MdyText>)
    ensures r.Some? ==> WellFormedMdy(r.value) && MdyString(r.value) == s
  {
    var p1 := if |s| > 1 && IsSeparator(s[1]) then 1 else 2;
    if |s| <= p1 + 2 then None
    else
      var p2 := if IsSeparator(s[p1 + 2]) then p1 + 2 else p1 + 3;
      if |s| != p2 + 5 then None
      else
        var parts := MdyText(s[..p1], s[p1], s[p1 + 1..p2], s[p2], s[p2 + 1..]);
        if WellFormedMdy(parts) then
          assert MdyString(parts) == s;
          Some(parts)
        else None
  }

  lemma MatchMdyComplete(p: MdyText)
    requires WellFormedMdy(p)
    ensures MatchMdy(MdyString(p)) == Some(p)
  {
    var s := MdyString(p);
    var p1 := |p.month|;
    var p2 := p1 + 1 + |p.day|;
    assert s[p1] == p.sep1 && s[p2] == p.sep2;
    if p1 == 2 {
      assert s[1] == p.month[1];
    }
    if |p.day| == 2 {
      assert s[p1 + 2] == p.day[1];
    }
    assert s[..p1] == p.month;
    forall i | 0 <= i < |p.day|
      ensures s[p1 + 1 + i] == p.day[i]
    {
    }
    assert s[p1 + 1..p2] == p.day;
    assert s[p2 + 1..] == p.year;
  }

  // ---------------------------------------------------------------- building the date

  /** `year < 50 ? 2000 + year : 1900 + year` for a two-digit year. */
  function TwoDigitYear(y: nat): (r: nat)
    requires y < 100
    ensures 1950 <= r <= 2049 && r % 100 == y
  {
    if y < 50 then 2000 + y else 1900 + y
  }

  /**
   * `new Date(year, monthIndex, day)` followed by the check that its year,
   * month and day are the ones given.
   */
  function ConstructAndCheck(year: int, monthIndex: int, day: int): Option<CivilDate> {
    var c := ConstructDate(year, monthIndex, day);
    if c.year == year && c.month - 1 == monthIndex && c.day == day then Some(c) else None
  }

  /**
   * The outcome of that check in closed form: the fields survive exactly when
   * the month and day are in range and the year is not one of 0..99, which
   * the constructor would move to the 1900s.
   */
  function CheckedDate(year: int, monthIndex: int, day: int): (r: Option<CivilDate>)
    ensures r.Some? ==> Valid(r.value)
  {
    if !(0 <= year <= 99) && 0 <= monthIndex <= 11 && 1 <= day <= DaysInMonth(year, monthIndex + 1)
    then Some(CivilDate(year, monthIndex + 1, day))
    else None
  }

  /** The closed form is what constructing and comparing yields, on every input. */
  lemma CheckedDateIsConstruction(year: int, monthIndex: int, day: int)
    ensures CheckedDate(year, monthIndex, day) == ConstructAndCheck(year, monthIndex, day)
    ensures CheckedDate(year, monthIndex, day).Some? <==>
      !(0 <= year <= 99) && 0 <= monthIndex <= 11 && 1 <= day <= DaysInMonth(year, monthIndex + 1)
  {
    ConstructedFieldsSurvive(year, monthIndex, day);
  }

  /** The year a `D-Mon-YY(YY)` match stands for. */
  function DayMonYearYear(p: DayMonYearText): nat
    requires AllDigits(p.year)
  {
    if |p.year| == 2 then TwoDigitYear(DigitsValue(p.year)) else DigitsValue(p.year)
  }

  function DayMonYearDate(s: string): Option<CivilDate> {
    match MatchDayMonYear(s)
    case None => None
    case Some(p) => CheckedDate(DayMonYearYear(p), MonthIndex(p.month).value, DigitsValue(p.day))
  }

  function IsoPatternDate(s: string): Option<CivilDate> {
    match MatchIso(s)
    case None => None
    case Some(p) => CheckedDate(DigitsValue(p.year), DigitsValue(p.month) - 1, DigitsValue(p.day))
  }

  function MdyDate(s: string): Option<CivilDate> {
    match MatchMdy(s)
    case None => None
    case Some(p) => CheckedDate(DigitsValue(p.year), DigitsValue(p.month) - 1, DigitsValue(p.day))
  }

  /** The three pattern branches in order; what they accept is a valid date with a four-digit year of 100 or more. */
  function PatternDate(s: string): (r: Option<CivilDate>)
    ensures r.Some? ==> Valid(r.value) && 100 <= r.value.year <= 9999
  {
    var a := DayMonYearDate(s);
    if a.Some? then a
    else
      var b := IsoPatternDate(s);
      if b.Some? then b else MdyDate(s)
  }

  /** `new Date(s)` as a last resort, accepted only when its year is after 1900. */
  function FallbackDate(s: string, host: Host): (r: Option<CivilDate>)
    ensures r.Some? <==> host.parseDate(s).Some? && CivilFromDays(host.parseDate(s).value).year > 1900
    ensures r.Some? ==>
      Valid(r.value) && r.value.year > 1900 && DaysFromCivil(r.value) == host.parseDate(s).value
  {
    match host.parseDate(s)
    case None => None
    case Some(n) =>
      var c := CivilFromDays(n);
      if c.year > 1900 then Some(c) else None
  }

  /** Everything after the serial-number check: trim, reject blank, patterns, fallback. */
  function ParseText(raw: string, host: Host): (r: Option<CivilDate>)
    ensures Trim(raw) == [] ==> r.None?
    ensures r.Some? ==> Valid(r.value) && r.value.year >= 100
  {
    var s := Trim(raw);
    if s == [] then None
    else
      match PatternDate(s)
      case Some(c) => Some(c)
      case None => FallbackDate(s, host)
  }

  /** The date `parseDateDDMonYY` returns the text of. */
  function ParseDate(v: CellValue, host: Host): (r: Option<CivilDate>)
    ensures v.Missing? ==> r.None?
    ensures r.Some? ==> Valid(r.value) && r.value.year >= 100
  {
    match v
    case Missing => None
    case Num(n) =>
      if 0.0 < n < 60000.0 then
        SerialYears(n);
        Some(SerialToDate(n))
      else ParseText(host.numberToString(n), host)
    case Str(s) => ParseText(s, host)
  }

  /** `parseDateDDMonYY`: the `toISOString` date text of the parsed date, or null. */
  function ParseDateText(v: CellValue, host: Host): Option<string> {
    match ParseDate(v, host)
    case None => None
    case Some(c) => Some(ToIso(c))
  }

  // ---------------------------------------------------------------- properties

  /** A blank or missing cell is null, whatever the host does. */
  lemma BlankIsNull(raw: string, host: Host)
    requires AllWhitespace(raw)
    ensures ParseDate(Str(raw), host) == None && ParseDateText(Str(raw), host) == None
  {
  }

  /**
   * Whenever a date is produced its text has the `YYYY-MM-DD` shape; only the
   * host fallback can produce a year beyond 9999, never the patterns or serials.
   */
  lemma ParsedTextShape(v: CellValue, host: Host)
    requires ParseDate(v, host).Some? && ParseDate(v, host).value.year <= 9999
    ensures ParseDateText(v, host).Some? && IsIsoDateString(ParseDateText(v, host).value)
    ensures DecodeIso(ParseDateText(v, host).value) == ParseDate(v, host).value
  {
    IsoRoundTrip(ParseDate(v, host).value);
  }

  /** Text without white space that a pattern accepts is read by the pattern, never by the host. */
  lemma PatternWins(s: string, host: Host)
    requires NoWhitespace(s) && s != [] && PatternDate(s).Some?
    ensures ParseDate(Str(s), host) == PatternDate(s)
  {
    assert Trim(s) == s;
  }

  /** A `YYYY-MM-DD` text has a digit where the day-month-year shape needs its first dash. */
  lemma IsoIsNotDayMonYear(s: string)
    requires IsIsoDateString(s)
    ensures MatchDayMonYear(s) == None
  {
    assert IsDigit(s[..4][1]) && IsDigit(s[..4][2]);
  }

  /** Normalising is idempotent: the text of a normalised date reads back as that date, through the ISO branch, for any host. */
  lemma NormalisedTextIsStable(c: CivilDate, host: Host)
    requires Valid(c) && 100 <= c.year <= 9999
    ensures ParseDate(Str(ToIso(c)), host) == Some(c)
    ensures ParseDateText(Str(ToIso(c)), host) == Some(ToIso(c))
  {
    var s := ToIso(c);
    IsoRoundTrip(c);
    IsoIsNotDayMonYear(s);
    var p := IsoText(s[..4], '-', s[5..7], '-', s[8..]);
    assert IsoString(p) == s;
    MatchIsoComplete(p);
    assert IsoPatternDate(s) == CheckedDate(c.year, c.month - 1, c.day);
    assert PatternDate(s) == Some(c);
    PatternWins(s, host);
  }

  lemma DayMonYearHasNoWhitespace(p: DayMonYearText)
    requires WellFormedDayMonYear(p)
    ensures NoWhitespace(DayMonYearString(p))
  {
    var s := DayMonYearString(p);
    var k := |p.day|;
    forall i | 0 <= i < |s| ensures !IsJsWhitespace(s[i]) {
      if i < k {
        assert s[i] == p.day[i];
      } else if k < i < k + 4 {
        assert s[i] == p.month[i - k - 1];
      } else if k + 4 < i {
        assert s[i] == p.year[i - k - 5];
      }
    }
  }

  /** A string of the day-month-year pattern that names a real date is read as that date, whatever the host. */
  lemma DayMonYearReading(p: DayMonYearText, host: Host)
    requires WellFormedDayMonYear(p)
    requires CheckedDate(DayMonYearYear(p), MonthIndex(p.month).value, DigitsValue(p.day)).Some?
    ensures ParseDate(Str(DayMonYearString(p)), host)
         == CheckedDate(DayMonYearYear(p), MonthIndex(p.month).value, DigitsValue(p.day))
  {
    var s := DayMonYearString(p);
    MatchDayMonYearComplete(p);
    assert PatternDate(s) == DayMonYearDate(s);
    DayMonYearHasNoWhitespace(p);
    PatternWins(s, host);
  }

  lemma MdyHasNoWhitespace(p: MdyText)
    requires WellFormedMdy(p)
    ensures NoWhitespace(MdyString(p))
  {
    var s := MdyString(p);
    var m := |p.month|;
    var d := m + 1 + |p.day|;
    forall i | 0 <= i < |s| ensures !IsJsWhitespace(s[i]) {
      if i < m {
        assert s[i] == p.month[i];
      } else if m < i < d {
        assert s[i] == p.day[i - m - 1];
      } else if d < i {
        assert s[i] == p.year[i - d - 1];
      }
    }
  }

  /** A month-first text has a day digit where the day-month-year shape needs a month name. */
  lemma MdyIsNotDayMonYear(p: MdyText)
    requires WellFormedMdy(p)
    ensures MatchDayMonYear(MdyString(p)) == None
  {
    var s := MdyString(p);
    var m := |p.month|;
    assert s[m] == p.sep1 && s[m + 1] == p.day[0];
    assert m == 2 ==> s[1] == p.month[1];
  }

  /** A month-first text has a separator among the first four characters, where ISO needs digits. */
  lemma MdyIsNotIso(p: MdyText)
    requires WellFormedMdy(p)
    ensures MatchIso(MdyString(p)) == None
  {
    var s := MdyString(p);
    var m := |p.month|;
    if |s| == 10 {
      assert s[..4][m] == s[m] == p.sep1;
    }
  }

  /** A month-first string is read month first when the day-month-year and ISO shapes do not apply. */
  lemma MonthFirstReading(p: MdyText, host: Host)
    requires WellFormedMdy(p)
    requires CheckedDate(DigitsValue(p.year), DigitsValue(p.month) - 1, DigitsValue(p.day)).Some?
    ensures ParseDate(Str(MdyString(p)), host)
         == CheckedDate(DigitsValue(p.year), DigitsValue(p.month) - 1, DigitsValue(p.day))
  {
    MdyPattern(p);
    MdyHasNoWhitespace(p);
    PatternWins(MdyString(p), host);
  }

  /** A month-first text is decided by its own branch, the earlier two not applying. */
  lemma MdyPattern(p: MdyText)
    requires WellFormedMdy(p)
    ensures PatternDate(MdyString(p)) == CheckedDate(DigitsValue(p.year), DigitsValue(p.month) - 1, DigitsValue(p.day))
  {
    MdyIsNotDayMonYear(p);
    MdyIsNotIso(p);
    MatchMdyComplete(p);
    PatternByMdy(MdyString(p), p);
  }

  /** Text that only the month-first shape matches is read by that branch. */
  lemma PatternByMdy(s: string, p: MdyText)
    requires MatchDayMonYear(s) == None && MatchIso(s) == None && MatchMdy(s) == Some(p)
    ensures PatternDate(s) == CheckedDate(DigitsValue(p.year), DigitsValue(p.month) - 1, DigitsValue(p.day))
  {
    FallsToMdy(s);
    MdyDateOf(s, p);
  }

  /** When neither earlier shape matches, the month-first branch decides. */
  lemma FallsToMdy(s: string)
    requires MatchDayMonYear(s) == None && MatchIso(s) == None
    ensures PatternDate(s) == MdyDate(s)
  {
    assert DayMonYearDate(s) == None;
    assert IsoPatternDate(s) == None;
  }

  /** The month-first branch checks the date its three groups spell. */
  lemma MdyDateOf(s: string, p: MdyText)
    requires MatchMdy(s) == Some(p)
    ensures MdyDate(s) == CheckedDate(DigitsValue(p.year), DigitsValue(p.month) - 1, DigitsValue(p.day))
  {
  }

  lemma TwoDigits(s: string)
    requires |s| == 2 && AllDigits(s)
    ensures DigitsValue(s) == 10 * (s[0] as int - '0' as int) + (s[1] as int - '0' as int)
  {
    assert s[..1][..0] == [];
  }

  lemma FourDigits(s: string)
    requires |s| == 4 && AllDigits(s)
    ensures DigitsValue(s) == DigitsValue(s[..2]) * 100 + DigitsValue(s[2..])
  {
    assert s[..3][..2] == s[..2];
    TwoDigits(s[2..]);
  }

  lemma ExampleDigits(m: string, d: string, y: string)
    requires m == "01" && d == "02" && y == "2024"
    ensures DigitsValue(m) == 1 && DigitsValue(d) == 2 && DigitsValue(y) == 2024
  {
    TwoDigits(m);
    TwoDigits(d);
    FourDigits(y);
    TwoDigits(y[..2]);
    TwoDigits(y[2..]);
  }

  lemma MonthFirstExampleText(p: MdyText)
    requires p == MdyText("01", '/', "02", '/', "2024")
    ensures MdyString(p) == "01/02/2024"
  {
    var s := MdyString(p);
    assert |s| == 10;
    forall i | 0 <= i < 10
      ensures s[i] == "01/02/2024"[i]
    {
      if i < 2 {
        assert s[i] == p.month[i];
      } else if 2 < i < 5 {
        assert s[i] == p.day[i - 3];
      } else if 5 < i {
        assert s[i] == p.year[i - 6];
      }
    }
  }

  lemma MonthFirstExampleParts(p: MdyText)
    requires p == MdyText("01", '/', "02", '/', "2024")
    ensures MdyString(p) == "01/02/2024" && WellFormedMdy(p)
    ensures CheckedDate(DigitsValue(p.year), DigitsValue(p.month) - 1, DigitsValue(p.day))
         == Some(CivilDate(2024, 1, 2))
  {
    MonthFirstExampleText(p);
    ExampleDigits(p.month, p.day, p.year);
  }

  /** `01/02/2024` is 2 January 2024: month first. */
  lemma MonthFirstExample(host: Host)
    ensures ParseDate(Str("01/02/2024"), host) == Some(CivilDate(2024, 1, 2))
  {
    var p := MdyText("01", '/', "02", '/', "2024");
    MonthFirstExampleParts(p);
    MonthFirstReading(p, host);
  }

  lemma LowerOfFeb()
    ensures MonthIndex("Feb") == Some(1) && MonthIndex("jan") == Some(0)
  {
    assert Lower("Feb") == "feb";
    assert Lower("jan") == "jan";
  }

  /** `15-jan-24` is 15 January 2024: two-digit years below 50 fall in the 2000s. */
  lemma DayMonYearExample(host: Host)
    ensures ParseDate(Str("15-jan-24"), host) == Some(CivilDate(2024, 1, 15))
  {
    var p := DayMonYearText("15", "jan", "24");
    assert DayMonYearString(p) == "15-jan-24";
    TwoDigits("15");
    TwoDigits("24");
    LowerOfFeb();
    DayMonYearReading(p, host);
  }

  /** A day-month-year text has month letters where ISO needs year digits. */
  lemma DayMonYearIsNotIso(p: DayMonYearText)
    requires WellFormedDayMonYear(p)
    ensures MatchIso(DayMonYearString(p)) == None
  {
    var s := DayMonYearString(p);
    var k := |p.day|;
    if |s| == 10 {
      assert s[..4][k + 1] == s[k + 1] == p.month[0];
    }
  }

  /** A day-month-year text has a month letter where the month-first shape needs a day digit. */
  lemma DayMonYearIsNotMdy(p: DayMonYearText)
    requires WellFormedDayMonYear(p)
    ensures MatchMdy(DayMonYearString(p)) == None
  {
    var s := DayMonYearString(p);
    var k := |p.day|;
    assert s[k] == '-' && s[k + 1] == p.month[0];
    assert forall i :: 0 <= i < k ==> s[i] == p.day[i];
  }

  /** A day-month-year text is decided by its own branch alone, whether or not the date exists. */
  lemma DayMonYearPattern(p: DayMonYearText)
    requires WellFormedDayMonYear(p)
    ensures PatternDate(DayMonYearString(p))
         == CheckedDate(DayMonYearYear(p), MonthIndex(p.month).value, DigitsValue(p.day))
  {
    MatchDayMonYearComplete(p);
    DayMonYearIsNotIso(p);
    DayMonYearIsNotMdy(p);
  }

  lemma ImpossibleDayParts(p: DayMonYearText)
    requires p == DayMonYearText("30", "Feb", "24")
    ensures DayMonYearString(p) == "30-Feb-24" && WellFormedDayMonYear(p)
    ensures CheckedDate(DayMonYearYear(p), MonthIndex(p.month).value, DigitsValue(p.day)) == None
  {
    ImpossibleDayText(p);
    TwoDigits(p.day);
    TwoDigits(p.year);
    LowerOfFeb();
  }

  lemma ImpossibleDayText(p: DayMonYearText)
    requires p == DayMonYearText("30", "Feb", "24")
    ensures DayMonYearString(p) == "30-Feb-24"
  {
    var s := DayMonYearString(p);
    assert |s| == 9;
    forall i | 0 <= i < 9
      ensures s[i] == "30-Feb-24"[i]
    {
      if i < 2 {
        assert s[i] == p.day[i];
      } else if 2 < i < 6 {
        assert s[i] == p.month[i - 3];
      } else if 6 < i {
        assert s[i] == p.year[i - 7];
      }
    }
  }

  /** An impossible day such as 30 February is rejected by the pattern branches. */
  lemma ImpossibleDayRejected()
    ensures PatternDate("30-Feb-24") == None
  {
    var p := DayMonYearText("30", "Feb", "24");
    ImpossibleDayParts(p);
    DayMonYearPattern(p);
  }
}
