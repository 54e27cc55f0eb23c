/**
 * The proleptic Gregorian calendar as JavaScript's `Date` sees it, with every
 * instant reduced to its UTC day.  Day numbers count days from 0001-01-01
 * (day 0); a `CivilDate` is a (year, month 1..12, day) triple.
 *
 * `DaysFromCivil` and `CivilFromDays` are proved to be inverse bijections
 * between valid civil dates and integers; `MakeDay` and `ConstructDate` are the
 * field normalisation of ECMA-262 (sections 21.4.1.28 and 21.4.2.1), including
 * the mapping of years 0..99 to 1900..1999 done by the `Date` constructor.
 */
module Calendar {

  datatype CivilDate = CivilDate(year: int, month: int, day: int)

  predicate IsLeapYear(y: int) {
    y % 4 == 0 && (y % 100 != 0 || y % 400 == 0)
  }

  function DaysInYear(y: int): int {
    if IsLeapYear(y) then 366 else 365
  }

  function DaysInMonth(y: int, m: int): (n: int)
    requires 1 <= m <= 12
    ensures 28 <= n <= 31
  {
    if m == 2 then (if IsLeapYear(y) then 29 else 28)
    else if m == 4 || m == 6 || m == 9 || m == 11 then 30
    else 31
  }

  predicate Valid(c: CivilDate) {
    1 <= c.month <= 12 && 1 <= c.day <= DaysInMonth(c.year, c.month)
  }

  /** Days in the months of year `y` that precede month `m` (m = 13: the whole year). */
  function DaysBeforeMonth(y: int, m: int): int
    requires 1 <= m <= 13
  {
    var leap := if IsLeapYear(y) && m > 2 then 1 else 0;
    leap +
      (if m == 1 then 0 else if m == 2 then 31 else if m == 3 then 59
       else if m == 4 then 90 else if m == 5 then 120 else if m == 6 then 151
       else if m == 7 then 181 else if m == 8 then 212 else if m == 9 then 243
       else if m == 10 then 273 else if m == 11 then 304 else if m == 12 then 334
       else 365)
  }

  /** Day number of January 1st of year `y` (floor division makes it valid for every year). */
  function DaysBeforeYear(y: int): int {
    365 * (y - 1) + (y - 1) / 4 - (y - 1) / 100 + (y - 1) / 400
  }

  function DaysFromCivil(c: CivilDate): int
    requires 1 <= c.month <= 12
  {
    DaysBeforeYear(c.year) + DaysBeforeMonth(c.year, c.month) + c.day - 1
  }

  lemma MonthStep(y: int, m: int)
    requires 1 <= m <= 12
    ensures DaysBeforeMonth(y, m + 1) == DaysBeforeMonth(y, m) + DaysInMonth(y, m)
  {
  }

  lemma MonthsOrdered(y: int, m1: int, m2: int)
    requires 1 <= m1 < m2 <= 13
    ensures DaysBeforeMonth(y, m1) + DaysInMonth(y, m1) <= DaysBeforeMonth(y, m2)
  {
  }

  lemma YearLength(y: int)
    ensures DaysBeforeMonth(y, 13) == DaysInYear(y)
  {
  }

  /** Euclidean division and remainder are determined by `y == k * q + r, 0 <= r < k`. */
  lemma DivModUnique(y: int, k: int, q: int, r: int)
    requires k > 0 && 0 <= r < k && y == k * q + r
    ensures y / k == q && y % k == r
  {
    var q', r' := y / k, y % k;
    assert y == k * q' + r';
    if q' > q {
      assert k * q' >= k * (q + 1) by { MulMonotone(k, q + 1, q'); }
    }
    if q' < q {
      assert k * q >= k * (q' + 1) by { MulMonotone(k, q' + 1, q); }
    }
  }

  lemma MulMonotone(k: int, a: int, b: int)
    requires k > 0 && a <= b
    ensures k * a <= k * b
  {
  }

  /** Going from y - 1 to y, the quotient by k grows by one exactly at multiples of k. */
  lemma DivStep(y: int, k: int)
    requires k > 0
    ensures y / k - (y - 1) / k == if y % k == 0 then 1 else 0
  {
    var q, r := (y - 1) / k, (y - 1) % k;
    if r + 1 < k {
      DivModUnique(y, k, q, r + 1);
    } else {
      DivModUnique(y, k, q + 1, 0);
    }
  }

  lemma NextYear(y: int)
    ensures DaysBeforeYear(y + 1) == DaysBeforeYear(y) + DaysInYear(y)
  {
    DivStep(y, 4);
    DivStep(y, 100);
    DivStep(y, 400);
  }

  /** A 400-year cycle holds exactly 146097 days. */
  lemma CycleStart(q: int)
    ensures DaysBeforeYear(1 + 400 * q) == 146097 * q
  {
    assert (400 * q) / 4 == 100 * q;
    assert (400 * q) / 100 == 4 * q;
    assert (400 * q) / 400 == q;
  }

  lemma {:induction false} YearsOrdered(y1: int, y2: int)
    requires y1 < y2
    ensures DaysBeforeYear(y1) + DaysInYear(y1) <= DaysBeforeYear(y2)
    decreases y2 - y1
  {
    NextYear(y1);
    if y1 + 1 < y2 {
      YearsOrdered(y1 + 1, y2);
    }
  }

  /** Walks forward whole years from `y` until `r` days fit in the year reached. */
  function {:induction false} YearOf(y: int, r: int): (p: (int, int))
    requires r >= 0
    ensures DaysBeforeYear(p.0) + p.1 == DaysBeforeYear(y) + r
    ensures 0 <= p.1 < DaysInYear(p.0)
    decreases r
  {
    if r < DaysInYear(y) then (y, r)
    else
      NextYear(y);
      YearOf(y + 1, r - DaysInYear(y))
  }

  /** Walks forward whole months from `m` of year `y` until `r` days fit in the month reached. */
  function MonthOf(y: int, m: int, r: int): (p: (int, int))
    requires 1 <= m <= 12
    requires 0 <= r < DaysInYear(y) - DaysBeforeMonth(y, m)
    ensures 1 <= p.0 <= 12 && 1 <= p.1 <= DaysInMonth(y, p.0)
    ensures DaysBeforeMonth(y, p.0) + p.1 - 1 == DaysBeforeMonth(y, m) + r
    decreases 12 - m
  {
    YearLength(y);
    MonthStep(y, m);
    if r < DaysInMonth(y, m) then (m, r + 1)
    else MonthOf(y, m + 1, r - DaysInMonth(y, m))
  }

  /** The civil date of day number `n`. */
  function CivilFromDays(n: int): (c: CivilDate)
    ensures Valid(c) && DaysFromCivil(c) == n
  {
    var q := n / 146097;
    CycleStart(q);
    var p := YearOf(1 + 400 * q, n % 146097);
    YearLength(p.0);
    var md := MonthOf(p.0, 1, p.1);
    CivilDate(p.0, md.0, md.1)
  }

  lemma DayOfYearBounds(c: CivilDate)
    requires Valid(c)
    ensures 0 <= DaysBeforeMonth(c.year, c.month) + c.day - 1 < DaysInYear(c.year)
  {
    MonthsOrdered(c.year, c.month, 13);
    YearLength(c.year);
  }

  /** Distinct valid dates have distinct day numbers. */
  lemma DaysFromCivilInjective(c1: CivilDate, c2: CivilDate)
    requires Valid(c1) && Valid(c2) && DaysFromCivil(c1) == DaysFromCivil(c2)
    ensures c1 == c2
  {
    DayOfYearBounds(c1);
    DayOfYearBounds(c2);
    if c1.year < c2.year {
      YearsOrdered(c1.year, c2.year);
    } else if c2.year < c1.year {
      YearsOrdered(c2.year, c1.year);
    }
    assert c1.year == c2.year;
    if c1.month < c2.month {
      MonthsOrdered(c1.year, c1.month, c2.month);
    } else if c2.month < c1.month {
      MonthsOrdered(c1.year, c2.month, c1.month);
    }
  }

  /** Converting a valid date to its day number and back gives the date. */
  lemma CivilRoundTrip(c: CivilDate)
    requires Valid(c)
    ensures CivilFromDays(DaysFromCivil(c)) == c
  {
    DaysFromCivilInjective(CivilFromDays(DaysFromCivil(c)), c);
  }

  /**
   * MakeDay of ECMA-262: month indexes are 0-based and may overflow in either
   * direction, days may overflow the month; both roll over into the
   * neighbouring months and years.
   */
  function MakeDay(year: int, monthIndex: int, date: int): CivilDate {
    DayAfter(FirstOfMonth(year, monthIndex), date)
  }

  /** The first day of month `monthIndex` (0-based, any integer) counted from January of `year`. */
  function FirstOfMonth(year: int, monthIndex: int): (f: CivilDate)
    ensures 1 <= f.month <= 12 && f.day == 1
    ensures 12 * f.year + f.month == 12 * year + monthIndex + 1
  {
    CivilDate(year + monthIndex / 12, monthIndex % 12 + 1, 1)
  }

  /** The date `date - 1` days after the first of a month. */
  function DayAfter(first: CivilDate, date: int): CivilDate
    requires 1 <= first.month <= 12
  {
    CivilFromDays(DaysFromCivil(first) + date - 1)
  }

  /** `new Date(year, monthIndex, day)`: years 0..99 stand for 1900..1999. */
  function ConstructDate(year: int, monthIndex: int, day: int): CivilDate {
    var fullYear := if 0 <= year <= 99 then 1900 + year else year;
    MakeDay(fullYear, monthIndex, day)
  }

  /** `date.setMonth(date.getMonth() + k)`: the day of the month is kept and may overflow. */
  function AddMonths(c: CivilDate, k: int): CivilDate {
    MakeDay(c.year, c.month - 1 + k, c.day)
  }

  /** Moving a date within its month moves its day number by the same amount. */
  lemma DaySlide(c: CivilDate, d: int)
    requires 1 <= c.month <= 12
    ensures DaysFromCivil(c.(day := d)) == DaysFromCivil(c) + d - c.day
  {
  }

  /** A month index in 0..11 needs no normalising. */
  lemma FirstOfMonthInYear(year: int, monthIndex: int)
    requires 0 <= monthIndex <= 11
    ensures FirstOfMonth(year, monthIndex) == CivilDate(year, monthIndex + 1, 1)
  {
    DivModUnique(monthIndex, 12, 0, monthIndex);
  }

  /** MakeDay leaves a date alone whose fields are already in range. */
  lemma MakeDayInRange(year: int, monthIndex: int, day: int)
    requires 0 <= monthIndex <= 11 && 1 <= day <= DaysInMonth(year, monthIndex + 1)
    ensures MakeDay(year, monthIndex, day) == CivilDate(year, monthIndex + 1, day)
  {
    var first := CivilDate(year, monthIndex + 1, 1);
    var c := first.(day := day);
    FirstOfMonthInYear(year, monthIndex);
    DaySlide(first, day);
    CivilRoundTrip(c);
    assert DayAfter(first, day) == c;
  }

  /**
   * The round-trip check the parser applies after `new Date(year, monthIndex, day)`:
   * the constructed date has the same year, month and day exactly when the
   * fields form a valid date and the year is not one of 0..99.
   */
  lemma ConstructedFieldsSurvive(year: int, monthIndex: int, day: int)
    ensures var c := ConstructDate(year, monthIndex, day);
      (c.year == year && c.month - 1 == monthIndex && c.day == day)
      <==> (!(0 <= year <= 99) && 0 <= monthIndex <= 11 && 1 <= day <= DaysInMonth(year, monthIndex + 1))
  {
    var c := ConstructDate(year, monthIndex, day);
    if !(0 <= year <= 99) && 0 <= monthIndex <= 11 && 1 <= day <= DaysInMonth(year, monthIndex + 1) {
      MakeDayInRange(year, monthIndex, day);
    }
    if c.year == year && c.month - 1 == monthIndex && c.day == day && 0 <= year <= 99 {
      ShortYearRemapped(year, monthIndex, day);
      assert false;
    }
  }

  /** A date built from a year in 0..99, an in-range month and a positive day lands in 1900..1999. */
  lemma ShortYearRemapped(year: int, monthIndex: int, day: int)
    requires 0 <= year <= 99 && 0 <= monthIndex <= 11 && 1 <= day
    ensures ConstructDate(year, monthIndex, day).year != year
  {
    var first := CivilDate(1900 + year, monthIndex + 1, 1);
    FirstOfMonthInYear(1900 + year, monthIndex);
    var c := DayAfter(first, day);
    assert ConstructDate(year, monthIndex, day) == c;
    assert DaysFromCivil(c) == DaysFromCivil(first) + day - 1;
    if c.year == year {
      DayOfYearBounds(c);
      YearsOrdered(year, 1900 + year);
      assert false;
    }
  }

  /** The first day of the month after (y, m). */
  function NextMonth(y: int, m: int): CivilDate
    requires 1 <= m <= 12
  {
    if m == 12 then CivilDate(y + 1, 1, 1) else CivilDate(y, m + 1, 1)
  }

  lemma NextMonthStart(y: int, m: int)
    requires 1 <= m <= 12
    ensures DaysFromCivil(NextMonth(y, m)) == DaysFromCivil(CivilDate(y, m, 1)) + DaysInMonth(y, m)
  {
    if m == 12 {
      NextYear(y);
      YearLength(y);
    } else {
      MonthStep(y, m);
    }
  }

  /** A day just past the end of the month lands early in the following month. */
  lemma MakeDayRollsOver(year: int, monthIndex: int, day: int)
    requires 0 <= monthIndex <= 11
    requires DaysInMonth(year, monthIndex + 1) < day <= DaysInMonth(year, monthIndex + 1) + 28
    ensures MakeDay(year, monthIndex, day)
      == NextMonth(year, monthIndex + 1).(day := day - DaysInMonth(year, monthIndex + 1))
  {
    var m := monthIndex + 1;
    var first := CivilDate(year, m, 1);
    var len := DaysInMonth(year, m);
    var next := NextMonth(year, m);
    var rolled := next.(day := day - len);
    FirstOfMonthInYear(year, monthIndex);
    NextMonthStart(year, m);
    DaySlide(next, day - len);
    assert Valid(rolled);
    CivilRoundTrip(rolled);
    assert DayAfter(first, day) == rolled;
  }

  /** The first day of the month `k` months after the month of `c`. */
  function TargetMonth(c: CivilDate, k: int): (f: CivilDate)
    ensures 1 <= f.month <= 12 && f.day == 1
    ensures 12 * f.year + f.month == 12 * c.year + c.month + k
  {
    FirstOfMonth(c.year, c.month - 1 + k)
  }

  /** Adding months is MakeDay on the target month, whose index is already in range. */
  lemma AddMonthsIsMakeDay(c: CivilDate, k: int)
    ensures var f := TargetMonth(c, k);
      AddMonths(c, k) == MakeDay(f.year, f.month - 1, c.day)
  {
    var f := TargetMonth(c, k);
    FirstOfMonthInYear(f.year, f.month - 1);
    assert FirstOfMonth(f.year, f.month - 1) == f;
  }

  /** Adding months keeps the day of the month when the target month is long enough. */
  lemma AddMonthsKeepsDay(c: CivilDate, k: int)
    requires Valid(c)
    requires c.day <= DaysInMonth(TargetMonth(c, k).year, TargetMonth(c, k).month)
    ensures AddMonths(c, k) == TargetMonth(c, k).(day := c.day)
  {
    var f := TargetMonth(c, k);
    AddMonthsIsMakeDay(c, k);
    MakeDayInRange(f.year, f.month - 1, c.day);
  }

  /** Otherwise the days past the end of the target month roll into the month after it. */
  lemma AddMonthsRollsOver(c: CivilDate, k: int)
    requires Valid(c)
    requires c.day > DaysInMonth(TargetMonth(c, k).year, TargetMonth(c, k).month)
    ensures var f := TargetMonth(c, k);
      AddMonths(c, k) == NextMonth(f.year, f.month).(day := c.day - DaysInMonth(f.year, f.month))
  {
    var f := TargetMonth(c, k);
    AddMonthsIsMakeDay(c, k);
    MakeDayRollsOver(f.year, f.month - 1, c.day);
  }

  /**
   * A valid date whose year is outside 0..99 survives the `Date` constructor,
   * and adding `k` months to it keeps its day or rolls over past a short month.
   */
  lemma ConstructThenAddMonths(s: CivilDate, k: int)
    requires Valid(s) && !(0 <= s.year <= 99)
    ensures var f := TargetMonth(s, k);
      var len := DaysInMonth(f.year, f.month);
      AddMonths(ConstructDate(s.year, s.month - 1, s.day), k)
        == if s.day <= len then f.(day := s.day) else NextMonth(f.year, f.month).(day := s.day - len)
  {
    ConstructedFieldsSurvive(s.year, s.month - 1, s.day);
    assert ConstructDate(s.year, s.month - 1, s.day) == s;
    var f := TargetMonth(s, k);
    if s.day <= DaysInMonth(f.year, f.month) {
      AddMonthsKeepsDay(s, k);
    } else {
      AddMonthsRollsOver(s, k);
    }
  }
}
