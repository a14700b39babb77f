/** Proleptic Gregorian calendar arithmetic on whole days.

    This is the calendar that a JavaScript `Date` uses once the time of day is
    fixed at UTC midnight. Years here are unbounded integers (year 0 exists and
    is a leap year), whereas a `Date` only reaches about year 275760 either way;
    README's "Left out" section records that bound. Months are 1-based here
    (1 = January), and a day of the month outside the month "overflows" into
    the neighbouring months exactly as ECMAScript's MakeDay does.
 */
module Calendar {

  datatype Date = Date(year: int, month: int, day: int) {
    /** A real calendar day: month 1..12, day within that month's length. */
    predicate Valid() {
      1 <= month <= 12 && 1 <= day <= DaysInMonth(year, month)
    }
  }

  type ValidDate = d: Date | d.Valid() witness Date(1970, 1, 1)

  /** Gregorian leap-year rule; `%` is Euclidean, so negative years work too. */
  predicate IsLeapYear(y: int) {
    y % 4 == 0 && (y % 100 != 0 || y % 400 == 0)
  }

  function DaysInMonth(y: int, m: int): (n: int)
    requires 1 <= m <= 12
    ensures 28 <= n <= 31
  {
    if m == 2 then (if IsLeapYear(y) then 29 else 28)
    else if m == 4 || m == 6 || m == 9 || m == 11 then 30
    else 31
  }

  function YearLength(y: int): int {
    if IsLeapYear(y) then 366 else 365
  }

  function Min(a: int, b: int): int {
    if a <= b then a else b
  }

  /** The (year, month) that lies `n` months after month `m` of year `y`;
      `n` may be negative. The arithmetic is the month normalisation of MakeDay:
      floor division and a non-negative remainder by 12. */
  function ShiftMonth(y: int, m: int, n: int): (r: (int, int))
    ensures 1 <= r.1 <= 12
    ensures r.0 * 12 + r.1 == y * 12 + m + n
  {
    (y + (m - 1 + n) / 12, (m - 1 + n) % 12 + 1)
  }

  /** A (year, month) pair is determined by its month count `year * 12 + month`. */
  lemma ShiftMonthUnique(y: int, m: int, n: int, a: int, b: int)
    requires 1 <= b <= 12
    requires a * 12 + b == y * 12 + m + n
    ensures ShiftMonth(y, m, n) == (a, b)
  {
  }

  /** Day `day` of month `m` of year `y`, where `day` may lie outside the
      month: day 0 is the last day of the previous month, day 32 of a 31-day
      month is the 1st of the next month, and so on in both directions. */
  function Normalize(y: int, m: int, day: int): ValidDate
    requires 1 <= m <= 12
    decreases if day < 1 then 1 else 0, if day < 1 then -day else day
  {
    if day < 1 then
      var p := ShiftMonth(y, m, -1);
      Normalize(p.0, p.1, day + DaysInMonth(p.0, p.1))
    else if day > DaysInMonth(y, m) then
      var q := ShiftMonth(y, m, 1);
      Normalize(q.0, q.1, day - DaysInMonth(y, m))
    else
      Date(y, m, day)
  }

  // ---------------------------------------------------------------------
  // An independent day count, used as the reference for "plus n days"
  // and for the order of dates.
  // ---------------------------------------------------------------------

  /** Number of days from 0000-01-01 to the 1st of January of year `y`. */
  function DaysBeforeYear(y: int): int {
    365 * y + (y + 3) / 4 - (y + 99) / 100 + (y + 399) / 400
  }

  /** Number of days from the 1st of January of `y` to the 1st of month `m`. */
  function DaysBeforeMonth(y: int, m: int): int
    requires 1 <= m <= 12
  {
    [0, 31, 59, 90, 120, 151, 181, 212, 243, 273, 304, 334][m - 1]
      + (if m > 2 && IsLeapYear(y) then 1 else 0)
  }

  /** Days elapsed since 0000-01-01 (which has day number 0). */
  function DayNumber(d: Date): int
    requires 1 <= d.month <= 12
  {
    DaysBeforeYear(d.year) + DaysBeforeMonth(d.year, d.month) + d.day - 1
  }

  /** Strict chronological order, read field by field. */
  predicate Before(a: Date, b: Date) {
    a.year < b.year
    || (a.year == b.year && a.month < b.month)
    || (a.year == b.year && a.month == b.month && a.day < b.day)
  }

  /** The leap-day count of DaysBeforeYear grows by one, from `y` to `y + 1`,
      exactly at the multiples of 4, 100 and 400 respectively. */
  lemma MultipleOf4Step(y: int)
    ensures (y + 4) / 4 - (y + 3) / 4 == if y % 4 == 0 then 1 else 0
  {
    var q, r := y / 4, y % 4;
    assert y == 4 * q + r;
    assert (y + 4) / 4 == q + 1;
    assert (y + 3) / 4 == if r == 0 then q else q + 1;
  }

  lemma MultipleOf100Step(y: int)
    ensures (y + 100) / 100 - (y + 99) / 100 == if y % 100 == 0 then 1 else 0
  {
    var q, r := y / 100, y % 100;
    assert y == 100 * q + r;
    assert (y + 100) / 100 == q + 1;
    assert (y + 99) / 100 == if r == 0 then q else q + 1;
  }

  lemma MultipleOf400Step(y: int)
    ensures (y + 400) / 400 - (y + 399) / 400 == if y % 400 == 0 then 1 else 0
  {
    var q, r := y / 400, y % 400;
    assert y == 400 * q + r;
    assert (y + 400) / 400 == q + 1;
    assert (y + 399) / 400 == if r == 0 then q else q + 1;
  }

  lemma CenturyIsMultipleOf4(y: int)
    requires y % 100 == 0
    ensures y % 4 == 0
  {
    var q := y / 100;
    assert y == 4 * (25 * q);
  }

  lemma QuadCenturyIsCentury(y: int)
    requires y % 400 == 0
    ensures y % 100 == 0
  {
    var q := y / 400;
    assert y == 100 * (4 * q);
  }

  lemma YearLengthCounts(y: int)
    ensures DaysBeforeYear(y + 1) == DaysBeforeYear(y) + YearLength(y)
  {
    MultipleOf4Step(y);
    MultipleOf100Step(y);
    MultipleOf400Step(y);
    if y % 100 == 0 {
      CenturyIsMultipleOf4(y);
    }
    if y % 400 == 0 {
      QuadCenturyIsCentury(y);
    }
  }

  lemma MonthLengthCounts(y: int, m: int)
    requires 1 <= m < 12
    ensures DaysBeforeMonth(y, m + 1) == DaysBeforeMonth(y, m) + DaysInMonth(y, m)
  {
  }

  lemma DecemberEndsYear(y: int)
    ensures DaysBeforeMonth(y, 12) + DaysInMonth(y, 12) == YearLength(y)
  {
  }

  /** The 1st of the following month is `DaysInMonth` days later. */
  lemma NextMonthStart(y: int, m: int)
    requires 1 <= m <= 12
    ensures var q := ShiftMonth(y, m, 1);
            DayNumber(Date(q.0, q.1, 1)) == DayNumber(Date(y, m, 1)) + DaysInMonth(y, m)
  {
    if m < 12 {
      ShiftMonthUnique(y, m, 1, y, m + 1);
      MonthLengthCounts(y, m);
    } else {
      ShiftMonthUnique(y, m, 1, y + 1, 1);
      YearLengthCounts(y);
      DecemberEndsYear(y);
    }
  }

  /** Normalize is day arithmetic: the result lies `day - 1` days after the
      1st of month `m`, whatever the sign or size of `day`. */
  lemma {:induction false} NormalizeCountsDays(y: int, m: int, day: int)
    requires 1 <= m <= 12
    ensures DayNumber(Normalize(y, m, day)) == DayNumber(Date(y, m, 1)) + day - 1
    decreases if day < 1 then 1 else 0, if day < 1 then -day else day
  {
    if day < 1 {
      var p := ShiftMonth(y, m, -1);
      NormalizeCountsDays(p.0, p.1, day + DaysInMonth(p.0, p.1));
      NextMonthStart(p.0, p.1);
      ShiftMonthUnique(p.0, p.1, 1, y, m);
    } else if day > DaysInMonth(y, m) {
      var q := ShiftMonth(y, m, 1);
      NormalizeCountsDays(q.0, q.1, day - DaysInMonth(y, m));
      NextMonthStart(y, m);
    }
  }

  /** Normalize leaves a day that already fits its month where it is. */
  lemma NormalizeKeepsValid(d: ValidDate)
    ensures Normalize(d.year, d.month, d.day) == d
  {
  }

  // ---------------------------------------------------------------------
  // Reference definitions of the three calendar steps.
  // ---------------------------------------------------------------------

  /** `n` calendar days after `d` (before it when `n` is negative). */
  function AddDays(d: ValidDate, n: int): (r: ValidDate)
    ensures DayNumber(r) == DayNumber(d) + n
  {
    NormalizeCountsDays(d.year, d.month, d.day + n);
    Normalize(d.year, d.month, d.day + n)
  }

  /** `n` months after `d`, keeping the day of the month when the target
      month has it and otherwise using the target month's last day. */
  function AddMonthsClamped(d: ValidDate, n: int): ValidDate {
    var t := ShiftMonth(d.year, d.month, n);
    Date(t.0, t.1, Min(d.day, DaysInMonth(t.0, t.1)))
  }

  /** `n` years after `d` with no clamp: month and day are kept, except that
      29 February in a target year that is not a leap year becomes 1 March. */
  function AddYearsRollover(d: ValidDate, n: int): ValidDate {
    if d.month == 2 && d.day == 29 && !IsLeapYear(d.year + n) then
      Date(d.year + n, 3, 1)
    else
      Date(d.year + n, d.month, d.day)
  }

  lemma AddDaysZero(d: ValidDate)
    ensures AddDays(d, 0) == d
  {
    NormalizeKeepsValid(d);
  }

  lemma AddMonthsZero(d: ValidDate)
    ensures AddMonthsClamped(d, 0) == d
  {
    ShiftMonthUnique(d.year, d.month, 0, d.year, d.month);
  }

  lemma AddYearsZero(d: ValidDate)
    ensures AddYearsRollover(d, 0) == d
  {
  }

  // ---------------------------------------------------------------------
  // Chronological order agrees with the day count.
  // ---------------------------------------------------------------------

  lemma {:induction false} DaysBeforeYearGrows(y1: int, y2: int)
    requires y1 < y2
    ensures DaysBeforeYear(y1) + YearLength(y1) <= DaysBeforeYear(y2)
    decreases y2 - y1
  {
    YearLengthCounts(y1);
    if y1 + 1 < y2 {
      DaysBeforeYearGrows(y1 + 1, y2);
    }
  }

  lemma {:induction false} DaysBeforeMonthGrows(y: int, m1: int, m2: int)
    requires 1 <= m1 < m2 <= 12
    ensures DaysBeforeMonth(y, m1) + DaysInMonth(y, m1) <= DaysBeforeMonth(y, m2)
    decreases m2 - m1
  {
    MonthLengthCounts(y, m1);
    if m1 + 1 < m2 {
      DaysBeforeMonthGrows(y, m1 + 1, m2);
    }
  }

  /** Every day of year `y` has a day number inside that year's range. */
  lemma DayNumberWithinYear(d: ValidDate)
    ensures DaysBeforeYear(d.year) <= DayNumber(d) < DaysBeforeYear(d.year) + YearLength(d.year)
  {
    if d.month < 12 {
      DaysBeforeMonthGrows(d.year, d.month, 12);
    }
    DecemberEndsYear(d.year);
  }

  /** Field-by-field order and day-count order are the same relation. */
  lemma BeforeIffEarlierDay(a: ValidDate, b: ValidDate)
    ensures Before(a, b) <==> DayNumber(a) < DayNumber(b)
  {
    if Before(a, b) {
      EarlierDay(a, b);
    } else if a != b {
      assert Before(b, a);
      EarlierDay(b, a);
    }
  }

  lemma EarlierDay(a: ValidDate, b: ValidDate)
    requires Before(a, b)
    ensures DayNumber(a) < DayNumber(b)
  {
    if a.year < b.year {
      DayNumberWithinYear(a);
      DayNumberWithinYear(b);
      DaysBeforeYearGrows(a.year, b.year);
    } else if a.month < b.month {
      DaysBeforeMonthGrows(a.year, a.month, b.month);
    }
  }

  /** Two valid dates with the same day number are the same date. */
  lemma DayNumberInjective(a: ValidDate, b: ValidDate)
    requires DayNumber(a) == DayNumber(b)
    ensures a == b
  {
    BeforeIffEarlierDay(a, b);
    BeforeIffEarlierDay(b, a);
  }
}
