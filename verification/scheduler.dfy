/** The review-date scheduler: `calculateReviewDates` and its helper
    `formatDate`.

    A fixed five-entry schedule (+7 days, +1 month, +3 months, +6 months,
    +1 year) is applied to a fresh copy of the start date for every entry.
    Each entry runs three steps on that copy: calendar-day addition, month
    addition with a month-end clamp, and year addition without a clamp; the
    result is printed as `YYYY-MM-DD`.

    The schedule entries are object literals that name only the field they
    use. Read as written, the absent fields are `undefined`, which `+` turns
    into NaN, so every entry ends as an Invalid Date and `formatDate` throws
    (`CalculateReviewDatesAsWritten`). The intended reading, which the rest of
    the model uses, treats an absent field as 0 (`CalculateReviewDates`).
 */
module Scheduler {
  import opened Calendar
  import opened JsDate
  import opened Iso

  /** A property of a schedule entry: absent, or holding a whole number. */
  datatype Field = Undefined | Defined(value: int)

  /** One schedule entry, `{days: …, months: …, years: …}` with any field absent. */
  datatype Offset = Offset(days: Field, months: Field, years: Field)

  /** The fixed spaced-repetition schedule, in order. */
  const Schedule: seq<Offset> := [
    Offset(Defined(7), Undefined, Undefined),
    Offset(Undefined, Defined(1), Undefined),
    Offset(Undefined, Defined(3), Undefined),
    Offset(Undefined, Defined(6), Undefined),
    Offset(Undefined, Undefined, Defined(1))
  ]

  /** A field as an operand of `+` in the code as written: `undefined` is NaN. */
  function ReadAsWritten(f: Field): Num {
    match f
    case Undefined => NaN
    case Defined(v) => Int(v)
  }

  /** A field as the schedule evidently means it: an absent offset is 0. */
  function ReadOrZero(f: Field): Num {
    match f
    case Undefined => Int(0)
    case Defined(v) => Int(v)
  }

  // ---------------------------------------------------------------------
  // The three steps, in terms of the Date API.
  // ---------------------------------------------------------------------

  /** `d.setDate(d.getDate() + days)` */
  function DayStep(t: Time, days: Num): Time {
    SetDate(t, Plus(GetDate(t), days))
  }

  /** `originalDay = d.getDate(); d.setMonth(d.getMonth() + months);
      if (d.getDate() < originalDay) d.setDate(0)` */
  function MonthStep(t: Time, months: Num): Time {
    var originalDay := GetDate(t);
    var moved := SetMonth(t, Plus(GetMonth(t), months));
    if Less(GetDate(moved), originalDay) then SetDate(moved, Int(0)) else moved
  }

  /** `d.setFullYear(d.getFullYear() + years)` */
  function YearStep(t: Time, years: Num): Time {
    SetFullYear(t, Plus(GetFullYear(t), years))
  }

  /** The three steps in source order, on one copy of the start date. */
  function ApplyOffset(start: Time, days: Num, months: Num, years: Num): Time {
    YearStep(MonthStep(DayStep(start, days), months), years)
  }

  /** The day step adds calendar days, rolling over month and year ends. */
  lemma DayStepAddsDays(d: ValidDate, n: int)
    ensures DayStep(At(d), Int(n)).At?
    ensures DayNumber(DayStep(At(d), Int(n)).date) == DayNumber(d) + n
    ensures DayStep(At(d), Int(n)) == At(AddDays(d, n))
  {
    assert Plus(GetDate(At(d)), Int(n)) == Int(d.day + n);
    MakeDayInRange(d.year, d.month, d.day + n);
    assert DayStep(At(d), Int(n)) == At(Normalize(d.year, d.month, d.day + n));
    assert DayNumber(AddDays(d, n)) == DayNumber(d) + n;
  }

  /** The month step moves exactly `n` months and clamps to the end of a
      shorter target month instead of spilling into the month after it. */
  lemma MonthStepClamps(d: ValidDate, n: int)
    ensures MonthStep(At(d), Int(n)) == At(AddMonthsClamped(d, n))
  {
    var t := ShiftMonth(d.year, d.month, n);
    var len := DaysInMonth(t.0, t.1);
    ShiftMonthUnique(d.year, 1, d.month - 1 + n, t.0, t.1);
    var moved := SetMonth(At(d), Int(d.month - 1 + n));
    assert moved == At(Normalize(t.0, t.1, d.day));
    if d.day > len {
      var q := ShiftMonth(t.0, t.1, 1);
      assert moved == At(Date(q.0, q.1, d.day - len));
      MakeDayInRange(q.0, q.1, 0);
      ShiftMonthUnique(q.0, q.1, -1, t.0, t.1);
      assert SetDate(moved, Int(0)) == At(Date(t.0, t.1, len));
    }
  }

  /** The year step keeps month and day, except that 29 February in a target
      year that is not a leap year rolls over to 1 March. */
  lemma YearStepRollsOver(d: ValidDate, n: int)
    ensures YearStep(At(d), Int(n)) == At(AddYearsRollover(d, n))
  {
    MakeDayInRange(d.year + n, d.month, d.day);
    if d.day > DaysInMonth(d.year + n, d.month) {
      ShiftMonthUnique(d.year + n, 2, 1, d.year + n, 3);
    }
  }

  /** Once a NaN enters, every later step yields an Invalid Date. */
  lemma StepsPropagateInvalid(t: Time, n: Num)
    requires t.Invalid? || n.NaN?
    ensures DayStep(t, n).Invalid?
    ensures MonthStep(t, n).Invalid?
    ensures YearStep(t, n).Invalid?
  {
  }

  /** On a real day with numeric offsets, an entry is the composition of the
      three calendar steps: days first, then the clamped months, then years. */
  lemma ApplyOffsetOnCalendar(d: ValidDate, days: int, months: int, years: int)
    ensures ApplyOffset(At(d), Int(days), Int(months), Int(years))
         == At(AddYearsRollover(AddMonthsClamped(AddDays(d, days), months), years))
  {
    DayStepAddsDays(d, days);
    var d1 := AddDays(d, days);
    MonthStepClamps(d1, months);
    YearStepRollsOver(AddMonthsClamped(d1, months), years);
  }

  // ---------------------------------------------------------------------
  // calculateReviewDates
  // ---------------------------------------------------------------------

  /** The date of one schedule entry, computed from the start date alone. */
  function ReviewDate(start: Time, o: Offset): Time {
    ApplyOffset(start, ReadOrZero(o.days), ReadOrZero(o.months), ReadOrZero(o.years))
  }

  function ReviewDateAsWritten(start: Time, o: Offset): Time {
    ApplyOffset(start, ReadAsWritten(o.days), ReadAsWritten(o.months), ReadAsWritten(o.years))
  }

  /** One fresh copy of the start date per schedule entry, in schedule order. */
  function Entries(start: Time): seq<Time> {
    seq(|Schedule|, i requires 0 <= i < |Schedule| => ReviewDate(start, Schedule[i]))
  }

  function EntriesAsWritten(start: Time): seq<Time> {
    seq(|Schedule|, i requires 0 <= i < |Schedule| => ReviewDateAsWritten(start, Schedule[i]))
  }

  /** `formatDate` pushed for each date in turn; the first Invalid Date throws
      out of the whole loop. */
  function FormatAll(ts: seq<Time>): (r: Result<seq<string>>)
    ensures r.Ok? <==> forall i :: 0 <= i < |ts| ==> ts[i].At?
    ensures r.Throws? ==> r.error == RangeError
    ensures r.Ok? ==> |r.value| == |ts|
    ensures r.Ok? ==> forall i :: 0 <= i < |ts| ==> r.value[i] == DatePart(ts[i].date)
  {
    if |ts| == 0 then Ok([])
    else
      match FormatDate(ts[0])
      case Throws(e) => Throws(e)
      case Ok(s) =>
        match FormatAll(ts[1..])
        case Throws(e) => Throws(e)
        case Ok(rest) => Ok([s] + rest)
  }

  /** Every entry of a real start day is a real day, for any offsets read as 0
      when absent. */
  lemma EntriesDefined(d: ValidDate)
    ensures forall i :: 0 <= i < |Schedule| ==> Entries(At(d))[i].At?
  {
    forall i | 0 <= i < |Schedule|
      ensures Entries(At(d))[i].At?
    {
      var o := Schedule[i];
      ApplyOffsetOnCalendar(d, ReadOrZero(o.days).value, ReadOrZero(o.months).value,
                            ReadOrZero(o.years).value);
    }
  }

  /** `calculateReviewDates(startDateStr)` with absent schedule fields read as 0. */
  function CalculateReviewDates(startDateStr: string): (r: Result<seq<string>>)
    ensures ParseDate(startDateStr).Invalid? ==> r == Throws(RangeError)
    ensures ParseDate(startDateStr).At? ==> r.Ok? && |r.value| == |Schedule|
    ensures ParseDate(startDateStr).At? ==>
              forall i :: 0 <= i < |Schedule| ==>
                r.value[i] == DatePart(ReviewDate(ParseDate(startDateStr), Schedule[i]).date)
  {
    var start := ParseDate(startDateStr);
    if start.At? then
      EntriesDefined(start.date);
      FormatAll(Entries(start))
    else
      assert Entries(start)[0].Invalid?;
      FormatAll(Entries(start))
  }

  /** `calculateReviewDates(startDateStr)` exactly as written, where the
      absent schedule fields are `undefined`. */
  function CalculateReviewDatesAsWritten(startDateStr: string): Result<seq<string>> {
    FormatAll(EntriesAsWritten(ParseDate(startDateStr)))
  }

  // ---------------------------------------------------------------------
  // What the schedule computes.
  // ---------------------------------------------------------------------

  /** The five dates are +7 days, +1, +3 and +6 months (clamped) and +1 year
      (29 February rolling to 1 March), each from the unmodified start day:
      no entry sees another entry's offset. */
  lemma EntriesOnCalendar(d: ValidDate)
    ensures |Entries(At(d))| == 5
    ensures Entries(At(d))[0] == At(AddDays(d, 7))
    ensures Entries(At(d))[1] == At(AddMonthsClamped(d, 1))
    ensures Entries(At(d))[2] == At(AddMonthsClamped(d, 3))
    ensures Entries(At(d))[3] == At(AddMonthsClamped(d, 6))
    ensures Entries(At(d))[4] == At(AddYearsRollover(d, 1))
  {
    WeekEntry(d);
    MonthEntry(d, 1);
    MonthEntry(d, 2);
    MonthEntry(d, 3);
    YearEntry(d);
  }

  lemma WeekEntry(d: ValidDate)
    ensures Entries(At(d))[0] == At(AddDays(d, 7))
  {
    assert Entries(At(d))[0] == ApplyOffset(At(d), Int(7), Int(0), Int(0));
    ApplyOffsetOnCalendar(d, 7, 0, 0);
    AddMonthsZero(AddDays(d, 7));
    AddYearsZero(AddDays(d, 7));
  }

  /** Entry `i` (1, 2 or 3) of the schedule adds 1, 3 or 6 months. */
  lemma MonthEntry(d: ValidDate, i: int)
    requires 1 <= i <= 3
    ensures Entries(At(d))[i] == At(AddMonthsClamped(d, Schedule[i].months.value))
  {
    var k := Schedule[i].months.value;
    assert Entries(At(d))[i] == ApplyOffset(At(d), Int(0), Int(k), Int(0));
    ApplyOffsetOnCalendar(d, 0, k, 0);
    AddDaysZero(d);
    AddYearsZero(AddMonthsClamped(d, k));
  }

  lemma YearEntry(d: ValidDate)
    ensures Entries(At(d))[4] == At(AddYearsRollover(d, 1))
  {
    assert Entries(At(d))[4] == ApplyOffset(At(d), Int(0), Int(0), Int(1));
    ApplyOffsetOnCalendar(d, 0, 0, 1);
    AddDaysZero(d);
    AddMonthsZero(d);
  }

  predicate StrictlyIncreasing(ds: seq<Date>) {
    forall i, j :: 0 <= i < j < |ds| ==> Before(ds[i], ds[j])
  }

  lemma BeforeTransitive(a: Date, b: Date, c: Date)
    requires Before(a, b) && Before(b, c)
    ensures Before(a, c)
  {
  }

  /** A month later (clamped) is always at least 28 days later, so it comes
      after the +7-day entry. */
  lemma WeekBeforeMonth(d: ValidDate)
    ensures Before(AddDays(d, 7), AddMonthsClamped(d, 1))
  {
    var r := AddMonthsClamped(d, 1);
    var q := ShiftMonth(d.year, d.month, 1);
    NextMonthStart(d.year, d.month);
    assert DayNumber(r) >= DayNumber(d) + 28;
    BeforeIffEarlierDay(AddDays(d, 7), r);
  }

  /** Later months give later clamped dates. */
  lemma MoreMonthsLater(d: ValidDate, a: int, b: int)
    requires a < b
    ensures Before(AddMonthsClamped(d, a), AddMonthsClamped(d, b))
  {
  }

  lemma HalfYearBeforeYear(d: ValidDate)
    ensures Before(AddMonthsClamped(d, 6), AddYearsRollover(d, 1))
  {
  }

  /** The five calendar dates of the schedule, in schedule order. */
  function ScheduledDays(d: ValidDate): seq<ValidDate> {
    [AddDays(d, 7), AddMonthsClamped(d, 1), AddMonthsClamped(d, 3),
     AddMonthsClamped(d, 6), AddYearsRollover(d, 1)]
  }

  lemma {:induction false} ChainIncreasing(ds: seq<Date>)
    requires forall i :: 0 <= i < |ds| - 1 ==> Before(ds[i], ds[i + 1])
    ensures StrictlyIncreasing(ds)
    decreases |ds|
  {
    if |ds| > 1 {
      ChainIncreasing(ds[1..]);
      forall j | 1 <= j < |ds|
        ensures Before(ds[0], ds[j])
      {
        if j > 1 {
          assert Before(ds[1], ds[j]) by {
            assert ds[1..][0] == ds[1] && ds[1..][j - 1] == ds[j];
          }
          BeforeTransitive(ds[0], ds[1], ds[j]);
        }
      }
      forall i, j | 0 <= i < j < |ds|
        ensures Before(ds[i], ds[j])
      {
        if i > 0 {
          assert ds[1..][i - 1] == ds[i] && ds[1..][j - 1] == ds[j];
        }
      }
    }
  }

  /** The five review dates of a real start day are strictly increasing. */
  lemma ScheduledDaysIncreasing(d: ValidDate)
    ensures StrictlyIncreasing(ScheduledDays(d))
  {
    var ds := ScheduledDays(d);
    WeekBeforeMonth(d);
    MoreMonthsLater(d, 1, 3);
    MoreMonthsLater(d, 3, 6);
    HalfYearBeforeYear(d);
    ChainIncreasing(ds);
  }

  /** The entries of `calculateReviewDates` are those five days, so its
      results are strictly increasing too. */
  lemma ReviewDatesIncreasing(d: ValidDate)
    ensures forall i :: 0 <= i < |Schedule| ==> Entries(At(d))[i] == At(ScheduledDays(d)[i])
    ensures StrictlyIncreasing(ScheduledDays(d))
  {
    EntriesAreScheduledDays(d);
    ScheduledDaysIncreasing(d);
  }

  lemma EntriesAreScheduledDays(d: ValidDate)
    ensures forall i :: 0 <= i < |Schedule| ==> Entries(At(d))[i] == At(ScheduledDays(d)[i])
  {
    var es, ds := Entries(At(d)), ScheduledDays(d);
    EntriesOnCalendar(d);
    forall i | 0 <= i < |Schedule|
      ensures es[i] == At(ds[i])
    {
      if i == 0 {
      } else if i == 1 {
      } else if i == 2 {
      } else if i == 3 {
      } else {
        assert i == 4;
      }
    }
  }

  /** The code as written never returns: every entry misses a field, the
      NaN it reads turns the copy into an Invalid Date, and the first
      `formatDate` throws a RangeError, whatever the start date. */
  lemma AsWrittenAlwaysThrows(startDateStr: string)
    ensures CalculateReviewDatesAsWritten(startDateStr) == Throws(RangeError)
  {
    var start := ParseDate(startDateStr);
    var o := Schedule[0];
    StepsPropagateInvalid(DayStep(start, Int(7)), NaN);
    StepsPropagateInvalid(MonthStep(DayStep(start, Int(7)), NaN), NaN);
    assert EntriesAsWritten(start)[0].Invalid?;
  }
}
