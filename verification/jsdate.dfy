/** The slice of JavaScript's `Date` object that the scheduler touches, with
    the time of day fixed at midnight and the local time zone taken to be UTC.

    A `Date` object holds a time value: either a calendar day (`At`) or NaN
    (`Invalid`, printed as "Invalid Date"). The getters read fields of that
    day; the setters rebuild the day through MakeDay, which lets day and month
    arguments overflow into neighbouring months and years, and turn NaN
    arguments or a NaN time value into an Invalid Date.
 */
module JsDate {
  import opened Calendar

  /** A JavaScript number as far as this model needs one: an integer or NaN. */
  datatype Num = NaN | Int(value: int)

  /** The time value of a `Date` object, at UTC midnight. */
  datatype Time = Invalid | At(date: ValidDate)

  /** The exception `toISOString` throws on an Invalid Date. */
  datatype JsError = RangeError

  /** A call that either returns a value or throws. */
  datatype Result<T> = Ok(value: T) | Throws(error: JsError)

  /** Numeric `+`: NaN is absorbing. */
  function Plus(a: Num, b: Num): Num {
    if a.Int? && b.Int? then Int(a.value + b.value) else NaN
  }

  /** Numeric `<`: every comparison with NaN is false. */
  predicate Less(a: Num, b: Num) {
    a.Int? && b.Int? && a.value < b.value
  }

  /** ECMAScript MakeDay with a 0-based month: the day `date` of month
      `month` of `year`, where month and date may lie outside their ranges.
      `MakeDayCountsDays` states what day that is. */
  function MakeDay(year: Num, month: Num, date: Num): Time {
    if year.NaN? || month.NaN? || date.NaN? then Invalid
    else
      var ym := ShiftMonth(year.value, 1, month.value);
      At(Normalize(ym.0, ym.1, date.value))
  }

  /** Step 7 of MakeDay in ECMAScript: with numeric arguments the result is a
      day, `date - 1` days after the 1st of month `month` of `year` (the month
      carried into the year first, so month 12 is January of the next year and
      month -1 December of the previous one). */
  lemma MakeDayCountsDays(year: int, month: int, date: int)
    ensures var ym := ShiftMonth(year, 1, month);
      var t := MakeDay(Int(year), Int(month), Int(date));
      t.At? && DayNumber(t.date) == DayNumber(Date(ym.0, ym.1, 1)) + date - 1
  {
    var ym := ShiftMonth(year, 1, month);
    NormalizeCountsDays(ym.0, ym.1, date);
  }

  /** `getDate()`: the day of the month, 1..31. */
  function GetDate(t: Time): Num {
    if t.Invalid? then NaN else Int(t.date.day)
  }

  /** `getMonth()`: the 0-based month, 0..11. */
  function GetMonth(t: Time): Num {
    if t.Invalid? then NaN else Int(t.date.month - 1)
  }

  /** `getFullYear()`. */
  function GetFullYear(t: Time): Num {
    if t.Invalid? then NaN else Int(t.date.year)
  }

  /** `setDate(n)`: keeps year and month; an Invalid Date stays invalid. */
  function SetDate(t: Time, n: Num): Time {
    if t.Invalid? then Invalid
    else MakeDay(Int(t.date.year), Int(t.date.month - 1), n)
  }

  /** `setMonth(n)`: keeps year and day of month; an Invalid Date stays invalid. */
  function SetMonth(t: Time, n: Num): Time {
    if t.Invalid? then Invalid
    else MakeDay(Int(t.date.year), n, Int(t.date.day))
  }

  /** `setFullYear(n)`: keeps month and day of month. On an Invalid Date it
      starts from the epoch day 1970-01-01 instead of staying invalid. */
  function SetFullYear(t: Time, n: Num): Time {
    var base := if t.Invalid? then Date(1970, 1, 1) else t.date;
    MakeDay(n, Int(base.month - 1), Int(base.day))
  }

  /** With the month already in range, MakeDay is Normalize. */
  lemma MakeDayInRange(y: int, m: int, day: int)
    requires 1 <= m <= 12
    ensures MakeDay(Int(y), Int(m - 1), Int(day)) == At(Normalize(y, m, day))
  {
    ShiftMonthUnique(y, 1, m - 1, y, m);
  }

  /** A setter keeps an Invalid Date invalid, and turns a NaN argument into one.
      `setFullYear` is the exception for an Invalid Date with a numeric
      argument, which it revives. */
  lemma SettersPropagateNaN(t: Time, n: Num)
    ensures t.Invalid? || n.NaN? ==> SetDate(t, n).Invalid? && SetMonth(t, n).Invalid?
    ensures n.NaN? ==> SetFullYear(t, n).Invalid?
    ensures t.Invalid? && n.Int? ==> SetFullYear(t, n) == At(Date(n.value, 1, 1))
  {
    if t.Invalid? && n.Int? {
      MakeDayInRange(n.value, 1, 1);
    }
  }
}
