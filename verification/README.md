# Review-date scheduler of the spaced-repetition tracker, in Dafny

The tracker lets a user record a topic and a start date. From that date it
computes five review dates on a fixed spaced-repetition schedule:

- +7 days
- +1 month
- +3 months
- +6 months
- +1 year

This project models that computation: `calculateReviewDates` and its helper
`formatDate` in `script.mjs`. It then proves what the computation does.

Each schedule entry starts from a fresh copy of the start date. It then runs
three steps on that copy, in this order:

1. add calendar days through `setDate`, which rolls over month and year ends;
2. add months through `setMonth`. If the day of the month shrank, `setDate(0)`
   moves back to the last day of the intended month (the month-end clamp);
3. add years through `setFullYear`. This step has no clamp, so 29 February plus
   one year is 1 March.

The result is printed as `YYYY-MM-DD`, the `full-date` form of section 5.6 of
RFC 3339. The leap-year rule is the Gregorian one of Appendix C of RFC 3339.

## Layout

| file | module | contents |
|---|---|---|
| `calendar.dfy` | `Calendar` | Gregorian dates, the ECMAScript MakeDay day overflow (`Normalize`), an independent day count (`DayNumber`), the reference steps `AddDays`, `AddMonthsClamped`, `AddYearsRollover`, and the order of dates |
| `jsdate.dfy` | `JsDate` | the part of JavaScript's `Date` that the code uses, taken in UTC: a number is an integer or NaN, a time value is a day or an Invalid Date; `getDate`/`getMonth`/`getFullYear` and `setDate`/`setMonth`/`setFullYear` |
| `iso.dfy` | `Iso` | the date part of `toISOString`, `split("T")[0]`, and `new Date(str)` for date-only strings |
| `scheduler.dfy` | `Scheduler` | the schedule, the three steps, `calculateReviewDates` as written and as intended, and the properties of both |
| `vectors.dfy` | `Vectors` | the two start dates whose results the tests fix, plus month-end and leap-day examples |

Every operation is a pure function on immutable values. The `Date` object is
copied for each entry and mutated in place, but no copy outlives its entry.
So each mutation becomes a function from the old time value to the new one.

## Model

| member | source | states |
|---|---|---|
| Calendar.NormalizeCountsDays | script.mjs:133 | A day-of-month outside its month, as `setDate` and `setMonth` accept it, lands `day - 1` days after the 1st of the month, whatever its sign or size. Day 0 is the last day of the previous month. |
| Calendar.AddDays | script.mjs:133 | Adding `n` days gives a valid date whose day count is exactly `n` more than the start date's, across month and year ends and 28- or 29-day Februaries. |
| Calendar.YearLengthCounts | script.mjs:133 | The day count grows by 366 across a Gregorian leap year and by 365 across any other year. |
| Calendar.BeforeIffEarlierDay | script.mjs:125 | Field-by-field chronological order of valid dates is exactly order by day count. This lets the increasing-dates property be stated either way. |
| Calendar.DayNumberInjective | script.mjs:133 | Two valid dates with the same day count are the same date, so "n days later" names one date. |
| JsDate.SettersPropagateNaN | script.mjs:133-140 | `setDate` and `setMonth` turn an Invalid Date or a NaN argument into an Invalid Date. `setFullYear` turns a NaN argument into one. On an Invalid Date, `setFullYear` with a number starts from 1970-01-01. |
| JsDate.MakeDayCountsDays | script.mjs:133-140 | The date rebuild behind all three setters (step 7 of MakeDay in ECMAScript) gives, for numeric arguments, the day `date - 1` days after the 1st of month `month` of `year`. The month is carried into the year first, so month 12 is January of the next year and month -1 is December of the previous one. |
| JsDate.MakeDayInRange | script.mjs:136 | With a month already in range, the setters' date rebuild is the calendar normalisation of (year, month, day). |
| Iso.FormatDate | script.mjs:149-152 | `formatDate` of an Invalid Date throws RangeError. For a day, it returns exactly the date part of the ISO string: the text before the "T". |
| Iso.BeforeFirst | script.mjs:151 | `split("T")[0]` is a prefix of the string that holds no "T". Either it is the whole string, or a "T" comes right after it. |
| Iso.DatePartShape | script.mjs:149-152 | For years 0..9999 the output is ten characters, `YYYY-MM-DD`: digits everywhere except the hyphens at positions 4 and 7, with no time part. |
| Iso.DigitsRoundTrip | script.mjs:151 | Reading back the zero-padded decimal digits of a number gives the number. |
| Iso.ParseFormatRoundTrip | script.mjs:122 | `new Date` on the printed date part gives back the same day, for every year the ISO year field can hold. Four-digit and signed six-digit years are both covered. |
| Scheduler.DayStepAddsDays | script.mjs:133 | The day step on a day yields a day exactly `n` days later, with month and year rollover. |
| Scheduler.MonthStepClamps | script.mjs:135-139 | The month step moves exactly `n` months, wrapping into later years. It keeps the day of the month when the target month has it. Otherwise it yields the target month's last day, never a day of the month after. |
| Scheduler.YearStepRollsOver | script.mjs:140 | The year step adds `n` to the year and keeps month and day. The one exception: 29 February in a common target year becomes 1 March, since this step has no clamp. |
| Scheduler.StepsPropagateInvalid | script.mjs:133-140 | Once a NaN offset or an Invalid Date enters, the day, month and year steps all yield an Invalid Date. |
| Scheduler.ApplyOffsetOnCalendar | script.mjs:132-140 | An entry on a day with numeric offsets is the composition of the three calendar steps in source order: days, then clamped months, then years. |
| Scheduler.FormatAll | script.mjs:128-145 | Pushing `formatDate` of each date succeeds exactly when every date is a day. It then returns one string per date, in order. Otherwise it throws RangeError. |
| Scheduler.EntriesDefined | script.mjs:130-144 | Every entry computed from a real start day is a real day. |
| Scheduler.CalculateReviewDates | script.mjs:119-146 | An unparsable start string throws RangeError. A parsable one returns exactly five strings, one per schedule entry and in schedule order. Entry `i` is computed from the unmodified start date and entry `i` alone, so offsets never accumulate. |
| Scheduler.EntriesOnCalendar | script.mjs:125-144 | The five dates are +7 days, +1, +3 and +6 months (clamped) and +1 year (29 February rolling to 1 March), each taken from the start day itself. |
| Scheduler.WeekBeforeMonth | script.mjs:125 | One month later, even when clamped, is at least 28 days later, so it comes after the +7-day entry. |
| Scheduler.ScheduledDaysIncreasing | script.mjs:125 | The five scheduled days of any valid start day are strictly increasing. |
| Scheduler.ReviewDatesIncreasing | script.mjs:125-145 | The days behind the five results of `calculateReviewDates` are those scheduled days, so they are valid and strictly increasing. |
| Scheduler.AsWrittenAlwaysThrows | script.mjs:125-142 | As written, every schedule entry reads an absent field as `undefined`, and the code throws RangeError for every input string (see Findings). |
| Vectors.StandardVector | script.test.js:26-35 | `2026-07-19` gives `2026-07-26, 2026-08-19, 2026-10-19, 2027-01-19, 2027-07-19`. |
| Vectors.YearEndVector | script.test.js:39-48 | `2027-11-05` gives `2027-11-12, 2027-12-05, 2028-02-05, 2028-05-05, 2028-11-05`. The +3-month entry crosses into a leap year. |
| Vectors.MonthEndDays | script.mjs:135-139 | 31 January 2026 gives 7 February, 28 February (2026 is a common year), 30 April and 31 July 2026, and 31 January 2027. |
| Vectors.WeekRollovers | script.mjs:133 | +7 days across a leap February, a common February and a year end. |
| Vectors.LeapDayDays | script.mjs:140 | 29 February 2028 keeps the 29th in the month entries, and its +1-year entry is 2029-03-01. |

## Behaviour worth knowing

- `formatDate` calls `toISOString`, which throws a RangeError on an Invalid
  Date. An unparsable start date therefore makes the whole call throw, and
  `CalculateReviewDates` returns `Throws(RangeError)`.
- The year step has no month-end clamp: 29 February plus one year is 1 March
  whenever the target year is not a leap year (`AddYearsRollover`).
- The start date is parsed at UTC midnight, but the getters and setters
  (`getDate`, `setMonth`, and so on) work in local time. The model is a pure
  calendar. That is what the code computes when the local time zone is UTC;
  "## Left out" says where other zones differ.

## Findings

| source | as written | input that shows it | evidently intended | confidence | as-written member | corrected member |
|---|---|---|---|---|---|---|
| script.mjs:125-140 | Each schedule entry names only one of `days`, `months`, `years`. The other two are `undefined`, so `getDate()+item.days`, `getMonth()+item.months` and `getFullYear()+item.years` are NaN for them. A NaN setter argument makes the copy an Invalid Date, and `formatDate` throws RangeError on the first entry. | any start date, for example `"2026-07-19"`: the first entry's `setMonth(NaN)` invalidates the copy | an absent field means an offset of 0, which is what the tests expect (script.test.js:28-34, 41-47) | high; not executed | Scheduler.AsWrittenAlwaysThrows (about `CalculateReviewDatesAsWritten`) | Scheduler.CalculateReviewDates (absent fields read as 0), with Vectors.StandardVector and Vectors.YearEndVector |

## Left out

- DOM and event wiring are user interface, not scheduling: `populateUserDropdown`,
  `setDefaultDate`, `handleTopicSubmit`, `getUserInfo`, `window.onload` and the
  `change`/`submit`/`click` listeners (script.mjs:10-115, 154-162).
- `handleTopicSubmit`'s check for a trimmed topic and a non-empty date is a UI
  guard that ends in `alert`, so it is not modelled.
- `getUserIds` is imported from `common.mjs` (script.mjs:7), which is not part
  of this model. `getData` (script.mjs:77) is called but is neither imported
  nor defined in `script.mjs`, and the per-user agenda store is not shown.
  Neither is part of this model.
- Appending to the agenda store, removing entries by clearing and re-appending,
  and the future-date filter and sort are not in `script.mjs`, so they are
  not part of this model.
- Time zones are not modelled. Dates are pure calendar days, so the results
  match the code only when the local time zone has the same date as UTC at the
  parsed instant and its offset does not change between the start and the
  target date. That holds in UTC itself, and in zones at or east of UTC with no
  clock change in between.
  - West of UTC, `new Date("YYYY-MM-DD")` (script.mjs:122) is the evening of
    the previous local day, and the setters (script.mjs:133-140) work on that
    day. First-of-month and month-end starts then come out days apart from the
    model. In UTC-5, `"2026-03-01"` +1 month prints `2026-03-29`, where the
    model gives `2026-04-01`. `"2026-01-31"` +1 month clamps from 30 January
    and prints `2026-03-01`, where the model gives `2026-02-28`.
  - A clock change between the start and the target (daylight saving time)
    shifts the local hour against UTC, which can move the printed UTC date by
    one day.
- The `Date` time-value range of ±8.64e15 ms is not modelled. Outside it, a
  `Date` becomes invalid and `toISOString` throws. The model's dates are
  unbounded, and a year beyond ±999999 prints with more than six digits.
- Numbers are integers or NaN. Fractions and infinities do not occur in this
  code. The one coercion it performs, an absent schedule field `undefined`
  turning `+` into NaN, is modelled (`Scheduler.ReadAsWritten`). No other
  coercion of a non-numeric value occurs.
- `new Date(str)` is modelled for the date-only ISO forms `YYYY`, `YYYY-MM` and
  `YYYY-MM-DD`, with an optional `+YYYYYY`/`-YYYYYY` year. A day field of 01..31
  past its month's end rolls over, as V8 does (`2026-02-30` is 2 March). Some
  engines reject it instead. Date-time forms and the engine-specific fallback
  formats are read as Invalid Date.
- Iso.ParseFormatRoundTrip: stated only for years -999999..999999, because the
  ISO year field is at most six digits. `Date` itself cannot hold years that
  far out.
- `calculateReviewDates` is not in the module's export list (script.mjs:164),
  even though the tests import it. That does not change what it computes.
