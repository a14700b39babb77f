/** The two start dates whose review dates the repository's tests fix. */
module Vectors {
  import opened Calendar
  import opened JsDate
  import opened Iso
  import opened Scheduler

  /** Spells out the date part of a day with a four-digit year. */
  lemma SpellOut(d: ValidDate)
    requires 0 <= d.year <= 9999
    ensures DatePart(d) == Digits(d.year, 4) + "-" + Digits(d.month, 2) + "-" + Digits(d.day, 2)
    ensures Digits(d.year, 4)
         == [DigitChar(d.year / 10 / 10 / 10), DigitChar(d.year / 10 / 10 % 10),
             DigitChar(d.year / 10 % 10), DigitChar(d.year % 10)]
    ensures Digits(d.month, 2) == [DigitChar(d.month / 10), DigitChar(d.month % 10)]
    ensures Digits(d.day, 2) == [DigitChar(d.day / 10), DigitChar(d.day % 10)]
  {
    FourDigits(d.year);
    TwoDigits(d.month);
    TwoDigits(d.day);
  }

  /** Reads the review dates off the five scheduled days of `d`. */
  lemma ResultOf(s: string, d: ValidDate)
    requires ParseDate(s) == At(d)
    ensures CalculateReviewDates(s)
         == Ok([DatePart(ScheduledDays(d)[0]), DatePart(ScheduledDays(d)[1]),
                DatePart(ScheduledDays(d)[2]), DatePart(ScheduledDays(d)[3]),
                DatePart(ScheduledDays(d)[4])])
  {
    ReviewDatesIncreasing(d);
    var r := CalculateReviewDates(s);
    var ds := ScheduledDays(d);
    forall i | 0 <= i < 5
      ensures r.value[i] == DatePart(ds[i])
    {
      assert Entries(At(d))[i] == ReviewDate(At(d), Schedule[i]);
    }
    assert |r.value| == 5;
    assert r.value == [DatePart(ds[0]), DatePart(ds[1]), DatePart(ds[2]), DatePart(ds[3]), DatePart(ds[4])];
  }

  lemma StandardStart()
    ensures ParseDate("2026-07-19") == At(Date(2026, 7, 19))
  {
    var d := Date(2026, 7, 19);
    SpellOut(d);
    assert DatePart(d) == "2026-07-19";
    ParseFormatRoundTrip(d);
  }

  lemma StandardDays()
    ensures ScheduledDays(Date(2026, 7, 19))
         == [Date(2026, 7, 26), Date(2026, 8, 19), Date(2026, 10, 19),
             Date(2027, 1, 19), Date(2027, 7, 19)]
  {
  }

  lemma StandardText()
    ensures DatePart(Date(2026, 7, 26)) == "2026-07-26"
    ensures DatePart(Date(2026, 8, 19)) == "2026-08-19"
    ensures DatePart(Date(2026, 10, 19)) == "2026-10-19"
    ensures DatePart(Date(2027, 1, 19)) == "2027-01-19"
    ensures DatePart(Date(2027, 7, 19)) == "2027-07-19"
  {
    SpellOut(Date(2026, 7, 26));
    SpellOut(Date(2026, 8, 19));
    SpellOut(Date(2026, 10, 19));
    SpellOut(Date(2027, 1, 19));
    SpellOut(Date(2027, 7, 19));
  }

  /** A start date in the middle of a month: every step keeps the day. */
  lemma StandardVector()
    ensures CalculateReviewDates("2026-07-19")
         == Ok(["2026-07-26", "2026-08-19", "2026-10-19", "2027-01-19", "2027-07-19"])
  {
    var d := Date(2026, 7, 19);
    StandardStart();
    ResultOf("2026-07-19", d);
    StandardDays();
    StandardText();
  }

  lemma YearEndStart()
    ensures ParseDate("2027-11-05") == At(Date(2027, 11, 5))
  {
    var d := Date(2027, 11, 5);
    SpellOut(d);
    assert DatePart(d) == "2027-11-05";
    ParseFormatRoundTrip(d);
  }

  lemma YearEndDays()
    ensures ScheduledDays(Date(2027, 11, 5))
         == [Date(2027, 11, 12), Date(2027, 12, 5), Date(2028, 2, 5),
             Date(2028, 5, 5), Date(2028, 11, 5)]
  {
  }

  lemma YearEndText()
    ensures DatePart(Date(2027, 11, 12)) == "2027-11-12"
    ensures DatePart(Date(2027, 12, 5)) == "2027-12-05"
    ensures DatePart(Date(2028, 2, 5)) == "2028-02-05"
    ensures DatePart(Date(2028, 5, 5)) == "2028-05-05"
    ensures DatePart(Date(2028, 11, 5)) == "2028-11-05"
  {
    SpellOut(Date(2027, 11, 12));
    SpellOut(Date(2027, 12, 5));
    SpellOut(Date(2028, 2, 5));
    SpellOut(Date(2028, 5, 5));
    SpellOut(Date(2028, 11, 5));
  }

  /** A start date late in the year: the +3-month entry crosses into a leap
      year and the +1-year entry crosses a year end. */
  lemma YearEndVector()
    ensures CalculateReviewDates("2027-11-05")
         == Ok(["2027-11-12", "2027-12-05", "2028-02-05", "2028-05-05", "2028-11-05"])
  {
    var d := Date(2027, 11, 5);
    YearEndStart();
    ResultOf("2027-11-05", d);
    YearEndDays();
    YearEndText();
  }

  /** A month-end start: the month entries clamp to 28 February and
      30 April, and the +7-day entry crosses into February. */
  lemma MonthEndDays()
    ensures ScheduledDays(Date(2026, 1, 31))
         == [Date(2026, 2, 7), Date(2026, 2, 28), Date(2026, 4, 30),
             Date(2026, 7, 31), Date(2027, 1, 31)]
  {
    assert Normalize(2026, 1, 38) == Normalize(2026, 2, 7);
  }

  /** The +7-day step across the end of a leap February, a common February
      and a year. */
  lemma WeekRollovers()
    ensures AddDays(Date(2028, 2, 25), 7) == Date(2028, 3, 3)
    ensures AddDays(Date(2027, 2, 25), 7) == Date(2027, 3, 4)
    ensures AddDays(Date(2026, 12, 28), 7) == Date(2027, 1, 4)
  {
    assert Normalize(2028, 2, 32) == Normalize(2028, 3, 3);
    assert Normalize(2027, 2, 32) == Normalize(2027, 3, 4);
    assert Normalize(2026, 12, 35) == Normalize(2027, 1, 4);
  }

  /** A leap day: the month entries keep the 29th, the year entry, having no
      clamp, lands on 1 March of the following year. */
  lemma LeapDayDays()
    ensures ScheduledDays(Date(2028, 2, 29))
         == [Date(2028, 3, 7), Date(2028, 3, 29), Date(2028, 5, 29),
             Date(2028, 8, 29), Date(2029, 3, 1)]
  {
    assert Normalize(2028, 2, 36) == Normalize(2028, 3, 7);
  }
}
