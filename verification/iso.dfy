/** Text form of dates: the date part of `Date.prototype.toISOString()`
    (the `full-date` of section 5.6 of RFC 3339, `YYYY-MM-DD`, widened to
    `+YYYYYY`/`-YYYYYY` for years outside 0..9999 as ECMAScript prescribes)
    and the `Date` constructor applied to a date-only string, which reads it
    as UTC midnight.
 */
module Iso {
  import opened Calendar
  import opened JsDate

  datatype Option<T> = None | Some(value: T)

  predicate IsDigit(c: char) {
    '0' <= c <= '9'
  }

  function DigitChar(k: int): (c: char)
    requires 0 <= k <= 9
    ensures IsDigit(c) && c as int - '0' as int == k
  {
    (k + '0' as int) as char
  }

  function Pow10(w: nat): nat {
    if w == 0 then 1 else 10 * Pow10(w - 1)
  }

  /** The decimal digits of `n`, zero-padded on the left to at least `width`
      characters; `n` itself never loses a digit. */
  function Digits(n: nat, width: nat): (s: string)
    ensures |s| >= 1
    decreases n + width
  {
    if n < 10 && width <= 1 then [DigitChar(n)]
    else Digits(n / 10, if width == 0 then 0 else width - 1) + [DigitChar(n % 10)]
  }

  /** The number written by a non-empty string of decimal digits. */
  function DecodeDigits(s: string): (r: Option<nat>)
    ensures r.Some? <==> |s| > 0 && forall i :: 0 <= i < |s| ==> IsDigit(s[i])
  {
    if |s| == 0 || !IsDigit(s[|s| - 1]) then None
    else
      var last := s[|s| - 1] as int - '0' as int;
      if |s| == 1 then Some(last)
      else match DecodeDigits(s[..|s| - 1])
        case None => None
        case Some(v) => Some(v * 10 + last)
  }

  lemma {:induction false} DigitsAllDigits(n: nat, width: nat)
    ensures forall i :: 0 <= i < |Digits(n, width)| ==> IsDigit(Digits(n, width)[i])
    decreases n + width
  {
    if !(n < 10 && width <= 1) {
      DigitsAllDigits(n / 10, if width == 0 then 0 else width - 1);
    }
  }

  /** A number below `10^width` takes exactly `width` padded digits. */
  lemma {:induction false} DigitsLength(n: nat, width: nat)
    requires width >= 1 && n < Pow10(width)
    ensures |Digits(n, width)| == width
    decreases width
  {
    if width > 1 {
      DigitsLength(n / 10, width - 1);
    }
  }

  /** Decoding the padded digits of `n` gives back `n`. */
  lemma {:induction false} DigitsRoundTrip(n: nat, width: nat)
    ensures DecodeDigits(Digits(n, width)) == Some(n)
    decreases n + width
  {
    var s := Digits(n, width);
    DigitsAllDigits(n, width);
    if !(n < 10 && width <= 1) {
      var w' := if width == 0 then 0 else width - 1;
      DigitsRoundTrip(n / 10, w');
      assert s[..|s| - 1] == Digits(n / 10, w');
    }
  }

  /** Two padded digits, written out. */
  lemma TwoDigits(n: nat)
    requires n < 100
    ensures Digits(n, 2) == [DigitChar(n / 10), DigitChar(n % 10)]
  {
  }

  /** Four padded digits, written out. */
  lemma FourDigits(n: nat)
    requires n < 10000
    ensures Digits(n, 4) == [DigitChar(n / 10 / 10 / 10), DigitChar(n / 10 / 10 % 10),
                             DigitChar(n / 10 % 10), DigitChar(n % 10)]
  {
    assert Digits(n, 4) == Digits(n / 10, 3) + [DigitChar(n % 10)];
    assert Digits(n / 10, 3) == Digits(n / 10 / 10, 2) + [DigitChar(n / 10 % 10)];
    TwoDigits(n / 10 / 10);
  }

  function Abs(x: int): nat {
    if x < 0 then -x else x
  }

  /** Four digits for years 0..9999, otherwise a sign and six or more digits. */
  function YearText(y: int): string {
    if 0 <= y <= 9999 then Digits(y, 4)
    else (if y < 0 then "-" else "+") + Digits(Abs(y), 6)
  }

  /** The calendar-date part of the ISO string of a day. */
  function DatePart(d: ValidDate): string {
    YearText(d.year) + "-" + Digits(d.month, 2) + "-" + Digits(d.day, 2)
  }

  /** `toISOString()` of a `Date` at UTC midnight; an Invalid Date throws. */
  function ToIsoString(t: Time): Result<string> {
    if t.Invalid? then Throws(RangeError)
    else Ok(DatePart(t.date) + "T00:00:00.000Z")
  }

  /** `s.split(c)[0]`: the text before the first `c`, or all of `s`. */
  function BeforeFirst(s: string, c: char): (r: string)
    ensures c !in r
    ensures r <= s
    ensures r == s || s[|r|] == c
  {
    if |s| == 0 || s[0] == c then []
    else [s[0]] + BeforeFirst(s[1..], c)
  }

  /** `formatDate`: the ISO string cut at its "T". */
  function FormatDate(t: Time): (r: Result<string>)
    ensures t.Invalid? ==> r == Throws(RangeError)
    ensures t.At? ==> r == Ok(DatePart(t.date))
  {
    match ToIsoString(t)
    case Throws(e) => Throws(e)
    case Ok(s) =>
      DatePartHasNoT(t.date);
      BeforeFirstStopsAt(DatePart(t.date), "T00:00:00.000Z", 'T');
      Ok(BeforeFirst(s, 'T'))
  }

  lemma {:induction false} BeforeFirstStopsAt(a: string, b: string, c: char)
    requires c !in a && |b| > 0 && b[0] == c
    ensures BeforeFirst(a + b, c) == a
    decreases |a|
  {
    if |a| > 0 {
      assert (a + b)[1..] == a[1..] + b;
      BeforeFirstStopsAt(a[1..], b, c);
      assert a == [a[0]] + a[1..];
    }
  }

  lemma DatePartHasNoT(d: ValidDate)
    ensures 'T' !in DatePart(d)
  {
    DigitsAllDigits(d.month, 2);
    DigitsAllDigits(d.day, 2);
    if 0 <= d.year <= 9999 {
      DigitsAllDigits(d.year, 4);
    } else {
      DigitsAllDigits(Abs(d.year), 6);
    }
    var s := DatePart(d);
    forall i | 0 <= i < |s|
      ensures s[i] != 'T'
    {
    }
  }

  // ---------------------------------------------------------------------
  // Parsing: `new Date(str)` for the date-only forms YYYY, YYYY-MM and
  // YYYY-MM-DD (with the year optionally written +YYYYYY or -YYYYYY).
  // ---------------------------------------------------------------------

  /** `new Date(s)` for a date-only string. Month fields must be 01..12 and
      day fields 01..31; a day past the end of its month rolls over into the
      next month, as the V8 engine does. Anything else is an Invalid Date. */
  function ParseDate(s: string): Time {
    if |s| >= 1 && (s[0] == '+' || s[0] == '-') then
      if |s| < 7 then Invalid
      else match DecodeDigits(s[1..7])
        case None => Invalid
        case Some(v) =>
          if s[0] == '-' && v == 0 then Invalid
          else
            var year: int := if s[0] == '-' then -(v as int) else v as int;
            ParseMonthDay(year, s[7..])
    else if |s| < 4 then Invalid
    else match DecodeDigits(s[..4])
      case None => Invalid
      case Some(v) => ParseMonthDay(v, s[4..])
  }

  /** The part after the year: nothing, "-MM" or "-MM-DD". */
  function ParseMonthDay(year: int, rest: string): Time {
    if rest == [] then At(Date(year, 1, 1))
    else if |rest| == 3 && rest[0] == '-' then
      match DecodeDigits(rest[1..])
      case None => Invalid
      case Some(m) => if 1 <= m <= 12 then At(Date(year, m, 1)) else Invalid
    else if |rest| == 6 && rest[0] == '-' && rest[3] == '-' then
      match (DecodeDigits(rest[1..3]), DecodeDigits(rest[4..]))
      case (Some(m), Some(day)) =>
        if 1 <= m <= 12 && 1 <= day <= 31 then At(Normalize(year, m, day)) else Invalid
      case _ => Invalid
    else Invalid
  }

  /** For years 0..9999 the date part is ten characters, `YYYY-MM-DD`:
      digits everywhere except the two hyphens. */
  lemma DatePartShape(d: ValidDate)
    requires 0 <= d.year <= 9999
    ensures |DatePart(d)| == 10
    ensures DatePart(d)[4] == '-' && DatePart(d)[7] == '-'
    ensures forall i :: 0 <= i < 10 && i != 4 && i != 7 ==> IsDigit(DatePart(d)[i])
  {
    DigitsLength(d.year, 4);
    DigitsLength(d.month, 2);
    DigitsLength(d.day, 2);
    DigitsAllDigits(d.year, 4);
    DigitsAllDigits(d.month, 2);
    DigitsAllDigits(d.day, 2);
  }

  lemma MonthDayRoundTrip(d: ValidDate)
    ensures ParseMonthDay(d.year, "-" + Digits(d.month, 2) + "-" + Digits(d.day, 2)) == At(d)
  {
    var mm, dd := Digits(d.month, 2), Digits(d.day, 2);
    DigitsLength(d.month, 2);
    DigitsLength(d.day, 2);
    DigitsRoundTrip(d.month, 2);
    DigitsRoundTrip(d.day, 2);
    var rest := "-" + mm + "-" + dd;
    assert rest[1..3] == mm;
    assert rest[4..] == dd;
    NormalizeKeepsValid(d);
  }

  /** Parsing the date part of a day gives that day back, for every year that
      the six-digit ISO year form can hold. */
  lemma ParseFormatRoundTrip(d: ValidDate)
    requires -999999 <= d.year <= 999999
    ensures ParseDate(DatePart(d)) == At(d)
  {
    if 0 <= d.year <= 9999 {
      FourDigitYearRoundTrip(d);
    } else {
      SixDigitYearRoundTrip(d);
    }
  }

  lemma FourDigitYearRoundTrip(d: ValidDate)
    requires 0 <= d.year <= 9999
    ensures ParseDate(DatePart(d)) == At(d)
  {
    var rest := "-" + Digits(d.month, 2) + "-" + Digits(d.day, 2);
    var yy := Digits(d.year, 4);
    var s := DatePart(d);
    MonthDayRoundTrip(d);
    DigitsLength(d.year, 4);
    DigitsAllDigits(d.year, 4);
    DigitsRoundTrip(d.year, 4);
    assert s == yy + rest;
    assert s[..4] == yy;
    assert s[4..] == rest;
    assert !(s[0] == '+' || s[0] == '-');
  }

  lemma SixDigitYearRoundTrip(d: ValidDate)
    requires -999999 <= d.year <= 999999 && !(0 <= d.year <= 9999)
    ensures ParseDate(DatePart(d)) == At(d)
  {
    var rest := "-" + Digits(d.month, 2) + "-" + Digits(d.day, 2);
    var sign := if d.year < 0 then "-" else "+";
    var yy := Digits(Abs(d.year), 6);
    var s := DatePart(d);
    MonthDayRoundTrip(d);
    DigitsLength(Abs(d.year), 6);
    DigitsRoundTrip(Abs(d.year), 6);
    assert s == sign + yy + rest;
    assert s[1..7] == yy;
    assert s[7..] == rest;
  }
}
