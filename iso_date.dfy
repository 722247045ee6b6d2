/**
 * Calendar dates of the proleptic Gregorian calendar, as `java.time.LocalDate`
 * holds them, with the ordering of `isBefore` and the ISO 8601 extended
 * calendar-date form `YYYY-MM-DD` (section 4.1.2.2 of ISO 8601:2004) that
 * `LocalDate.parse` reads and `LocalDate.toString` writes.
 */
module IsoDate {
  import opened Options
  import Digits

  datatype Date = Date(year: int, month: int, day: int)

  predicate IsLeapYear(y: int) {
    y % 4 == 0 && (y % 100 != 0 || y % 400 == 0)
  }

  function DaysInMonth(y: int, m: int): (n: int)
    requires 1 <= m <= 12
    ensures 28 <= n <= 31
  {
    if m == 2 then (if IsLeapYear(y) then 29 else 28)
    else if m == 4 || m == 6 || m == 9 || m == 11 then 30
    else 31
  }

  function DaysInYear(y: int): int {
    if IsLeapYear(y) then 366 else 365
  }

  /** A date that exists in the calendar (no 30 February, no month 13). */
  predicate Valid(d: Date) {
    1 <= d.month <= 12 && 1 <= d.day <= DaysInMonth(d.year, d.month)
  }

  /** A `LocalDate` value: always a date that exists in the calendar. */
  type ValidDate = d: Date | Valid(d) witness Date(2000, 1, 1)

  /** `LocalDate.isBefore`: year first, then month, then day; strict. */
  predicate IsBefore(a: Date, b: Date)
    ensures IsBefore(a, b) ==> a != b && a.year <= b.year
  {
    a.year < b.year
    || (a.year == b.year && a.month < b.month)
    || (a.year == b.year && a.month == b.month && a.day < b.day)
  }

  /** Whether `d` can be written with the plain four-digit year of the extended form. */
  predicate HasFourDigitYear(d: Date) {
    0 <= d.year <= 9999
  }

  /**
   * `LocalDate.parse` on the form `YYYY-MM-DD`; `None` where it throws. Every
   * date it yields exists in the calendar and has a year from 0 to 9999.
   */
  function ParseIsoDate(s: string): (r: Option<ValidDate>)
    ensures r.Some? ==> HasFourDigitYear(r.value) && |s| == 10 && s[4] == '-' && s[7] == '-'
  {
    if |s| == 10 && s[4] == '-' && s[7] == '-'
       && Digits.AllDigits(s[..4]) && Digits.AllDigits(s[5..7]) && Digits.AllDigits(s[8..])
    then
      var d := Date(Digits.Value(s[..4]), Digits.Value(s[5..7]), Digits.Value(s[8..]));
      Digits.FixedWidthOfValue(s[..4]);
      assert Digits.Pow10(4) == 10000;
      if Valid(d) then Some(d) else None
    else None
  }

  /** `LocalDate.toString` for a year from 0 to 9999. */
  function FormatIsoDate(d: Date): (s: string)
    requires HasFourDigitYear(d) && Valid(d)
    ensures |s| == 10
  {
    Digits.FixedWidth(d.year, 4) + "-" + Digits.FixedWidth(d.month, 2) + "-" + Digits.FixedWidth(d.day, 2)
  }

  /** Printing a date and parsing the text gives the date back. */
  lemma ParseFormat(d: Date)
    requires HasFourDigitYear(d) && Valid(d)
    ensures ParseIsoDate(FormatIsoDate(d)) == Some(d)
  {
    var y, m, dd := Digits.FixedWidth(d.year, 4), Digits.FixedWidth(d.month, 2), Digits.FixedWidth(d.day, 2);
    var s := FormatIsoDate(d);
    assert s[..4] == y && s[5..7] == m && s[8..] == dd;
    assert Digits.Pow10(4) == 10000 && Digits.Pow10(2) == 100;
    Digits.ValueOfFixedWidth(d.year, 4);
    Digits.ValueOfFixedWidth(d.month, 2);
    Digits.ValueOfFixedWidth(d.day, 2);
  }

  /** The text a date is parsed from is exactly its printed form: the form is canonical. */
  lemma FormatParse(s: string)
    requires ParseIsoDate(s).Some?
    ensures HasFourDigitYear(ParseIsoDate(s).value) && Valid(ParseIsoDate(s).value)
    ensures FormatIsoDate(ParseIsoDate(s).value) == s
  {
    Digits.FixedWidthOfValue(s[..4]);
    Digits.FixedWidthOfValue(s[5..7]);
    Digits.FixedWidthOfValue(s[8..]);
    assert s == s[..4] + "-" + s[5..7] + "-" + s[8..];
  }

  /** `IsBefore` is a strict total order. */
  lemma IsBeforeTotalOrder(a: Date, b: Date, c: Date)
    ensures !IsBefore(a, a)
    ensures IsBefore(a, b) && IsBefore(b, c) ==> IsBefore(a, c)
    ensures a == b || IsBefore(a, b) || IsBefore(b, a)
    ensures !(IsBefore(a, b) && IsBefore(b, a))
  {
  }

  // Day counts, the independent measure behind the ordering.

  /** Days from 0000-01-01 to the first of January of year `y` (negative before year 0). */
  function DaysBeforeYear(y: int): int
    decreases if y >= 0 then y else -y
  {
    if y == 0 then 0
    else if y > 0 then DaysBeforeYear(y - 1) + DaysInYear(y - 1)
    else DaysBeforeYear(y + 1) - DaysInYear(y)
  }

  /** Days in the months of year `y` before month `m`. */
  function DaysBeforeMonth(y: int, m: int): (n: int)
    requires 1 <= m <= 13
    ensures 28 * (m - 1) <= n <= 31 * (m - 1)
  {
    if m == 1 then 0 else DaysBeforeMonth(y, m - 1) + DaysInMonth(y, m - 1)
  }

  /** The day number of a date, counted from 0000-01-01 (`LocalDate.toEpochDay` up to a constant). */
  function DayCount(d: Date): int
    requires Valid(d)
  {
    DaysBeforeYear(d.year) + DaysBeforeMonth(d.year, d.month) + d.day - 1
  }

  lemma {:induction false} DaysBeforeNextYear(y: int)
    ensures DaysBeforeYear(y + 1) == DaysBeforeYear(y) + DaysInYear(y)
  {
  }

  lemma {:induction false} DaysBeforeYearGrows(y1: int, y2: int)
    requires y1 < y2
    ensures DaysBeforeYear(y1) + DaysInYear(y1) <= DaysBeforeYear(y2)
    decreases y2 - y1
  {
    DaysBeforeNextYear(y1);
    if y1 + 1 < y2 {
      DaysBeforeYearGrows(y1 + 1, y2);
    }
  }

  lemma {:induction false} DaysBeforeMonthGrows(y: int, m1: int, m2: int)
    requires 1 <= m1 < m2 <= 13
    ensures DaysBeforeMonth(y, m1) + DaysInMonth(y, m1) <= DaysBeforeMonth(y, m2)
    decreases m2 - m1
  {
    if m1 + 1 < m2 {
      DaysBeforeMonthGrows(y, m1 + 1, m2);
    }
  }

  lemma DaysBeforeMonthsOfYear(y: int)
    ensures DaysBeforeMonth(y, 13) == DaysInYear(y)
  {
    var feb := DaysInMonth(y, 2);
    assert DaysBeforeMonth(y, 2) == 31;
    assert DaysBeforeMonth(y, 3) == 31 + feb;
    assert DaysBeforeMonth(y, 4) == 62 + feb;
    assert DaysBeforeMonth(y, 5) == 92 + feb;
    assert DaysBeforeMonth(y, 6) == 123 + feb;
    assert DaysBeforeMonth(y, 7) == 153 + feb;
    assert DaysBeforeMonth(y, 8) == 184 + feb;
    assert DaysBeforeMonth(y, 9) == 215 + feb;
    assert DaysBeforeMonth(y, 10) == 245 + feb;
    assert DaysBeforeMonth(y, 11) == 276 + feb;
    assert DaysBeforeMonth(y, 12) == 306 + feb;
  }

  /** A valid date's day number lies inside its year. */
  lemma DayCountWithinYear(d: Date)
    requires Valid(d)
    ensures DaysBeforeYear(d.year) <= DayCount(d) < DaysBeforeYear(d.year) + DaysInYear(d.year)
  {
    DaysBeforeMonthsOfYear(d.year);
    DaysBeforeMonthGrows(d.year, d.month, 13);
  }

  /** `IsBefore` orders valid dates exactly as their day numbers. */
  lemma IsBeforeIsDayOrder(a: Date, b: Date)
    requires Valid(a) && Valid(b)
    ensures IsBefore(a, b) <==> DayCount(a) < DayCount(b)
  {
    forall x: Date, z: Date | Valid(x) && Valid(z) && IsBefore(x, z)
      ensures DayCount(x) < DayCount(z)
    {
      if x.year < z.year {
        DayCountWithinYear(x);
        DayCountWithinYear(z);
        DaysBeforeYearGrows(x.year, z.year);
      } else if x.month < z.month {
        DaysBeforeMonthGrows(x.year, x.month, z.month);
      }
    }
    IsBeforeTotalOrder(a, b, a);
  }

}
