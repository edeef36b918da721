/**
 The proleptic Gregorian layer under the Parsi calendars. A date is its day ordinal:
 1 January of year 1 is day 1, as in Python's `date.toordinal`. Ordinals are unbounded here.
 */
module Gregorian {

  predicate IsLeap(year: int) {
    year % 4 == 0 && (year % 100 != 0 || year % 400 == 0)
  }

  function YearDays(year: int): int {
    if IsLeap(year) then 366 else 365
  }

  /** The ordinal of 31 December of the year before `year`: each year adds its own days. */
  function DaysBeforeYear(year: int): int
    decreases if year >= 1 then year else 2 - year
  {
    if year == 1 then 0
    else if year > 1 then DaysBeforeYear(year - 1) + YearDays(year - 1)
    else DaysBeforeYear(year + 1) - YearDays(year)
  }

  /** Days of `year` before the first of `month`. */
  function DaysBeforeMonth(year: int, month: int): int
    requires 1 <= month <= 12
  {
    var leap := if IsLeap(year) then 1 else 0;
    match month
    case 1 => 0
    case 2 => 31
    case 3 => 59 + leap
    case 4 => 90 + leap
    case 5 => 120 + leap
    case 6 => 151 + leap
    case 7 => 181 + leap
    case 8 => 212 + leap
    case 9 => 243 + leap
    case 10 => 273 + leap
    case 11 => 304 + leap
    case _ => 334 + leap
  }

  function DaysInMonth(year: int, month: int): int
    requires 1 <= month <= 12
  {
    (if month == 12 then YearDays(year) else DaysBeforeMonth(year, month + 1)) - DaysBeforeMonth(year, month)
  }

  predicate ValidDate(year: int, month: int, day: int) {
    1 <= month <= 12 && 1 <= day <= DaysInMonth(year, month)
  }

  function Date(year: int, month: int, day: int): int
    requires ValidDate(year, month, day)
  {
    DaysBeforeYear(year) + DaysBeforeMonth(year, month) + day
  }

  /** The year a date lies in, looked for from `year` on. */
  function YearFrom(date: int, year: int): (y: int)
    ensures DaysBeforeYear(y) < date <= DaysBeforeYear(y + 1)
    decreases if date > DaysBeforeYear(year + 1) then date - DaysBeforeYear(year + 1)
              else if date <= DaysBeforeYear(year) then DaysBeforeYear(year) + 1 - date
              else 0
  {
    if date > DaysBeforeYear(year + 1) then YearFrom(date, year + 1)
    else if date <= DaysBeforeYear(year) then YearFrom(date, year - 1)
    else year
  }

  function YearOf(date: int): (y: int)
    ensures DaysBeforeYear(y) < date <= DaysBeforeYear(y + 1)
  {
    YearFrom(date, 1)
  }

  function DayOfYear(date: int): int {
    date - DaysBeforeYear(YearOf(date))
  }

  function MonthOf(date: int): (m: int)
    ensures 1 <= m <= 12
  {
    var y, d := YearOf(date), DayOfYear(date);
    if d <= 31 then 1
    else if d <= DaysBeforeMonth(y, 3) then 2
    else if d <= DaysBeforeMonth(y, 4) then 3
    else if d <= DaysBeforeMonth(y, 5) then 4
    else if d <= DaysBeforeMonth(y, 6) then 5
    else if d <= DaysBeforeMonth(y, 7) then 6
    else if d <= DaysBeforeMonth(y, 8) then 7
    else if d <= DaysBeforeMonth(y, 9) then 8
    else if d <= DaysBeforeMonth(y, 10) then 9
    else if d <= DaysBeforeMonth(y, 11) then 10
    else if d <= DaysBeforeMonth(y, 12) then 11
    else 12
  }

  function DayOf(date: int): int {
    DayOfYear(date) - DaysBeforeMonth(YearOf(date), MonthOf(date))
  }

  /** Years apart are at least 365 days apart. */
  lemma {:induction false} YearsApart(y1: int, y2: int)
    requires y1 <= y2
    ensures DaysBeforeYear(y2) >= DaysBeforeYear(y1) + 365 * (y2 - y1)
    decreases y2 - y1
  {
    if y1 < y2 {
      YearsApart(y1, y2 - 1);
    }
  }

  /** Only one year contains a given ordinal. */
  lemma YearUnique(date: int, year: int)
    requires DaysBeforeYear(year) < date <= DaysBeforeYear(year + 1)
    ensures YearOf(date) == year
  {
    var y := YearOf(date);
    if y < year {
      YearsApart(y + 1, year);
    } else if year < y {
      YearsApart(year + 1, y);
    }
  }

  /** Ordinal to year, month and day and back is the identity. */
  lemma DateRoundTrip(date: int)
    ensures ValidDate(YearOf(date), MonthOf(date), DayOf(date))
    ensures Date(YearOf(date), MonthOf(date), DayOf(date)) == date
  {
  }

  /** Year, month and day to ordinal and back is the identity. */
  lemma YmdRoundTrip(year: int, month: int, day: int)
    requires ValidDate(year, month, day)
    ensures YearOf(Date(year, month, day)) == year
    ensures MonthOf(Date(year, month, day)) == month
    ensures DayOf(Date(year, month, day)) == day
  {
    YearUnique(Date(year, month, day), year);
  }

  // --- The closed form ---

  /** A multiple of 100 is one of 4, and a multiple of 400 is one of 100. */
  lemma Multiples(p: int)
    ensures p % 100 == 0 ==> p % 4 == 0
    ensures p % 400 == 0 ==> p % 100 == 0
  {
    var q, r := p / 100, p / 400;
    assert p % 100 == 0 ==> p == 4 * (25 * q);
    assert p % 400 == 0 ==> p == 100 * (4 * r);
  }

  /** The leap years among the first `p` years. */
  function LeapYears(p: int): int {
    p / 4 - p / 100 + p / 400
  }

  lemma LeapYearsStep(p: int)
    ensures LeapYears(p) == LeapYears(p - 1) + (if IsLeap(p) then 1 else 0)
  {
    assert p / 4 == (p - 1) / 4 + (if p % 4 == 0 then 1 else 0);
    assert p / 100 == (p - 1) / 100 + (if p % 100 == 0 then 1 else 0);
    assert p / 400 == (p - 1) / 400 + (if p % 400 == 0 then 1 else 0);
    Multiples(p);
  }

  /** Adding up the years one by one gives the usual leap-year count. */
  lemma {:induction false} ClosedForm(year: int)
    ensures DaysBeforeYear(year) == 365 * (year - 1) + LeapYears(year - 1)
    decreases if year >= 1 then year else 2 - year
  {
    if year > 1 {
      ClosedForm(year - 1);
      LeapYearsStep(year - 1);
    } else if year < 1 {
      ClosedForm(year + 1);
      LeapYearsStep(year);
    }
  }
}
