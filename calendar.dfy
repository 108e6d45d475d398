/**
  Proleptic Gregorian dates as Python's `datetime` numbers them: day 1 is
  0001-01-01, and subtracting two midnight datetimes gives the difference of
  their ordinals in days. The age of a child in months is that day count
  floor-divided by 30.
 */
module Calendar {

  datatype Date = Date(year: int, month: int, day: int)

  predicate IsLeap(year: int) {
    year % 4 == 0 && (year % 100 != 0 || year % 400 == 0)
  }

  function DaysInMonth(year: int, month: int): (n: int)
    requires 1 <= month <= 12
    ensures 28 <= n <= 31
    ensures n == 29 <==> month == 2 && IsLeap(year)
  {
    if month == 2 && IsLeap(year) then 29
    else [31, 28, 31, 30, 31, 30, 31, 31, 30, 31, 30, 31][month - 1]
  }

  /** A date of the calendar, in any year from 1 on. */
  predicate IsDate(d: Date) {
    1 <= d.year && 1 <= d.month <= 12 && 1 <= d.day <= DaysInMonth(d.year, d.month)
  }

  /** A date that `strptime` accepts: also within years 1 to 9999. */
  predicate ValidDate(d: Date) {
    IsDate(d) && d.year <= 9999
  }

  function DaysBeforeYear(year: int): int
    requires year >= 1
  {
    var y := year - 1;
    y * 365 + y / 4 - y / 100 + y / 400
  }

  function DaysBeforeMonth(year: int, month: int): int
    requires 1 <= month <= 12
  {
    [0, 31, 59, 90, 120, 151, 181, 212, 243, 273, 304, 334][month - 1]
      + (if month > 2 && IsLeap(year) then 1 else 0)
  }

  /** The day number of `d`, 0001-01-01 being day 1. */
  function Ordinal(d: Date): (n: int)
    requires IsDate(d)
    ensures n >= 1
  {
    DaysBeforeYear(d.year) + DaysBeforeMonth(d.year, d.month) + d.day
  }

  /** The calendar day after `d`. */
  function NextDay(d: Date): (e: Date)
    requires IsDate(d)
    ensures IsDate(e)
  {
    if d.day < DaysInMonth(d.year, d.month) then Date(d.year, d.month, d.day + 1)
    else if d.month < 12 then Date(d.year, d.month + 1, 1)
    else Date(d.year + 1, 1, 1)
  }

  lemma YearLength(year: int)
    requires year >= 1
    ensures DaysBeforeYear(year + 1) == DaysBeforeYear(year) + (if IsLeap(year) then 366 else 365)
  {
    var y := year - 1;
    assert (y + 1) / 4 == y / 4 + (if year % 4 == 0 then 1 else 0);
    assert (y + 1) / 100 == y / 100 + (if year % 100 == 0 then 1 else 0);
    assert (y + 1) / 400 == y / 400 + (if year % 400 == 0 then 1 else 0);
    assert year * 365 == y * 365 + 365;
  }

  /** Consecutive calendar days have consecutive ordinals. */
  lemma NextDayOrdinal(d: Date)
    requires IsDate(d)
    ensures Ordinal(NextDay(d)) == Ordinal(d) + 1
  {
    if d.day == DaysInMonth(d.year, d.month) && d.month == 12 {
      YearLength(d.year);
    }
  }

  /** Age in whole months of 30 days, rounding toward minus infinity. */
  function AgeInMonths(days: int): (months: int)
    ensures months * 30 <= days < months * 30 + 30
  {
    days / 30
  }

  /** The floor bound determines the age: no other month count satisfies it. */
  lemma AgeInMonthsUnique(days: int, months: int)
    requires months * 30 <= days < months * 30 + 30
    ensures months == AgeInMonths(days)
  {
  }

  /** Age in months at recording time of a child born on `dob`. */
  function AgeAt(dob: Date, recorded: Date): (months: int)
    requires IsDate(dob) && IsDate(recorded)
    ensures months * 30 <= Ordinal(recorded) - Ordinal(dob) < months * 30 + 30
  {
    AgeInMonths(Ordinal(recorded) - Ordinal(dob))
  }

  /** Born 2020-01-01 and recorded 2020-04-05: 95 days, hence 3 months. */
  lemma AgeExample()
    ensures Ordinal(Date(2020, 4, 5)) - Ordinal(Date(2020, 1, 1)) == 95
    ensures AgeAt(Date(2020, 1, 1), Date(2020, 4, 5)) == 3
  {
  }

  /** A recording one day before the birth date gives -1, not 0: floor, not truncation. */
  lemma AgeBeforeBirth(dob: Date)
    requires IsDate(dob)
    ensures AgeAt(NextDay(dob), dob) == -1
  {
    NextDayOrdinal(dob);
  }
}
