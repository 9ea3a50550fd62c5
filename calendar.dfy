/** The part of java.time.LocalDate that the leave core uses: dates as epoch
    days (LocalDate.toEpochDay, day 0 is 1970-01-01), the year of a date in the
    proleptic Gregorian calendar of ISO 8601, and ChronoUnit.DAYS.between. */
module Calendar {

  /** A calendar date, as its epoch day. */
  type Day = int

  /** Leap-year rule of the ISO calendar: every fourth year, except centuries
      not divisible by 400. Year 0 (1 BC) is a leap year. */
  predicate IsLeapYear(year: int) {
    year % 4 == 0 && (year % 100 != 0 || year % 400 == 0)
  }

  function DaysInYear(year: int): int {
    if IsLeapYear(year) then 366 else 365
  }

  /** Epoch day of January 1 of `year`: 719162 days separate 0001-01-01
      from 1970-01-01, and Dafny's division floors for a positive divisor. */
  function DaysBeforeYear(year: int): int {
    365 * (year - 1) + (year - 1) / 4 - (year - 1) / 100 + (year - 1) / 400 - 719162
  }

  lemma DivisionStep4(y: int)
    ensures y / 4 - (y - 1) / 4 == if y % 4 == 0 then 1 else 0
  {
  }

  lemma DivisionStep100(y: int)
    ensures y / 100 - (y - 1) / 100 == if y % 100 == 0 then 1 else 0
  {
  }

  lemma DivisionStep400(y: int)
    ensures y / 400 - (y - 1) / 400 == if y % 400 == 0 then 1 else 0
  {
  }

  /** Consecutive New Year's days are one year length apart. */
  lemma DaysBeforeNextYear(year: int)
    ensures DaysBeforeYear(year + 1) == DaysBeforeYear(year) + DaysInYear(year)
  {
    DivisionStep4(year);
    DivisionStep100(year);
    DivisionStep400(year);
    if year % 100 == 0 {
      assert year == 4 * (25 * (year / 100));
    }
    if year % 400 == 0 {
      assert year == 100 * (4 * (year / 400));
    }
  }

  lemma {:induction false} DaysBeforeYearMonotone(a: int, b: int)
    requires a <= b
    ensures DaysBeforeYear(a) <= DaysBeforeYear(b)
    decreases b - a
  {
    if a < b {
      DaysBeforeNextYear(a);
      DaysBeforeYearMonotone(a + 1, b);
    }
  }

  /** Whether epoch day `d` falls in `year`. */
  predicate InYear(d: Day, year: int) {
    DaysBeforeYear(year) <= d < DaysBeforeYear(year + 1)
  }

  /** Search upwards from a year known to start on or before `d`. */
  function YearFrom(d: Day, year: int): (y: int)
    requires DaysBeforeYear(year) <= d
    ensures InYear(d, y)
    decreases d - DaysBeforeYear(year)
  {
    DaysBeforeNextYear(year);
    if d < DaysBeforeYear(year + 1) then year else YearFrom(d, year + 1)
  }

  /** Search downwards from a year known to end after `d`. */
  function YearUntil(d: Day, year: int): (y: int)
    requires d < DaysBeforeYear(year + 1)
    ensures InYear(d, y)
    decreases DaysBeforeYear(year + 1) - d
  {
    DaysBeforeNextYear(year);
    if DaysBeforeYear(year) <= d then year else YearUntil(d, year - 1)
  }

  /** LocalDate.getYear of the date with epoch day `d`. */
  function YearOf(d: Day): (y: int)
    ensures InYear(d, y)
  {
    if d >= 0 then YearFrom(d, 1970) else YearUntil(d, 1969)
  }

  /** Years do not overlap: a day lies in exactly one of them, the one YearOf names. */
  lemma YearOfUnique(d: Day, year: int)
    requires InYear(d, year)
    ensures YearOf(d) == year
  {
    var y := YearOf(d);
    if y < year {
      DaysBeforeYearMonotone(y + 1, year);
    } else if year < y {
      DaysBeforeYearMonotone(year + 1, y);
    }
  }

  function LengthOfMonth(year: int, month: int): (n: int)
    requires 1 <= month <= 12
    ensures 28 <= n <= 31
  {
    if month == 2 then (if IsLeapYear(year) then 29 else 28)
    else if month == 4 || month == 6 || month == 9 || month == 11 then 30
    else 31
  }

  /** Days of `year` before the first of `month`. */
  function DaysBeforeMonth(year: int, month: int): (n: int)
    requires 1 <= month <= 12
    ensures 0 <= n && n + LengthOfMonth(year, month) <= DaysInYear(year)
  {
    var common := [0, 31, 59, 90, 120, 151, 181, 212, 243, 273, 304, 334][month - 1];
    if month > 2 && IsLeapYear(year) then common + 1 else common
  }

  /** LocalDate.of(year, month, dayOfMonth).toEpochDay(). */
  function EpochDay(year: int, month: int, dayOfMonth: int): (d: Day)
    requires 1 <= month <= 12 && 1 <= dayOfMonth <= LengthOfMonth(year, month)
    ensures YearOf(d) == year
  {
    var d := DaysBeforeYear(year) + DaysBeforeMonth(year, month) + dayOfMonth - 1;
    DaysBeforeNextYear(year);
    YearOfUnique(d, year);
    d
  }

  /** ChronoUnit.DAYS.between(start, end) on two dates. */
  function DaysBetween(start: Day, end: Day): int {
    end - start
  }

  /** The calendar days from `start` to `end`, both included. */
  ghost function DayRange(start: Day, end: Day): (r: set<Day>)
    ensures forall d :: d in r <==> start <= d <= end
    decreases end - start
  {
    if end < start then {} else {start} + DayRange(start + 1, end)
  }

  lemma {:induction false} DayRangeSize(start: Day, end: Day)
    requires start <= end + 1
    ensures |DayRange(start, end)| == end - start + 1
    decreases end - start + 1
  {
    if start <= end {
      DayRangeSize(start + 1, end);
      assert start !in DayRange(start + 1, end);
    }
  }

  /** The inclusive day count `DAYS.between(start, end) + 1`: the number of
      calendar days the range covers, and no positive count for a reversed range. */
  function InclusiveDayCount(start: Day, end: Day): (n: int)
    ensures start <= end ==> n >= 1 && n == |DayRange(start, end)|
    ensures end < start ==> n <= 0
  {
    if start <= end then DayRangeSize(start, end); DaysBetween(start, end) + 1
    else DaysBetween(start, end) + 1
  }
}
