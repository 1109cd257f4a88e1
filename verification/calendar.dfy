/**
 * The proleptic Gregorian calendar as JavaScript's `Date` uses it, and the
 * local-time constructor `new Date(year, monthIndex, day)`, which never rejects
 * out-of-range month or day numbers but rolls them over into neighbouring
 * months and years.
 */
module Calendar {

  /** A calendar date; `month` counts from 1. */
  datatype Date = Date(year: int, month: int, day: int)

  predicate IsLeapYear(y: int) {
    (y % 4 == 0 && y % 100 != 0) || y % 400 == 0
  }

  function DaysInYear(y: int): int {
    if IsLeapYear(y) then 366 else 365
  }

  function DaysInMonth(y: int, m: int): (n: int)
    requires 1 <= m <= 12
    ensures 28 <= n <= 31
  {
    if m == 2 then (if IsLeapYear(y) then 29 else 28)
    else if m == 4 || m == 6 || m == 9 || m == 11 then 30
    else 31
  }

  /** A date that exists in the calendar. */
  predicate IsValid(d: Date) {
    1 <= d.month <= 12 && 1 <= d.day <= DaysInMonth(d.year, d.month)
  }

  /** Days in the months of year `y` before month `m`. */
  function DaysBeforeMonth(y: int, m: int): (n: int)
    requires 1 <= m <= 13
    ensures n >= 0
    decreases m
  {
    if m == 1 then 0 else DaysBeforeMonth(y, m - 1) + DaysInMonth(y, m - 1)
  }

  /** The twelve months add up to the year. */
  lemma DaysBeforeMonthThirteen(y: int)
    ensures DaysBeforeMonth(y, 13) == DaysInYear(y)
  {
    assert DaysBeforeMonth(y, 3) == 31 + DaysInMonth(y, 2);
    assert DaysBeforeMonth(y, 7) == DaysBeforeMonth(y, 3) + 31 + 30 + 31 + 30;
    assert DaysBeforeMonth(y, 11) == DaysBeforeMonth(y, 7) + 31 + 31 + 30 + 31;
    assert DaysBeforeMonth(y, 13) == DaysBeforeMonth(y, 11) + 30 + 31;
  }

  /** A later month starts no earlier in the year. */
  lemma {:induction false} DaysBeforeMonthMonotone(y: int, m1: int, m2: int)
    requires 1 <= m1 <= m2 <= 13
    ensures DaysBeforeMonth(y, m1) <= DaysBeforeMonth(y, m2)
    decreases m2 - m1
  {
    if m1 < m2 {
      DaysBeforeMonthMonotone(y, m1, m2 - 1);
    }
  }

  /** Days from 1 January of year 0 to 1 January of year `y` (negative before
      year 0): 365 per year plus one per leap year in between. */
  function DaysBeforeYear(y: int): int {
    365 * y + (y + 3) / 4 - (y + 99) / 100 + (y + 399) / 400
  }

  /** Consecutive years are `DaysInYear` apart. */
  lemma NextYear(y: int)
    ensures DaysBeforeYear(y + 1) == DaysBeforeYear(y) + DaysInYear(y)
  {
    StepQuotient4(y);
    StepQuotient100(y);
    StepQuotient400(y);
    LeapDivisors(y);
  }

  /** Rounding up `y / 4` gains one exactly when `y` is not a multiple of 4. */
  lemma StepQuotient4(y: int)
    ensures (y + 4) / 4 == y / 4 + 1
    ensures (y + 3) / 4 == y / 4 + (if y % 4 == 0 then 0 else 1)
  {
  }

  lemma StepQuotient100(y: int)
    ensures (y + 100) / 100 == y / 100 + 1
    ensures (y + 99) / 100 == y / 100 + (if y % 100 == 0 then 0 else 1)
  {
  }

  lemma StepQuotient400(y: int)
    ensures (y + 400) / 400 == y / 400 + 1
    ensures (y + 399) / 400 == y / 400 + (if y % 400 == 0 then 0 else 1)
  {
  }

  lemma LeapDivisors(y: int)
    ensures y % 400 == 0 ==> y % 100 == 0
    ensures y % 100 == 0 ==> y % 4 == 0
  {
  }

  /** A later year starts no earlier than the end of an earlier one. */
  lemma {:induction false} DaysBeforeYearMonotone(a: int, b: int)
    requires a < b
    ensures DaysBeforeYear(a + 1) <= DaysBeforeYear(b)
    decreases b - a
  {
    if a + 1 < b {
      DaysBeforeYearMonotone(a, b - 1);
      NextYear(b - 1);
    }
  }

  /** Day `d` of month `m` of year `y`, counted from 1 January of year 0; `d`
      may lie outside the month, which is how JavaScript reads it. */
  function DayIndex(y: int, m: int, d: int): int
    requires 1 <= m <= 12
  {
    DaysBeforeYear(y) + DaysBeforeMonth(y, m) + d - 1
  }

  function DayNumber(d: Date): int
    requires 1 <= d.month <= 12
  {
    DayIndex(d.year, d.month, d.day)
  }

  /** Moves day `d` of month `m` of year `y` into range one month at a time:
      a day below 1 borrows the previous month's length, a day past the end of
      the month carries into the next, crossing year boundaries as needed. */
  function NormaliseDay(y: int, m: int, d: int): (r: Date)
    requires 1 <= m <= 12
    ensures IsValid(r)
    ensures DayNumber(r) == DayIndex(y, m, d)
    decreases (if d < 1 then 1 else 0), (if d < 1 then -d else d)
  {
    if d < 1 then
      if m == 1 then
        BackAcrossYear(y, d);
        NormaliseDay(y - 1, 12, d + 31)
      else
        MonthBack(y, m, d);
        NormaliseDay(y, m - 1, d + DaysInMonth(y, m - 1))
    else if d > DaysInMonth(y, m) then
      if m == 12 then
        BackAcrossYear(y + 1, d - 31);
        NormaliseDay(y + 1, 1, d - 31)
      else
        MonthBack(y, m + 1, d - DaysInMonth(y, m));
        NormaliseDay(y, m + 1, d - DaysInMonth(y, m))
    else
      Date(y, m, d)
  }

  /** Day `d` of a month is day `d` plus the previous month's length of the
      previous month. */
  lemma MonthBack(y: int, m: int, d: int)
    requires 2 <= m <= 12
    ensures DayIndex(y, m - 1, d + DaysInMonth(y, m - 1)) == DayIndex(y, m, d)
  {
  }

  /** Day `d + 31` of December of the previous year is day `d` of January. */
  lemma BackAcrossYear(y: int, d: int)
    ensures DayIndex(y - 1, 12, d + 31) == DayIndex(y, 1, d)
  {
    NextYear(y - 1);
    assert DaysBeforeMonth(y - 1, 12) + 31 == DaysInYear(y - 1) by {
      DaysBeforeMonthThirteen(y - 1);
    }
  }

  /** Two-digit year arguments 0..99 of the `Date` constructor mean 1900..1999. */
  function FullYear(year: int): int {
    if 0 <= year <= 99 then 1900 + year else year
  }

  /** `new Date(year, monthIndex, day)` in local time, read back through
      `getFullYear`, `getMonth() + 1` and `getDate`: the month index rolls
      over into years (floor division) and the day rolls over into months. */
  function LocalDate(year: int, monthIndex: int, day: int): (r: Date)
    ensures IsValid(r)
    ensures DayNumber(r)
            == DayIndex(FullYear(year) + monthIndex / 12, monthIndex % 12 + 1, 1) + day - 1
  {
    NormaliseDay(FullYear(year) + monthIndex / 12, monthIndex % 12 + 1, day)
  }

  /** A valid date lies within its own year. */
  lemma DayNumberWithinYear(d: Date)
    requires IsValid(d)
    ensures DaysBeforeYear(d.year) <= DayNumber(d) < DaysBeforeYear(d.year + 1)
  {
    var y := d.year;
    assert DayNumber(d) == DaysBeforeYear(y) + DaysBeforeMonth(y, d.month) + d.day - 1;
    MonthEndsWithinYear(y, d.month);
    NextYear(y);
  }

  /** Every month ends by the end of its year. */
  lemma MonthEndsWithinYear(y: int, m: int)
    requires 1 <= m <= 12
    ensures DaysBeforeMonth(y, m) + DaysInMonth(y, m) <= DaysInYear(y)
  {
    assert DaysBeforeMonth(y, m + 1) == DaysBeforeMonth(y, m) + DaysInMonth(y, m);
    DaysBeforeMonthMonotone(y, m + 1, 13);
    DaysBeforeMonthThirteen(y);
  }

  /** Valid dates with the same day number fall in the same year. */
  lemma SameDayNumberSameYear(a: Date, b: Date)
    requires IsValid(a) && IsValid(b)
    requires DayNumber(a) == DayNumber(b)
    ensures a.year == b.year
  {
    DayNumberWithinYear(a);
    DayNumberWithinYear(b);
    if a.year < b.year {
      DaysBeforeYearMonotone(a.year, b.year);
    }
    if b.year < a.year {
      DaysBeforeYearMonotone(b.year, a.year);
    }
  }

  /** Distinct valid dates have distinct day numbers, so the day number
      identifies a valid date completely. */
  lemma DayNumberInjective(a: Date, b: Date)
    requires IsValid(a) && IsValid(b)
    requires DayNumber(a) == DayNumber(b)
    ensures a == b
  {
    SameDayNumberSameYear(a, b);
    var y := a.year;
    assert DaysBeforeMonth(y, a.month) + a.day == DaysBeforeMonth(y, b.month) + b.day;
    DayOfYearInjective(y, a.month, a.day, b.month, b.day);
  }

  /** Within one year, the position of a valid day determines its month and
      day. */
  lemma DayOfYearInjective(y: int, m1: int, d1: int, m2: int, d2: int)
    requires 1 <= m1 <= 12 && 1 <= d1 <= DaysInMonth(y, m1)
    requires 1 <= m2 <= 12 && 1 <= d2 <= DaysInMonth(y, m2)
    requires DaysBeforeMonth(y, m1) + d1 == DaysBeforeMonth(y, m2) + d2
    ensures m1 == m2 && d1 == d2
  {
    if m1 < m2 {
      EarlierMonthEndsFirst(y, m1, m2);
    } else if m2 < m1 {
      EarlierMonthEndsFirst(y, m2, m1);
    }
  }

  /** An earlier month ends before a later one starts. */
  lemma EarlierMonthEndsFirst(y: int, m1: int, m2: int)
    requires 1 <= m1 < m2 <= 12
    ensures DaysBeforeMonth(y, m1) + DaysInMonth(y, m1) <= DaysBeforeMonth(y, m2)
  {
    assert DaysBeforeMonth(y, m1 + 1) == DaysBeforeMonth(y, m1) + DaysInMonth(y, m1);
    DaysBeforeMonthMonotone(y, m1 + 1, m2);
  }

  /** The constructor keeps a valid date whose year is outside 0..99. */
  lemma LocalDateOfValid(d: Date)
    requires IsValid(d)
    requires !(0 <= d.year <= 99)
    ensures LocalDate(d.year, d.month - 1, d.day) == d
  {
    var r := LocalDate(d.year, d.month - 1, d.day);
    assert (d.month - 1) / 12 == 0 && (d.month - 1) % 12 + 1 == d.month;
    DayNumberInjective(r, d);
  }

  /** Years 0..99 given to the constructor are read as 1900..1999. */
  lemma LocalDateTwoDigitYear(year: int, month: int, day: int)
    requires 0 <= year <= 99
    requires IsValid(Date(1900 + year, month, day))
    ensures LocalDate(year, month - 1, day) == Date(1900 + year, month, day)
  {
    var d := Date(1900 + year, month, day);
    assert (month - 1) / 12 == 0 && (month - 1) % 12 + 1 == month;
    var r := LocalDate(year, month - 1, day);
    DayNumberInjective(r, d);
  }
}
