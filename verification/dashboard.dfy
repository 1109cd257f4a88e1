/**
 * The dashboard's period selection: the shown month and year, the
 * `YYYY-MM` key the aggregates filter by, the back and forward buttons that
 * step a month with a wrap at the year's ends, and the colour each category
 * slice of the pie chart gets.
 */
module Dashboard {
  import opened JsString
  import Calendar
  import FileService

  /** The keys of `monthNamesToNumbers`, in order; none is an array index,
      so `Object.keys` keeps this insertion order. */
  const MonthNames: seq<string> := [
    "January", "February", "March", "April", "May", "June",
    "July", "August", "September", "October", "November", "December"]

  /** The month shown: a position in `MonthNames`, or a name the table does
      not know (a month name in another language, or `undefined` after a
      step from such a name). */
  datatype Month = Known(index: int) | Unknown

  datatype Period = Period(month: Month, year: int)

  predicate ValidPeriod(p: Period) {
    p.month.Known? ==> 0 <= p.month.index < 12
  }

  /** The month a name denotes. */
  function MonthFromName(name: string): (m: Month)
    ensures m.Known? ==> 0 <= m.index < 12 && MonthNames[m.index] == name
    ensures m.Unknown? ==> name !in MonthNames
  {
    if name in MonthNames then
      var i :| 0 <= i < |MonthNames| && MonthNames[i] == name;
      Known(i)
    else Unknown
  }

  /** `monthNamesToNumbers[monthString] ?? 1`. */
  function MonthNumber(m: Month): int {
    match m
    case Known(i) => i + 1
    case Unknown => 1
  }

  /** `yearMonth`: the year as JavaScript prints it, a dash, and the month
      number padded to two digits. */
  function YearMonth(p: Period): (key: string)
    requires ValidPeriod(p)
    ensures |key| >= 4 && key[|key| - 3] == '-'
    ensures var mm := key[|key| - 2..];
            AllDigits(mm) && DecimalValue(mm) == MonthNumber(p.month) && 1 <= DecimalValue(mm) <= 12
  {
    var m := MonthNumber(p.month);
    TwoDigits(m);
    assert Pow10(2) == 100;
    FixedDigitsValue(m, 2);
    IntToString(p.year) + "-" + PadStart2(NatToString(m))
  }

  /** For a four-digit year the key is `YYYY-MM`; an unknown month name
      selects January. */
  lemma YearMonthShape(p: Period)
    requires ValidPeriod(p) && 1000 <= p.year <= 9999
    ensures YearMonth(p) == FixedDigits(p.year, 4) + "-" + FixedDigits(MonthNumber(p.month), 2)
    ensures p.month.Unknown? ==> YearMonth(p) == YearMonth(Period(Known(0), p.year))
  {
    assert Pow10(3) == 1000 && Pow10(4) == 10000;
    NatToStringFixed(p.year, 4);
    TwoDigits(MonthNumber(p.month));
  }

  /** The key of a month is a prefix of the canonical spelling of every date
      in it, so imported expenses of the shown month pass the aggregates'
      filter. */
  lemma YearMonthPrefixesDates(d: Calendar.Date)
    requires Calendar.IsValid(d)
    ensures StartsWith(FileService.RenderDate(d), YearMonth(Period(Known(d.month - 1), d.year)))
  {
    var key := YearMonth(Period(Known(d.month - 1), d.year));
    var rendered := FileService.RenderDate(d);
    assert rendered == key + "-" + PadStart2(NatToString(d.day));
    assert rendered[..|key|] == key;
  }

  /** `handleMonthChange(prev)`: one month back or forward, wrapping from
      January back to December of the previous year and from December on to
      January of the next. With an unknown month the index is `NaN`, no
      comparison holds, and the month stays unknown in the same year. */
  function HandleMonthChange(p: Period, prev: bool): (r: Period)
    requires ValidPeriod(p)
    ensures ValidPeriod(r)
    ensures p.month.Unknown? <==> r.month.Unknown?
  {
    match p.month
    case Unknown => p
    case Known(i) =>
      var next := if prev then i - 1 else i + 1;
      if next < 0 then Period(Known(11), p.year - 1)
      else if next > 11 then Period(Known(0), p.year + 1)
      else Period(Known(next), p.year)
  }

  /** The back button hands its press event to the handler as `prev`; an
      event object is truthy, so the button always steps back. */
  function BackButton(p: Period): Period
    requires ValidPeriod(p)
  {
    HandleMonthChange(p, true)
  }

  function ForwardButton(p: Period): Period
    requires ValidPeriod(p)
  {
    HandleMonthChange(p, false)
  }

  /** Months counted from January of year 0. */
  function MonthCount(p: Period): int
    requires p.month.Known?
  {
    12 * p.year + p.month.index
  }

  /** The period a month count denotes. */
  function PeriodOfCount(n: int): (p: Period)
    ensures ValidPeriod(p) && p.month.Known?
    ensures MonthCount(p) == n
  {
    Period(Known(n % 12), n / 12)
  }

  /** A known period is the one its month count denotes. */
  lemma CountDeterminesPeriod(p: Period)
    requires ValidPeriod(p) && p.month.Known?
    ensures PeriodOfCount(MonthCount(p)) == p
  {
    var n := MonthCount(p);
    assert n / 12 == p.year && n % 12 == p.month.index;
  }

  /** Back moves to the previous month and forward to the next, across year
      ends as well: the handler is the step of one month in the count. */
  lemma StepIsOneMonth(p: Period)
    requires ValidPeriod(p) && p.month.Known?
    ensures MonthCount(BackButton(p)) == MonthCount(p) - 1
    ensures MonthCount(ForwardButton(p)) == MonthCount(p) + 1
  {
  }

  /** Stepping back from January gives December of the previous year;
      stepping forward from December gives January of the next. */
  lemma WrapAtYearEnds(year: int)
    ensures BackButton(Period(Known(0), year)) == Period(Known(11), year - 1)
    ensures ForwardButton(Period(Known(11), year)) == Period(Known(0), year + 1)
  {
  }

  /** Inside the year the index moves by one and the year stays. */
  lemma StepWithinYear(p: Period)
    requires ValidPeriod(p) && p.month.Known?
    ensures 0 < p.month.index ==> BackButton(p) == Period(Known(p.month.index - 1), p.year)
    ensures p.month.index < 11 ==> ForwardButton(p) == Period(Known(p.month.index + 1), p.year)
  {
  }

  /** Forward then back, or back then forward, returns to the same month of
      the same year. */
  lemma StepsCancel(p: Period)
    requires ValidPeriod(p)
    ensures BackButton(ForwardButton(p)) == p
    ensures ForwardButton(BackButton(p)) == p
  {
    if p.month.Known? {
      StepIsOneMonth(p);
      StepIsOneMonth(ForwardButton(p));
      StepIsOneMonth(BackButton(p));
      CountDeterminesPeriod(p);
      CountDeterminesPeriod(BackButton(ForwardButton(p)));
      CountDeterminesPeriod(ForwardButton(BackButton(p)));
    }
  }

  /** `chartColors`. */
  const ChartColors: seq<string> := [
    "#FF6B6B", "#f4a51d", "#1e6d8a", "#57abc3", "#3498DB",
    "#415863", "#EF8354", "#FFC107", "#2B7A78", "#E9ECEF"]

  /** The colour of the pie slice at position `num`:
      `chartColors[num % chartColors.length]`, always a palette entry. */
  function SliceColour(num: nat): (c: string)
    ensures c in ChartColors
  {
    ChartColors[num % |ChartColors|]
  }

  /** The palette repeats every ten slices, and neighbouring slices never
      share a colour. */
  lemma SliceColoursCycle(num: nat)
    ensures SliceColour(num + |ChartColors|) == SliceColour(num)
    ensures SliceColour(num) != SliceColour(num + 1)
  {
    assert (num + 10) % 10 == num % 10;
    var i, j := num % 10, (num + 1) % 10;
    assert j == (i + 1) % 10;
    assert forall a, b :: 0 <= a < b < 10 ==> ChartColors[a] != ChartColors[b];
  }
}
