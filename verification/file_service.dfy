/**
 * The CSV import normaliser: dialect detection, reshaping of the bank export,
 * key normalisation, row parsing and the amount and date canonicalisers.
 * Picking, reading and decoding the file and the tabular parser itself are
 * outside the model; the parser's output reaches `ProcessCsvResults` as rows of
 * (column, value) entries.
 */
module FileService {
  import opened Wrappers
  import opened JsString
  import Calendar

  // ---------------------------------------------------------------------------
  // Amounts
  // ---------------------------------------------------------------------------

  /** European amounts to canonical ones: drop every `.` (thousands
      separator), then turn every `,` (decimal separator) into `.`. */
  function TransformAmountFormat(amount: string): (r: string)
    ensures ',' !in r
    ensures Count(r, '.') == Count(amount, ',')
    ensures |r| == |amount| - Count(amount, '.')
  {
    var noDots := RemoveChar(amount, '.');
    RemoveCharCount(amount, '.', ',');
    ReplaceCharCount(noDots, ',', '.');
    ReplaceChar(noDots, ',', '.')
  }

  /** The canonicaliser works character by character, so it distributes over
      concatenation; with `AmountOfChar` this pins it down completely. */
  lemma TransformAmountFormatAppend(a: string, b: string)
    ensures TransformAmountFormat(a + b) == TransformAmountFormat(a) + TransformAmountFormat(b)
  {
    RemoveCharAppend(a, b, '.');
    ReplaceCharAppend(RemoveChar(a, '.'), RemoveChar(b, '.'), ',', '.');
  }

  lemma RemoveCharAppendLast(s: string, x: char, c: char)
    ensures RemoveChar(s + [x], c) == RemoveChar(s, c) + (if x == c then "" else [x])
  {
    assert (s + [x])[..|s + [x]| - 1] == s;
  }

  lemma {:induction false} RemoveCharAppend(a: string, b: string, c: char)
    ensures RemoveChar(a + b, c) == RemoveChar(a, c) + RemoveChar(b, c)
    decreases |b|
  {
    if |b| > 0 {
      var b' := b[..|b| - 1];
      var x := b[|b| - 1];
      RemoveCharAppend(a, b', c);
      assert a + b == (a + b') + [x];
      assert b == b' + [x];
      RemoveCharAppendLast(a + b', x, c);
      RemoveCharAppendLast(b', x, c);
    } else {
      assert a + b == a;
    }
  }

  lemma ReplaceCharAppend(a: string, b: string, x: char, y: char)
    ensures ReplaceChar(a + b, x, y) == ReplaceChar(a, x, y) + ReplaceChar(b, x, y)
  {
  }

  /** What the canonicaliser does to a single character. */
  lemma AmountOfChar(c: char)
    ensures TransformAmountFormat([c]) == (if c == '.' then "" else if c == ',' then "." else [c])
  {
    assert RemoveChar([c], '.') == RemoveChar([], '.') + (if c == '.' then "" else [c]) by {
      RemoveCharAppendLast([], c, '.');
      assert [] + [c] == [c];
    }
  }

  /** An amount with neither separator is already canonical. */
  lemma AmountWithoutSeparators(amount: string)
    requires '.' !in amount && ',' !in amount
    ensures TransformAmountFormat(amount) == amount
  {
    assert RemoveChar(amount, '.') == amount by {
      RemoveCharNoOp(amount, '.');
    }
  }

  lemma {:induction false} RemoveCharNoOp(s: string, c: char)
    requires c !in s
    ensures RemoveChar(s, c) == s
    decreases |s|
  {
    if |s| > 0 {
      RemoveCharNoOp(s[..|s| - 1], c);
      assert s == s[..|s| - 1] + [s[|s| - 1]];
    }
  }

  /** A European amount with one thousands group, such as `1.234,56`, becomes
      the canonical `1234.56`. */
  lemma EuropeanAmount(whole: string, thousands: string, cents: string)
    requires AllDigits(whole) && AllDigits(thousands) && AllDigits(cents)
    ensures TransformAmountFormat(whole + "." + thousands + "," + cents) == whole + thousands + "." + cents
  {
    calc {
      TransformAmountFormat(whole + "." + thousands + "," + cents);
    == { AmountOfFiveParts(whole, ".", thousands, ",", cents); }
      TransformAmountFormat(whole) + TransformAmountFormat(".") + TransformAmountFormat(thousands)
      + TransformAmountFormat(",") + TransformAmountFormat(cents);
    == { DigitsAreCanonical(whole); DigitsAreCanonical(thousands); DigitsAreCanonical(cents);
         AmountOfChar('.'); AmountOfChar(','); }
      whole + "" + thousands + "." + cents;
    == { assert whole + "" == whole; }
      whole + thousands + "." + cents;
    }
  }

  lemma DigitsAreCanonical(s: string)
    requires AllDigits(s)
    ensures TransformAmountFormat(s) == s
  {
    assert '.' !in s && ',' !in s by {
      forall k | 0 <= k < |s| ensures s[k] != '.' && s[k] != ',' {
        assert IsDigit(s[k]);
      }
    }
    AmountWithoutSeparators(s);
  }

  lemma AmountOfFiveParts(a: string, b: string, c: string, d: string, e: string)
    ensures TransformAmountFormat(a + b + c + d + e)
            == TransformAmountFormat(a) + TransformAmountFormat(b) + TransformAmountFormat(c)
               + TransformAmountFormat(d) + TransformAmountFormat(e)
  {
    TransformAmountFormatAppend(a + b + c + d, e);
    TransformAmountFormatAppend(a + b + c, d);
    TransformAmountFormatAppend(a + b, c);
    TransformAmountFormatAppend(a, b);
  }

  // ---------------------------------------------------------------------------
  // Dates
  // ---------------------------------------------------------------------------

  /** `/^(\d{4})-(\d{2})-(\d{2})$/` */
  predicate MatchesYearFirst(s: string) {
    && |s| == 10
    && AllDigits(s[..4]) && s[4] == '-' && AllDigits(s[5..7]) && s[7] == '-' && AllDigits(s[8..])
  }

  /** `/^(\d{2})-(\d{2})-(\d{4})$/` when `sep` is `-`, and
      `/^(\d{2})\/(\d{2})\/(\d{4})$/` when it is `/`. */
  predicate MatchesDayFirst(s: string, sep: char) {
    && |s| == 10
    && AllDigits(s[..2]) && s[2] == sep && AllDigits(s[3..5]) && s[5] == sep && AllDigits(s[6..])
  }

  predicate MatchesSomeFormat(s: string) {
    MatchesYearFirst(s) || MatchesDayFirst(s, '-') || MatchesDayFirst(s, '/')
  }

  /** `${getFullYear()}-${padded month}-${padded day}`: the year is written
      as JavaScript prints a number, without padding. */
  function RenderDate(d: Calendar.Date): string
    requires Calendar.IsValid(d)
  {
    IntToString(d.year) + "-" + PadStart2(NatToString(d.month)) + "-" + PadStart2(NatToString(d.day))
  }

  /** `parseInt` of the three captures, then `new Date(year, month - 1, day)`. */
  function DateFromCaptures(year: string, month: string, day: string): (d: Calendar.Date)
    requires AllDigits(year) && AllDigits(month) && AllDigits(day)
    ensures Calendar.IsValid(d)
  {
    DateOfNumbers(DecimalValue(year), DecimalValue(month), DecimalValue(day))
  }

  /** `new Date(year, month - 1, day)` for the numbers the captures spell. */
  function DateOfNumbers(year: nat, month: nat, day: nat): (d: Calendar.Date)
    ensures Calendar.IsValid(d)
  {
    Calendar.LocalDate(year, month - 1, day)
  }

  /** The date the first matching shape denotes. */
  function MatchedDate(s: string): (d: Calendar.Date)
    requires MatchesSomeFormat(s)
    ensures Calendar.IsValid(d)
  {
    if MatchesYearFirst(s) then DateFromCaptures(s[..4], s[5..7], s[8..])
    else DateFromCaptures(s[6..], s[3..5], s[..2])
  }

  /** Canonical `YYYY-MM-DD` for the first of the three shapes the input
      matches; any other input comes back unchanged. Out-of-range month and
      day numbers roll over the way the `Date` constructor rolls them. */
  function TransformDate(s: string): (r: string)
    ensures !MatchesSomeFormat(s) ==> r == s
    ensures MatchesSomeFormat(s) ==> r == RenderDate(MatchedDate(s))
  {
    if MatchesSomeFormat(s) then RenderDate(MatchedDate(s)) else s
  }

  /** The three spellings of a date with a four-digit year. */
  function YearFirstSpelling(d: Calendar.Date): string
    requires Calendar.IsValid(d) && 0 <= d.year
  {
    FixedDigits(d.year, 4) + "-" + FixedDigits(d.month, 2) + "-" + FixedDigits(d.day, 2)
  }

  function DayFirstSpelling(d: Calendar.Date, sep: char): string
    requires Calendar.IsValid(d) && 0 <= d.year
  {
    FixedDigits(d.day, 2) + [sep] + FixedDigits(d.month, 2) + [sep] + FixedDigits(d.year, 4)
  }

  /** A valid date with a four-digit year is rendered in its canonical spelling. */
  lemma RenderFourDigitYear(d: Calendar.Date)
    requires Calendar.IsValid(d) && 1000 <= d.year <= 9999
    ensures RenderDate(d) == YearFirstSpelling(d)
  {
    NatToStringFixed(d.year, 4);
    TwoDigits(d.month);
    TwoDigits(d.day);
  }

  /** Reading the captures of a spelling gives back the date's numbers. */
  lemma CapturesOfSpelling(d: Calendar.Date)
    requires Calendar.IsValid(d) && 1000 <= d.year <= 9999
    ensures DateFromCaptures(FixedDigits(d.year, 4), FixedDigits(d.month, 2), FixedDigits(d.day, 2)) == d
  {
    var y, m, dd := FixedDigits(d.year, 4), FixedDigits(d.month, 2), FixedDigits(d.day, 2);
    SpelledNumbers(d.year, d.month, d.day);
    calc {
      DateFromCaptures(y, m, dd);
    == { CapturesDenote(y, m, dd, d.year, d.month, d.day); }
      DateOfNumbers(d.year, d.month, d.day);
      Calendar.LocalDate(d.year, d.month - 1, d.day);
    == { Calendar.LocalDateOfValid(d); }
      d;
    }
  }

  /** The canonical spelling of a date with a four-digit year is a fixed point. */
  lemma YearFirstSpellingFixed(d: Calendar.Date)
    requires Calendar.IsValid(d) && 1000 <= d.year <= 9999
    ensures TransformDate(YearFirstSpelling(d)) == YearFirstSpelling(d)
  {
    var iso := YearFirstSpelling(d);
    calc {
      TransformDate(iso);
    == { YearFirstMatched(d); }
      RenderDate(DateFromCaptures(FixedDigits(d.year, 4), FixedDigits(d.month, 2), FixedDigits(d.day, 2)));
    == { CapturesOfSpelling(d); }
      RenderDate(d);
    == { RenderFourDigitYear(d); }
      iso;
    }
  }

  /** A year-first spelling matches the first pattern and is read from its
      own parts. */
  lemma YearFirstMatched(d: Calendar.Date)
    requires Calendar.IsValid(d) && 0 <= d.year <= 9999
    ensures MatchesYearFirst(YearFirstSpelling(d))
    ensures MatchedDate(YearFirstSpelling(d))
            == DateFromCaptures(FixedDigits(d.year, 4), FixedDigits(d.month, 2), FixedDigits(d.day, 2))
    ensures TransformDate(YearFirstSpelling(d))
            == RenderDate(DateFromCaptures(FixedDigits(d.year, 4), FixedDigits(d.month, 2), FixedDigits(d.day, 2)))
  {
    var y, m, dd := FixedDigits(d.year, 4), FixedDigits(d.month, 2), FixedDigits(d.day, 2);
    var iso := YearFirstSpelling(d);
    assert iso[..4] == y && iso[5..7] == m && iso[8..] == dd;
    assert MatchesYearFirst(iso);
  }

  /** A day-first spelling matches its pattern, not the year-first one, and
      is read from its own parts. */
  lemma DayFirstMatched(d: Calendar.Date, sep: char)
    requires Calendar.IsValid(d) && 0 <= d.year <= 9999
    requires sep == '-' || sep == '/'
    ensures TransformDate(DayFirstSpelling(d, sep))
            == RenderDate(DateFromCaptures(FixedDigits(d.year, 4), FixedDigits(d.month, 2), FixedDigits(d.day, 2)))
  {
    var y, m, dd := FixedDigits(d.year, 4), FixedDigits(d.month, 2), FixedDigits(d.day, 2);
    var s := DayFirstSpelling(d, sep);
    assert s[..2] == dd && s[3..5] == m && s[6..] == y;
    assert !MatchesYearFirst(s) by { assert !IsDigit(s[..4][2]); }
    assert MatchesDayFirst(s, sep);
  }

  /** A day-first spelling of a date with a four-digit year normalises to the
      canonical spelling. */
  lemma DayFirstSpellingNormalised(d: Calendar.Date, sep: char)
    requires Calendar.IsValid(d) && 1000 <= d.year <= 9999
    requires sep == '-' || sep == '/'
    ensures TransformDate(DayFirstSpelling(d, sep)) == YearFirstSpelling(d)
  {
    calc {
      TransformDate(DayFirstSpelling(d, sep));
    == { DayFirstMatched(d, sep); }
      RenderDate(DateFromCaptures(FixedDigits(d.year, 4), FixedDigits(d.month, 2), FixedDigits(d.day, 2)));
    == { CapturesOfSpelling(d); }
      RenderDate(d);
    == { RenderFourDigitYear(d); }
      YearFirstSpelling(d);
    }
  }

  /** All three spellings of a real calendar date with a four-digit year
      normalise to the same canonical string, which is a fixed point. */
  lemma SpellingsAgree(d: Calendar.Date)
    requires Calendar.IsValid(d) && 1000 <= d.year <= 9999
    ensures TransformDate(YearFirstSpelling(d)) == YearFirstSpelling(d)
    ensures TransformDate(DayFirstSpelling(d, '-')) == YearFirstSpelling(d)
    ensures TransformDate(DayFirstSpelling(d, '/')) == YearFirstSpelling(d)
  {
    YearFirstSpellingFixed(d);
    DayFirstSpellingNormalised(d, '-');
    DayFirstSpellingNormalised(d, '/');
  }

  /** A rendered date normalises to itself: with a four-digit year it is a
      canonical date again, and with any other year its length is not ten so
      no shape matches. */
  lemma RenderedDateIsFixed(d: Calendar.Date)
    requires Calendar.IsValid(d)
    ensures TransformDate(RenderDate(d)) == RenderDate(d)
  {
    var ys := IntToString(d.year);
    var r := RenderDate(d);
    TwoDigits(d.month);
    TwoDigits(d.day);
    if 1000 <= d.year <= 9999 {
      YearFirstSpellingFixed(d);
      RenderFourDigitYear(d);
    } else if |ys| == 4 {
      // a four-character year outside 1000..9999 is negative: no shape can match
      if d.year >= 0 {
        NatToStringMagnitude(d.year);
      }
      assert d.year < 0;
      assert r[..4] == ys && r[0] == '-';
      assert !IsDigit(r[..4][0]);
      assert r[2] == ys[2] && IsDigit(ys[2]) by {
        assert ys == "-" + NatToString(-d.year);
        assert ys[2] == NatToString(-d.year)[1];
      }
    } else {
      assert |r| == |ys| + 6;
    }
  }

  /** What normalising means: text of none of the three shapes is kept, and
      text of some shape whose date has a four-digit year becomes the
      year-first spelling of that same date. */
  lemma TransformDateCanonical(s: string)
    ensures !MatchesSomeFormat(s) ==> TransformDate(s) == s
    ensures MatchesSomeFormat(s) && 1000 <= MatchedDate(s).year <= 9999 ==>
              var r := TransformDate(s);
              MatchesYearFirst(r) && MatchedDate(r) == MatchedDate(s) && r == YearFirstSpelling(MatchedDate(s))
  {
    if MatchesSomeFormat(s) && 1000 <= MatchedDate(s).year <= 9999 {
      var d := MatchedDate(s);
      RenderFourDigitYear(d);
      YearFirstMatched(d);
      CapturesOfSpelling(d);
    }
  }

  /** Normalising twice is normalising once, for every string. */
  lemma TransformDateIdempotent(s: string)
    ensures TransformDate(TransformDate(s)) == TransformDate(s)
  {
    if MatchesSomeFormat(s) {
      RenderedDateIsFixed(MatchedDate(s));
    }
  }

  /** A day-first input denotes the date its captures construct. */
  lemma DayFirstDenotes(s: string, sep: char, year: nat, month: nat, day: nat)
    requires sep == '-' || sep == '/'
    requires MatchesDayFirst(s, sep)
    requires DecimalValue(s[6..]) == year && DecimalValue(s[3..5]) == month && DecimalValue(s[..2]) == day
    ensures TransformDate(s) == RenderDate(Calendar.LocalDate(year, month - 1, day))
  {
    assert !MatchesYearFirst(s) by {
      assert !IsDigit(s[..4][2]);
    }
    assert MatchesSomeFormat(s);
    calc {
      TransformDate(s);
      RenderDate(MatchedDate(s));
    == { assert MatchedDate(s) == DateFromCaptures(s[6..], s[3..5], s[..2]); }
      RenderDate(DateFromCaptures(s[6..], s[3..5], s[..2]));
    == { CapturesDenote(s[6..], s[3..5], s[..2], year, month, day); }
      RenderDate(DateOfNumbers(year, month, day));
      RenderDate(Calendar.LocalDate(year, month - 1, day));
    }
  }

  /** The captures construct the date of the numbers they spell. */
  lemma CapturesDenote(ys: string, ms: string, ds: string, year: nat, month: nat, day: nat)
    requires AllDigits(ys) && AllDigits(ms) && AllDigits(ds)
    requires DecimalValue(ys) == year && DecimalValue(ms) == month && DecimalValue(ds) == day
    ensures DateFromCaptures(ys, ms, ds) == DateOfNumbers(year, month, day)
  {
  }

  /** The fixed-width spellings of a year, a month and a day read back as
      the numbers. */
  lemma SpelledNumbers(year: nat, month: nat, day: nat)
    requires year < 10000 && month < 100 && day < 100
    ensures DecimalValue(FixedDigits(year, 4)) == year
    ensures DecimalValue(FixedDigits(month, 2)) == month
    ensures DecimalValue(FixedDigits(day, 2)) == day
  {
    assert Pow10(4) == 10000 && Pow10(2) == 100;
    FixedDigitsValue(year, 4);
    FixedDigitsValue(month, 2);
    FixedDigitsValue(day, 2);
  }

  /** A year-first input denotes the date its captures construct. */
  lemma YearFirstDenotes(s: string, year: nat, month: nat, day: nat)
    requires MatchesYearFirst(s)
    requires DecimalValue(s[..4]) == year && DecimalValue(s[5..7]) == month && DecimalValue(s[8..]) == day
    ensures TransformDate(s) == RenderDate(Calendar.LocalDate(year, month - 1, day))
  {
    assert MatchesSomeFormat(s);
    calc {
      TransformDate(s);
      RenderDate(MatchedDate(s));
    == { assert MatchedDate(s) == DateFromCaptures(s[..4], s[5..7], s[8..]); }
      RenderDate(DateFromCaptures(s[..4], s[5..7], s[8..]));
    == { CapturesDenote(s[..4], s[5..7], s[8..], year, month, day); }
      RenderDate(DateOfNumbers(year, month, day));
      RenderDate(Calendar.LocalDate(year, month - 1, day));
    }
  }

  /** Month 13 and day 32 are not rejected: `32-13-Y` rolls over into the
      next year and the next month, 1 February of `Y + 1`, as the `Date`
      constructor does. */
  lemma RolloverExample(y: nat)
    requires 1000 <= y <= 9998
    ensures TransformDate("32-13-" + FixedDigits(y, 4)) == YearFirstSpelling(Calendar.Date(y + 1, 2, 1))
  {
    var t := FixedDigits(y, 4);
    var s := "32-13-" + t;
    var d := Calendar.Date(y + 1, 2, 1);
    assert s[..2] == "32" && s[3..5] == "13" && s[6..] == t;
    assert DecimalValue("32") == 32 && DecimalValue("13") == 13 by {
      PairValue("32");
      PairValue("13");
    }
    assert DecimalValue(t) == y by {
      assert Pow10(4) == 10000;
      FixedDigitsValue(y, 4);
    }
    calc {
      TransformDate(s);
    == { DayFirstDenotes(s, '-', y, 13, 32); }
      RenderDate(Calendar.LocalDate(y, 12, 32));
    == { MonthThirteenDayThirtyTwo(y); }
      RenderDate(d);
    == { RenderFourDigitYear(d); }
      YearFirstSpelling(d);
    }
  }

  /** The value of two digits. */
  lemma PairValue(s: string)
    requires |s| == 2 && AllDigits(s)
    ensures DecimalValue(s) == 10 * DigitValue(s[0]) + DigitValue(s[1])
  {
    assert s[..1][..0] == [];
    assert DecimalValue(s[..1]) == DigitValue(s[0]);
  }

  /** Day 32 of month index 12 is 1 February of the next year. */
  lemma MonthThirteenDayThirtyTwo(y: int)
    requires 1000 <= y
    ensures Calendar.LocalDate(y, 12, 32) == Calendar.Date(y + 1, 2, 1)
  {
    calc {
      Calendar.LocalDate(y, 12, 32);
    == { assert Calendar.FullYear(y) + 12 / 12 == y + 1 && 12 % 12 + 1 == 1; }
      Calendar.NormaliseDay(y + 1, 1, 32);
    == { assert Calendar.DaysInMonth(y + 1, 1) == 31; }
      Calendar.NormaliseDay(y + 1, 2, 1);
    == { assert Calendar.DaysInMonth(y + 1, 2) >= 28; }
      Calendar.Date(y + 1, 2, 1);
    }
  }

  /** Reading the captures of a spelling with a year in 0000..0099 gives the
      same date in 1900..1999. */
  lemma CapturesOfTwoDigitYear(d: Calendar.Date)
    requires Calendar.IsValid(d) && 0 <= d.year <= 99
    requires Calendar.IsValid(Calendar.Date(1900 + d.year, d.month, d.day))
    ensures DateFromCaptures(FixedDigits(d.year, 4), FixedDigits(d.month, 2), FixedDigits(d.day, 2))
            == Calendar.Date(1900 + d.year, d.month, d.day)
  {
    var y, m, dd := FixedDigits(d.year, 4), FixedDigits(d.month, 2), FixedDigits(d.day, 2);
    SpelledNumbers(d.year, d.month, d.day);
    calc {
      DateFromCaptures(y, m, dd);
    == { CapturesDenote(y, m, dd, d.year, d.month, d.day); }
      DateOfNumbers(d.year, d.month, d.day);
    == { TwoDigitYearNumbers(d); }
      Calendar.Date(1900 + d.year, d.month, d.day);
    }
  }

  /** The constructor reads a year 0..99 as 1900..1999. */
  lemma TwoDigitYearNumbers(d: Calendar.Date)
    requires Calendar.IsValid(d) && 0 <= d.year <= 99
    requires Calendar.IsValid(Calendar.Date(1900 + d.year, d.month, d.day))
    ensures DateOfNumbers(d.year, d.month, d.day) == Calendar.Date(1900 + d.year, d.month, d.day)
  {
    Calendar.LocalDateTwoDigitYear(d.year, d.month, d.day);
  }

  /** Years 0000..0099 are read as 1900..1999. */
  lemma TwoDigitYearExample(d: Calendar.Date)
    requires Calendar.IsValid(d) && 0 <= d.year <= 99
    requires Calendar.IsValid(Calendar.Date(1900 + d.year, d.month, d.day))
    ensures TransformDate(YearFirstSpelling(d)) == YearFirstSpelling(Calendar.Date(1900 + d.year, d.month, d.day))
  {
    var d' := Calendar.Date(1900 + d.year, d.month, d.day);
    calc {
      TransformDate(YearFirstSpelling(d));
    == { YearFirstMatched(d); }
      RenderDate(DateFromCaptures(FixedDigits(d.year, 4), FixedDigits(d.month, 2), FixedDigits(d.day, 2)));
    == { CapturesOfTwoDigitYear(d); }
      RenderDate(d');
    == { RenderFourDigitYear(d'); }
      YearFirstSpelling(d');
    }
  }

  // ---------------------------------------------------------------------------
  // Dialect detection
  // ---------------------------------------------------------------------------

  /** The two CSV layouts the importer understands: English column names, or
      the Portuguese bank export whose debit column is headed `Débito`. */
  datatype Dialect = Regular | Special

  const SpecialMarker: string := "D\U{00E9}bito"

  /** `content.includes('Débito')`, case-sensitive. */
  function CheckIfSpecialCsv(content: string): (r: Dialect)
    ensures r == Special <==> exists i :: OccursAt(content, SpecialMarker, i)
  {
    IncludesIff(content, SpecialMarker);
    if Includes(content, SpecialMarker) then Special else Regular
  }

  // ---------------------------------------------------------------------------
  // Reshaping the bank export
  // ---------------------------------------------------------------------------

  /** `key.trim().toLowerCase()`, used for header cells and row keys alike. */
  function NormaliseKey(key: string): (r: string)
    ensures |r| <= |key|
    ensures r == [] <==> AllWhitespace(key)
    ensures r == [] || (!IsWhitespace(r[0]) && !IsWhitespace(r[|r| - 1]))
    ensures forall i :: 0 <= i < |r| ==> !('A' <= r[i] <= 'Z')
  {
    var t := Trim(key);
    TrimEmptyIff(key);
    TrimShape(key);
    LowerEnds(t);
    ToLower(t)
  }

  /** Lower-casing keeps a string's ends free of whitespace. */
  lemma LowerEnds(t: string)
    requires t == [] || (!IsWhitespace(t[0]) && !IsWhitespace(t[|t| - 1]))
    ensures var l := ToLower(t);
            l == [] || (!IsWhitespace(l[0]) && !IsWhitespace(l[|l| - 1]))
  {
    if |t| > 0 {
      ToLowerCharWhitespace(t[0]);
      ToLowerCharWhitespace(t[|t| - 1]);
    }
  }

  /** A normalised key has no whitespace at either end and no upper-case
      letter, and normalising it again changes nothing. */
  lemma NormaliseKeyIdempotent(key: string)
    ensures NormaliseKey(NormaliseKey(key)) == NormaliseKey(key)
  {
    var t := Trim(key);
    var l := ToLower(t);
    TrimShape(key);
    if |l| > 0 {
      ToLowerCharWhitespace(t[0]);
      ToLowerCharWhitespace(t[|t| - 1]);
    }
    TrimNoOp(l);
    ToLowerIdempotent(l);
  }

  /** Normalising a key introduces no character that was not there, other
      than lower-case forms of letters: in particular no separator. */
  lemma NormaliseKeyKeepsOut(key: string, c: char)
    requires c !in key
    requires c == ';' || c == '\n'
    ensures c !in NormaliseKey(key)
  {
    var t := Trim(key);
    TrimShape(key);
    var l := ToLower(t);
    forall i | 0 <= i < |l|
      ensures l[i] != c
    {
      assert t[i] in key;
    }
  }

  /** Every header cell, normalised. */
  function NormaliseCells(cells: seq<string>): (r: seq<string>)
    ensures |r| == |cells|
    ensures forall i :: 0 <= i < |cells| ==> r[i] == NormaliseKey(cells[i])
  {
    seq(|cells|, i requires 0 <= i < |cells| => NormaliseKey(cells[i]))
  }

  /** `line.split(';').map(h => h.trim().toLowerCase()).join(';')`. */
  function NormaliseHeader(line: string): (r: string)
    ensures Split(r, ';') == NormaliseCells(Split(line, ';'))
    ensures '\n' in r ==> '\n' in line
  {
    var cells := Split(line, ';');
    var normalised := NormaliseCells(cells);
    JoinNoNewline(normalised, line);
    CellsKeepOutSeparator(cells);
    SplitJoin(normalised, ';');
    Join(normalised, ";")
  }

  /** No normalised cell of a split line holds the separator. */
  lemma CellsKeepOutSeparator(cells: seq<string>)
    requires forall i :: 0 <= i < |cells| ==> ';' !in cells[i]
    ensures forall i :: 0 <= i < |cells| ==> ';' !in NormaliseCells(cells)[i]
  {
    forall i | 0 <= i < |cells|
      ensures ';' !in NormaliseCells(cells)[i]
    {
      NormaliseKeyKeepsOut(cells[i], ';');
    }
  }

  /** Helper for `NormaliseHeader`: joining normalised cells of a line with
      no LF gives a string with no LF. */
  lemma JoinNoNewline(normalised: seq<string>, line: string)
    requires normalised == NormaliseCells(Split(line, ';'))
    ensures '\n' !in line ==> '\n' !in Join(normalised, ";")
  {
    if '\n' !in line {
      var cells := Split(line, ';');
      JoinSplit(line, ';');
      forall i | 0 <= i < |cells|
        ensures '\n' !in normalised[i]
      {
        PartOfSplit(line, ';', i, '\n');
        NormaliseKeyKeepsOut(cells[i], '\n');
      }
      JoinKeepsOut(normalised, ";", '\n');
    }
  }

  /** A character absent from a string is absent from every part of its split. */
  lemma {:induction false} PartOfSplit(s: string, sep: char, i: int, c: char)
    requires 0 <= i < |Split(s, sep)|
    requires c !in s
    ensures c !in Split(s, sep)[i]
    decreases |s|
  {
    if |s| > 0 {
      var rest := Split(s[1..], sep);
      if s[0] == sep {
        if i > 0 {
          PartOfSplit(s[1..], sep, i - 1, c);
        }
      } else if i == 0 {
        PartOfSplit(s[1..], sep, 0, c);
        assert c !in [s[0]];
      } else {
        PartOfSplit(s[1..], sep, i, c);
      }
    }
  }

  /** A character absent from every part and from the separator is absent
      from the join. */
  lemma {:induction false} JoinKeepsOut(parts: seq<string>, sep: string, c: char)
    requires forall i :: 0 <= i < |parts| ==> c !in parts[i]
    requires c !in sep
    ensures c !in Join(parts, sep)
    decreases |parts|
  {
    if |parts| > 1 {
      JoinKeepsOut(parts[1..], sep, c);
    }
  }

  /** `lines.filter(line => line.trim().length)`: the lines that are not blank,
      in their original order. */
  function NonBlank(lines: seq<string>): (r: seq<string>)
    ensures |r| <= |lines|
    ensures forall i :: 0 <= i < |r| ==> !AllWhitespace(r[i])
    decreases |lines|
  {
    if |lines| == 0 then []
    else
      TrimEmptyIff(lines[0]);
      (if Trim(lines[0]) != [] then [lines[0]] else []) + NonBlank(lines[1..])
  }

  /** The filter keeps exactly the non-blank lines. */
  lemma {:induction false} NonBlankMembers(lines: seq<string>, x: string)
    ensures x in NonBlank(lines) <==> x in lines && !AllWhitespace(x)
    decreases |lines|
  {
    if |lines| > 0 {
      NonBlankMembers(lines[1..], x);
      TrimEmptyIff(lines[0]);
      assert lines == [lines[0]] + lines[1..];
    }
  }

  /** The filter works line by line, so it distributes over concatenation:
      the order of the kept lines is the original order. */
  lemma {:induction false} NonBlankAppend(a: seq<string>, b: seq<string>)
    ensures NonBlank(a + b) == NonBlank(a) + NonBlank(b)
    decreases |a|
  {
    if |a| == 0 {
      assert a + b == b;
    } else {
      var head := if Trim(a[0]) != [] then [a[0]] else [];
      calc {
        NonBlank(a + b);
      == { assert (a + b)[0] == a[0] && (a + b)[1..] == a[1..] + b; }
        head + NonBlank(a[1..] + b);
      == { NonBlankAppend(a[1..], b); }
        head + (NonBlank(a[1..]) + NonBlank(b));
      == { SeqAssociative(head, NonBlank(a[1..]), NonBlank(b)); }
        (head + NonBlank(a[1..])) + NonBlank(b);
        NonBlank(a) + NonBlank(b);
      }
    }
  }

  lemma SeqAssociative<T>(x: seq<T>, y: seq<T>, z: seq<T>)
    ensures x + (y + z) == (x + y) + z
  {
  }

  /** Why the bank export could not be reshaped or a row could not be read:
      the source throws a `TypeError` in both cases. */
  datatype ImportError =
    | NoHeaderLine   // fewer than two non-blank lines: `allLines[0]` is undefined
    | MissingDate    // a kept row without the date column: `undefined.match`

  /** The non-blank lines of the text without the last one, which in the bank
      export is a footer. */
  function BodyLines(content: string): (r: seq<string>)
    ensures forall i :: 0 <= i < |r| ==> '\n' !in r[i]
  {
    var kept := NonBlank(SplitLines(content));
    assert forall i :: 0 <= i < |kept| ==> kept[i] in SplitLines(content) by {
      forall i | 0 <= i < |kept| ensures kept[i] in SplitLines(content) {
        NonBlankMembers(SplitLines(content), kept[i]);
      }
    }
    if |kept| == 0 then [] else kept[..|kept| - 1]
  }

  /** The regular dialect goes to the parser unchanged. The bank export keeps
      its non-blank lines except the last; its first remaining line is the
      header, whose `;`-separated cells are trimmed and lower-cased, and the
      other lines follow it unchanged. Without a header line it fails. */
  function PrepareDataForParsing(content: string, dialect: Dialect): (r: Result<string, ImportError>)
    ensures dialect == Regular ==> r == Success(content)
    ensures dialect == Special ==> (r.Failure? <==> |BodyLines(content)| == 0)
    ensures r.Failure? ==> r.error == NoHeaderLine
    ensures dialect == Special && r.Success? ==>
              var lines := BodyLines(content);
              Split(r.value, '\n')
              == [NormaliseHeader(lines[0])] + (if |lines| == 1 then [""] else lines[1..])
  {
    if dialect == Regular then Success(content)
    else
      var lines := BodyLines(content);
      if |lines| == 0 then Failure(NoHeaderLine)
      else
        var header := NormaliseHeader(lines[0]);
        var data := Join(lines[1..], "\n");
        PreparedLines(header, lines[1..]);
        Success(header + "\n" + data)
  }

  /** Helper for `PrepareDataForParsing`: the header line and the data lines
      come back out of the LF split one for one. */
  lemma PreparedLines(header: string, data: seq<string>)
    requires '\n' !in header
    requires forall i :: 0 <= i < |data| ==> '\n' !in data[i]
    ensures Split(header + "\n" + Join(data, "\n"), '\n') == [header] + (if |data| == 0 then [""] else data)
  {
    var parts := [header] + (if |data| == 0 then [""] else data);
    assert Join(parts, "\n") == header + "\n" + Join(data, "\n") by {
      if |data| == 0 {
        assert parts == [header, ""];
      } else {
        assert parts[1..] == data;
      }
    }
    SplitJoin(parts, '\n');
  }

  /** The bank export needs more than one non-blank line: a lone header is
      taken for the footer and dropped. */
  lemma PrepareNeedsTwoLines(content: string)
    ensures PrepareDataForParsing(content, Special).Failure?
            <==> |NonBlank(SplitLines(content))| < 2
  {
  }

  // ---------------------------------------------------------------------------
  // Rows
  // ---------------------------------------------------------------------------

  /** One parsed CSV row as `Object.entries` lists it: (column, cell) pairs. */
  type Entries = seq<(string, string)>

  /** The value `Object.fromEntries(entries)[key]` reads: the cell of the last
      entry with that key, or `undefined` (`None`) when there is none. */
  function Lookup(entries: Entries, key: string): (r: Option<string>)
    ensures r.None? <==> forall i :: 0 <= i < |entries| ==> entries[i].0 != key
    ensures r.Some? ==> exists i :: 0 <= i < |entries| && entries[i] == (key, r.value)
                                    && forall j :: i < j < |entries| ==> entries[j].0 != key
    decreases |entries|
  {
    if |entries| == 0 then None
    else
      var last := entries[|entries| - 1];
      if last.0 == key then Some(last.1)
      else
        var r := Lookup(entries[..|entries| - 1], key);
        r
  }

  /** `formatRowKeys`: every key trimmed and lower-cased, the cells untouched,
      the order kept. */
  function FormatRowKeys(row: Entries): (r: Entries)
    ensures |r| == |row|
    ensures forall i :: 0 <= i < |row| ==> r[i] == (NormaliseKey(row[i].0), row[i].1)
  {
    seq(|row|, i requires 0 <= i < |row| => (NormaliseKey(row[i].0), row[i].1))
  }

  /** Formatting keys twice is formatting them once. */
  lemma FormatRowKeysIdempotent(row: Entries)
    ensures FormatRowKeys(FormatRowKeys(row)) == FormatRowKeys(row)
  {
    forall i | 0 <= i < |row|
      ensures NormaliseKey(NormaliseKey(row[i].0)) == NormaliseKey(row[i].0)
    {
      NormaliseKeyIdempotent(row[i].0);
    }
  }

  /** After formatting, a column is found under its normalised name, with the
      cell of the last column that normalises to it: `' Amount '` and
      `'amount'` collide and the later one wins. */
  lemma FormatRowKeysLookup(row: Entries, i: int)
    requires 0 <= i < |row|
    requires forall j :: i < j < |row| ==> NormaliseKey(row[j].0) != NormaliseKey(row[i].0)
    ensures Lookup(FormatRowKeys(row), NormaliseKey(row[i].0)) == Some(row[i].1)
  {
    var f := FormatRowKeys(row);
    var k := NormaliseKey(row[i].0);
    assert f[i] == (k, row[i].1);
    forall j | i < j < |f| ensures f[j].0 != k {
      assert f[j].0 == NormaliseKey(row[j].0);
    }
    LookupLast(f, k, i);
  }

  /** The entry read under a key is the last one with that key. */
  lemma LookupLast(entries: Entries, key: string, i: int)
    requires 0 <= i < |entries| && entries[i].0 == key
    requires forall j :: i < j < |entries| ==> entries[j].0 != key
    ensures Lookup(entries, key) == Some(entries[i].1)
  {
    var r := Lookup(entries, key);
    assert r.Some?;
    var j :| 0 <= j < |entries| && entries[j] == (key, r.value)
             && forall l :: j < l < |entries| ==> entries[l].0 != key;
    assert !(j < i);
    assert !(i < j);
  }

  /** The imported record: amount and date canonical, category and
      description copied verbatim, `None` where the column is missing. */
  datatype ImportedExpense = ImportedExpense(
    amount: string,
    category: Option<string>,
    description: Option<string>,
    date: string)

  /** The lower-case column names each dialect reads. */
  datatype Columns = Columns(amount: string, category: string, description: string, date: string)

  function ColumnsOf(dialect: Dialect): Columns {
    match dialect
    case Regular => Columns("amount", "category", "description", "date")
    case Special => Columns("d\U{00E9}bito", "categoria", "descri\U{00E7}\U{00E3}o", "data valor")
  }

  /** `parseRegularCsvRow` and `parseSpecialCsvRow` on an already formatted
      row: `None` (the source's `null`) when the amount cell is missing or
      blank, otherwise the record; a kept row without a date column makes the
      date transform throw. */
  function ParseRow(row: Entries, dialect: Dialect): (r: Result<Option<ImportedExpense>, ImportError>)
    ensures var amount := Lookup(row, ColumnsOf(dialect).amount);
            r == Success(None) <==> amount.None? || AllWhitespace(amount.value)
    ensures var amount := Lookup(row, ColumnsOf(dialect).amount);
            r.Failure? <==> amount.Some? && !AllWhitespace(amount.value)
                            && Lookup(row, ColumnsOf(dialect).date).None?
    ensures r.Failure? ==> r.error == MissingDate
    ensures r.Success? && r.value.Some? ==>
              var cols := ColumnsOf(dialect);
              && Lookup(row, cols.amount).Some?
              && r.value.value.amount == TransformAmountFormat(Lookup(row, cols.amount).value)
              && r.value.value.category == Lookup(row, cols.category)
              && r.value.value.description == Lookup(row, cols.description)
              && Lookup(row, cols.date).Some?
              && r.value.value.date == TransformDate(Lookup(row, cols.date).value)
    ensures r.Success? && r.value.Some? ==> IsNormalised(r.value.value)
  {
    var cols := ColumnsOf(dialect);
    var amount := Lookup(row, cols.amount);
    if amount.None? then Success(None)
    else
      TrimEmptyIff(amount.value);
      if Trim(amount.value) == [] then Success(None)
      else
        match Lookup(row, cols.date)
        case None => Failure(MissingDate)
        case Some(date) =>
          TransformDateIdempotent(date);
          Success(Some(ImportedExpense(
            TransformAmountFormat(amount.value),
            Lookup(row, cols.category),
            Lookup(row, cols.description),
            TransformDate(date))))
  }

  /** What the import promises of every record it keeps: an amount without
      a decimal comma and a date the date canonicaliser leaves as it is. */
  predicate IsNormalised(x: ImportedExpense) {
    ',' !in x.amount && TransformDate(x.date) == x.date
  }

  /** What one raw row contributes: nothing, one record, or the error. */
  function RowResult(row: Entries, dialect: Dialect): Result<seq<ImportedExpense>, ImportError> {
    match ParseRow(FormatRowKeys(row), dialect)
    case Failure(e) => Failure(e)
    case Success(None) => Success([])
    case Success(Some(item)) => Success([item])
  }

  /** Two consecutive stretches of the import: the first error wins,
      otherwise the records are concatenated. */
  function Combine(first: Result<seq<ImportedExpense>, ImportError>, rest: Result<seq<ImportedExpense>, ImportError>)
    : (r: Result<seq<ImportedExpense>, ImportError>)
    ensures r.Success? <==> first.Success? && rest.Success?
    ensures r.Success? ==> r.value == first.value + rest.value
  {
    if first.Failure? then first
    else if rest.Failure? then rest
    else Success(first.value + rest.value)
  }

  lemma CombineAssociative(x: Result<seq<ImportedExpense>, ImportError>,
                           y: Result<seq<ImportedExpense>, ImportError>,
                           z: Result<seq<ImportedExpense>, ImportError>)
    ensures Combine(x, Combine(y, z)) == Combine(Combine(x, y), z)
  {
    if x.Success? && y.Success? && z.Success? {
      assert x.value + (y.value + z.value) == (x.value + y.value) + z.value;
    }
  }

  /** `processCsvResults`: format every row's keys, parse it in the file's
      dialect and keep the records in row order, dropping skipped rows; any
      row that throws makes the whole import throw. */
  function ProcessCsvResults(rows: seq<Entries>, dialect: Dialect): (r: Result<seq<ImportedExpense>, ImportError>)
    ensures r.Failure? <==> SomeRowFails(rows, dialect)
    ensures r.Success? ==> |r.value| <= |rows|
    ensures r.Success? ==> forall i :: 0 <= i < |r.value| ==> IsNormalised(r.value[i])
    decreases |rows|
  {
    if |rows| == 0 then Success([])
    else
      var first := RowResult(rows[0], dialect);
      var rest := ProcessCsvResults(rows[1..], dialect);
      RowResultNormalised(rows[0], dialect);
      CombineNormalised(first, rest);
      Combine(first, rest)
  }

  /** Every record a single row contributes is normalised. */
  lemma RowResultNormalised(row: Entries, dialect: Dialect)
    ensures var r := RowResult(row, dialect);
            r.Success? ==> |r.value| <= 1 && forall i :: 0 <= i < |r.value| ==> IsNormalised(r.value[i])
  {
  }

  /** Joining two stretches of normalised records gives normalised records. */
  lemma CombineNormalised(first: Result<seq<ImportedExpense>, ImportError>, rest: Result<seq<ImportedExpense>, ImportError>)
    requires first.Success? ==> forall i :: 0 <= i < |first.value| ==> IsNormalised(first.value[i])
    requires rest.Success? ==> forall i :: 0 <= i < |rest.value| ==> IsNormalised(rest.value[i])
    ensures var r := Combine(first, rest);
            r.Success? ==> forall i :: 0 <= i < |r.value| ==> IsNormalised(r.value[i])
  {
    var r := Combine(first, rest);
    if r.Success? {
      forall i | 0 <= i < |r.value| ensures IsNormalised(r.value[i]) {
        if i >= |first.value| {
          assert r.value[i] == rest.value[i - |first.value|];
        }
      }
    }
  }

  /** Some row, read on its own, throws. */
  predicate SomeRowFails(rows: seq<Entries>, dialect: Dialect)
    decreases |rows|
  {
    |rows| > 0 && (RowResult(rows[0], dialect).Failure? || SomeRowFails(rows[1..], dialect))
  }

  /** The import fails exactly when there is a row whose own parse throws. */
  lemma {:induction false} ProcessCsvResultsFails(rows: seq<Entries>, dialect: Dialect)
    ensures ProcessCsvResults(rows, dialect).Failure?
            <==> exists i :: 0 <= i < |rows| && RowResult(rows[i], dialect).Failure?
    decreases |rows|
  {
    if |rows| > 0 {
      var tail := rows[1..];
      ProcessCsvResultsFails(tail, dialect);
      FailingRowShift(rows, dialect);
    }
  }

  lemma FailingRowShift(rows: seq<Entries>, dialect: Dialect)
    requires |rows| > 0
    ensures (exists i :: 0 <= i < |rows| && RowResult(rows[i], dialect).Failure?)
            <==> RowResult(rows[0], dialect).Failure?
                 || exists j :: 0 <= j < |rows[1..]| && RowResult(rows[1..][j], dialect).Failure?
  {
    ExistsShift(rows, row => RowResult(row, dialect).Failure?);
  }

  /** Some element satisfies `p` exactly when the first does or some element
      of the rest does. */
  lemma ExistsShift<T>(xs: seq<T>, p: T -> bool)
    requires |xs| > 0
    ensures (exists i :: 0 <= i < |xs| && p(xs[i]))
            <==> p(xs[0]) || exists j :: 0 <= j < |xs[1..]| && p(xs[1..][j])
  {
    var tail := xs[1..];
    if i :| 0 <= i < |xs| && p(xs[i]) {
      if i > 0 {
        assert tail[i - 1] == xs[i];
      }
    }
    if j :| 0 <= j < |tail| && p(tail[j]) {
      assert xs[j + 1] == tail[j];
    }
  }

  /** The import is row by row: importing two batches of rows together is
      importing them one after the other. */
  lemma {:induction false} ProcessCsvResultsAppend(a: seq<Entries>, b: seq<Entries>, dialect: Dialect)
    ensures ProcessCsvResults(a + b, dialect)
            == Combine(ProcessCsvResults(a, dialect), ProcessCsvResults(b, dialect))
    decreases |a|
  {
    if |a| == 0 {
      assert a + b == b;
      var rb := ProcessCsvResults(b, dialect);
      if rb.Success? {
        assert [] + rb.value == rb.value;
      }
    } else {
      assert (a + b)[0] == a[0];
      assert (a + b)[1..] == a[1..] + b;
      ProcessCsvResultsAppend(a[1..], b, dialect);
      CombineAssociative(RowResult(a[0], dialect), ProcessCsvResults(a[1..], dialect), ProcessCsvResults(b, dialect));
    }
  }

  /** A row keeps its record exactly when its amount cell is present and not
      blank; its category and description are the row's own cells. */
  lemma ProcessSingleRow(row: Entries, dialect: Dialect)
    requires RowResult(row, dialect).Success?
    ensures var cols := ColumnsOf(dialect);
            var f := FormatRowKeys(row);
            var amount := Lookup(f, cols.amount);
            var items := ProcessCsvResults([row], dialect).value;
            && (|items| == 0 <==> amount.None? || AllWhitespace(amount.value))
            && (|items| == 1 ==> items[0].category == Lookup(f, cols.category)
                                 && items[0].description == Lookup(f, cols.description))
  {
    assert [row][1..] == [];
  }

  /** The whole import of a decoded file: detect the dialect, reshape the
      text, run the tabular parser (a parameter here) and process its rows. */
  function ImportCsv(content: string, parse: string -> seq<Entries>): (r: Result<seq<ImportedExpense>, ImportError>)
    ensures var dialect := CheckIfSpecialCsv(content);
            var prepared := PrepareDataForParsing(content, dialect);
            && (prepared.Failure? ==> r == Failure(NoHeaderLine))
            && (prepared.Success? ==> r == ProcessCsvResults(parse(prepared.value), dialect))
    ensures var dialect := CheckIfSpecialCsv(content);
            var prepared := PrepareDataForParsing(content, dialect);
            r.Failure? <==> prepared.Failure? || SomeRowFails(parse(prepared.value), dialect)
    ensures r.Success? ==> forall i :: 0 <= i < |r.value| ==> IsNormalised(r.value[i])
  {
    var dialect := CheckIfSpecialCsv(content);
    match PrepareDataForParsing(content, dialect)
    case Failure(e) => Failure(e)
    case Success(text) => ProcessCsvResults(parse(text), dialect)
  }
}
