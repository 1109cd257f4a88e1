/**
 * JavaScript's string-to-number conversion (`+s`, `Number(s)`), as far as a
 * caller that only compares the result with zero can see it: whether the
 * text denotes no number at all, or a negative, zero or positive number.
 * The grammar is the StringNumericLiteral grammar of section 7.1.4.1 of
 * ECMA-262: surrounding white space, an optional sign, `Infinity`, a decimal
 * literal with optional fraction and exponent, or an unsigned `0x`, `0o` or
 * `0b` literal. The literal's value is rounded to a double, so a positive
 * value too small for a double becomes zero; a value too large becomes
 * `Infinity` and keeps its sign.
 */
module JsNumber {
  import opened JsString

  /** Where `+s` lies relative to zero; `-0` counts as zero. */
  datatype Sign = NotANumber | Negative | Zero | Positive

  /** The radix a `0x`/`0o`/`0b` prefix letter selects, or 0 for none. */
  function RadixOf(c: char): nat {
    if c == 'x' || c == 'X' then 16
    else if c == 'o' || c == 'O' then 8
    else if c == 'b' || c == 'B' then 2
    else 0
  }

  predicate IsDigitOfRadix(c: char, radix: nat) {
    if radix == 16 then IsDigit(c) || ('a' <= c <= 'f') || ('A' <= c <= 'F')
    else if radix == 8 then '0' <= c <= '7'
    else radix == 2 && (c == '0' || c == '1')
  }

  /** `0x1F`, `0o17`, `0b101` and their capital forms. */
  predicate IsRadixLiteral(t: string) {
    && |t| >= 3 && t[0] == '0' && RadixOf(t[1]) > 0
    && forall i :: 2 <= i < |t| ==> IsDigitOfRadix(t[i], RadixOf(t[1]))
  }

  /** Some character of a numeral's digits is neither `0` nor the point. */
  predicate HasNonZeroDigit(s: string) {
    exists i :: 0 <= i < |s| && s[i] != '0' && s[i] != '.'
  }

  predicate IsExponentMark(c: char) {
    c == 'e' || c == 'E'
  }

  /** Position of the first exponent mark, or the length when there is none. */
  function ExponentStart(u: string): (k: nat)
    ensures k <= |u|
    ensures k < |u| ==> IsExponentMark(u[k])
    ensures forall i :: 0 <= i < k ==> !IsExponentMark(u[i])
    decreases |u|
  {
    if |u| == 0 then 0
    else if IsExponentMark(u[0]) then 0
    else 1 + ExponentStart(u[1..])
  }

  /** Digits with at most one decimal point, and at least one digit:
      `12`, `12.`, `.5`, `12.50`. */
  predicate IsDecimalMantissa(m: string) {
    && (exists i :: 0 <= i < |m| && IsDigit(m[i]))
    && (forall i :: 0 <= i < |m| ==> IsDigit(m[i]) || m[i] == '.')
    && (forall i, j :: 0 <= i < j < |m| && m[i] == '.' ==> m[j] != '.')
  }

  /** What follows the exponent mark: an optional sign and some digits. */
  predicate IsExponentDigits(x: string) {
    if |x| > 0 && (x[0] == '+' || x[0] == '-') then |x| > 1 && AllDigits(x[1..])
    else |x| > 0 && AllDigits(x)
  }

  /** An unsigned decimal literal: a mantissa and an optional exponent. */
  predicate IsUnsignedDecimal(u: string) {
    var k := ExponentStart(u);
    IsDecimalMantissa(u[..k]) && (k == |u| || IsExponentDigits(u[k + 1..]))
  }

  /** `2^n`. */
  function Pow2(n: nat): (p: nat)
    ensures p >= 1
  {
    if n == 0 then 1 else 2 * Pow2(n - 1)
  }

  /** The number of digits after the point of a mantissa. */
  function FractionLength(m: string): (n: nat)
    ensures n <= |m|
    decreases |m|
  {
    if |m| == 0 then 0
    else if m[0] == '.' then |m| - 1
    else FractionLength(m[1..])
  }

  /** The integer a mantissa's digits spell when the point is ignored. */
  function MantissaValue(m: string): nat
    requires forall i :: 0 <= i < |m| ==> IsDigit(m[i]) || m[i] == '.'
    decreases |m|
  {
    if |m| == 0 then 0
    else if m[|m| - 1] == '.' then MantissaValue(m[..|m| - 1])
    else MantissaValue(m[..|m| - 1]) * 10 + DigitValue(m[|m| - 1])
  }

  /** The signed value of the digits after an exponent mark. */
  function ExponentValue(x: string): int
    requires IsExponentDigits(x)
  {
    if x[0] == '-' then 0 - DecimalValue(x[1..]) as int
    else if x[0] == '+' then DecimalValue(x[1..])
    else DecimalValue(x)
  }

  /** The power of ten the mantissa's integer is scaled by: the exponent less
      the number of fraction digits, so `u` denotes
      `MantissaValue(mantissa) * 10^Scale(u)`. */
  function Scale(u: string): int
    requires IsUnsignedDecimal(u)
  {
    var k := ExponentStart(u);
    (if k == |u| then 0 else ExponentValue(u[k + 1..])) - FractionLength(u[..k])
  }

  /** A positive decimal value rounds to zero as a double exactly when it is
      at most `2^-1075`, half the least positive double: below that the
      nearest double is zero, and at the tie the even neighbour, zero, wins. */
  predicate Underflows(u: string)
    requires IsUnsignedDecimal(u)
  {
    var q := Scale(u);
    q < 0 && MantissaValue(u[..ExponentStart(u)]) * Pow2(1075) <= Pow10(-q)
  }

  /** The sign of `+s`. Empty or blank text is zero; a decimal literal is
      zero when its mantissa has no non-zero digit or its value is too small
      for a double, and keeps its sign otherwise. */
  function CoercedSign(s: string): (r: Sign)
    ensures Trim(s) == [] ==> r == Zero
  {
    var t := Trim(s);
    if |t| == 0 then Zero
    else if IsRadixLiteral(t) then (if HasNonZeroDigit(t[2..]) then Positive else Zero)
    else
      var negative := t[0] == '-';
      var u := if t[0] == '-' || t[0] == '+' then t[1..] else t;
      if u == "Infinity" then (if negative then Negative else Positive)
      else if !IsUnsignedDecimal(u) then NotANumber
      else if !HasNonZeroDigit(u[..ExponentStart(u)]) || Underflows(u) then Zero
      else if negative then Negative
      else Positive
  }

  /** Blank text, the empty string included, coerces to zero. */
  lemma BlankIsZero(s: string)
    requires AllWhitespace(s)
    ensures CoercedSign(s) == Zero
  {
    TrimEmptyIff(s);
  }

  /** A string of decimal digits coerces to a positive number exactly when
      some digit is not `0`, and to zero otherwise. */
  lemma DigitsSign(s: string)
    requires |s| > 0 && AllDigits(s)
    ensures CoercedSign(s) == (if HasNonZeroDigit(s) then Positive else Zero)
  {
    assert !IsWhitespace(s[0]) && !IsWhitespace(s[|s| - 1]);
    TrimNoOp(s);
    assert !IsRadixLiteral(s) by {
      if |s| >= 3 {
        assert IsDigit(s[1]);
      }
    }
    assert s != "Infinity" by {
      assert IsDigit(s[0]);
    }
    forall i | 0 <= i < |s| ensures !IsExponentMark(s[i]) {
      assert IsDigit(s[i]);
    }
    assert s[..|s|] == s;
    assert IsDecimalMantissa(s) by {
      assert IsDigit(s[0]);
    }
    NoPointNoFraction(s);
  }

  /** Text whose first non-blank character is `-` never coerces to a
      positive number. */
  lemma MinusNeverPositive(s: string)
    requires |Trim(s)| > 0 && Trim(s)[0] == '-'
    ensures CoercedSign(s) != Positive
  {
  }

  /** A comma makes the text no number at all: `+"12,50"` is `NaN`. */
  lemma CommaIsNotANumber(s: string)
    requires ',' in Trim(s)
    ensures CoercedSign(s) == NotANumber
  {
    var t := Trim(s);
    var p :| 0 <= p < |t| && t[p] == ',';
    CommaNotRadix(t, p);
    var u := if t[0] == '-' || t[0] == '+' then t[1..] else t;
    var q := if t[0] == '-' || t[0] == '+' then p - 1 else p;
    assert 0 <= q < |u| && u[q] == ',';
    CommaNotDecimal(u, q);
  }

  lemma CommaNotRadix(t: string, p: int)
    requires 0 <= p < |t| && t[p] == ','
    ensures !IsRadixLiteral(t)
  {
    assert !IsDigitOfRadix(',', 16) && !IsDigitOfRadix(',', 8) && !IsDigitOfRadix(',', 2);
    assert RadixOf(',') == 0;
  }

  lemma CommaNotDecimal(u: string, q: int)
    requires 0 <= q < |u| && u[q] == ','
    ensures u != "Infinity" && !IsUnsignedDecimal(u)
  {
    assert u != "Infinity" by {
      assert forall i :: 0 <= i < |"Infinity"| ==> "Infinity"[i] != ',';
    }
    var k := ExponentStart(u);
    if q < k {
      assert u[..k][q] == ',';
    } else {
      assert u[k + 1..][q - k - 1] == ',';
      CommaNotExponent(u[k + 1..], q - k - 1);
    }
  }

  lemma CommaNotExponent(x: string, i: int)
    requires 0 <= i < |x| && x[i] == ','
    ensures !IsExponentDigits(x)
  {
    if |x| > 0 && (x[0] == '+' || x[0] == '-') {
      assert i > 0 && x[1..][i - 1] == ',';
    }
  }

  /** Positive text is not blank, does not start with `-` and has no comma. */
  lemma PositiveShape(s: string)
    ensures CoercedSign(s) == Positive ==> |Trim(s)| > 0 && Trim(s)[0] != '-' && ',' !in Trim(s)
  {
    if CoercedSign(s) == Positive {
      if ',' in Trim(s) {
        CommaIsNotANumber(s);
      }
    }
  }

  /** A mantissa without a point has no fraction digits. */
  lemma {:induction false} NoPointNoFraction(m: string)
    requires forall i :: 0 <= i < |m| ==> m[i] != '.'
    ensures FractionLength(m) == 0
    decreases |m|
  {
    if |m| > 0 {
      NoPointNoFraction(m[1..]);
    }
  }

  /** Exponents add when powers of two multiply. */
  lemma {:induction false} Pow2Add(a: nat, b: nat)
    ensures Pow2(a + b) == Pow2(a) * Pow2(b)
    decreases b
  {
    if b > 0 {
      Pow2Add(a, b - 1);
    }
  }

  /** Exponents add when powers of ten multiply. */
  lemma {:induction false} Pow10Add(a: nat, b: nat)
    ensures Pow10(a + b) == Pow10(a) * Pow10(b)
    decreases b
  {
    if b > 0 {
      Pow10Add(a, b - 1);
    }
  }

  /** Eight is less than ten, so `2^(3n) <= 10^n`. */
  lemma {:induction false} Pow2BelowPow10(n: nat)
    ensures Pow2(3 * n) <= Pow10(n)
    decreases n
  {
    if n > 0 {
      Pow2BelowPow10(n - 1);
      Pow2Add(3, 3 * (n - 1));
      assert Pow2(3) == 8;
    }
  }

  /** A thousand is less than 1024, so `10^(3n) <= 2^(10n)`. */
  lemma {:induction false} Pow10BelowPow2(n: nat)
    ensures Pow10(3 * n) <= Pow2(10 * n)
    decreases n
  {
    if n > 0 {
      Pow10BelowPow2(n - 1);
      Pow10Add(3, 3 * (n - 1));
      Pow2Add(10, 10 * (n - 1));
      assert Pow10(3) == 1000;
      assert Pow2(10) == 1024;
    }
  }

  /** `2^1075` lies above `10^321` and no higher than `10^359`. */
  lemma HalfLeastDoubleBounds()
    ensures Pow10(321) < Pow2(1075) <= Pow10(359)
  {
    Pow2BelowPow10(359);
    Pow2Monotone(1075, 1077);
    Pow10BelowPow2(107);
    Pow2Add(1070, 5);
    assert Pow2(5) == 32;
  }

  lemma {:induction false} Pow2Monotone(i: nat, j: nat)
    requires i <= j
    ensures Pow2(i) <= Pow2(j)
    decreases j
  {
    if i < j {
      Pow2Monotone(i, j - 1);
    }
  }

  /** Rounding to a double: `1e-d` is zero from `d = 359` on, so an amount
      such as `1e-400` counts as zero, and positive for `d <= 321`. */
  lemma NegativeExponentSign(d: string)
    requires |d| > 0 && AllDigits(d)
    ensures DecimalValue(d) >= 359 ==> CoercedSign("1e-" + d) == Zero
    ensures DecimalValue(d) <= 321 ==> CoercedSign("1e-" + d) == Positive
  {
    var n := DecimalValue(d);
    TinyLiteral(d);
    HalfLeastDoubleBounds();
    if n >= 359 {
      Pow10Monotone(359, n);
    } else if n <= 321 {
      Pow10Monotone(n, 321);
    }
  }

  /** The literal `1e-d` denotes `10^-d`: zero as a double exactly when
      `2^1075 <= 10^d`, positive otherwise. */
  lemma TinyLiteral(d: string)
    requires |d| > 0 && AllDigits(d)
    ensures var n := DecimalValue(d);
            CoercedSign("1e-" + d) == (if n > 0 && Pow2(1075) <= Pow10(n) then Zero else Positive)
  {
    var s := "1e-" + d;
    OneEMinus(d);
    assert !IsWhitespace(s[|s| - 1]) by {
      assert s[|s| - 1] == d[|d| - 1];
    }
    assert !IsRadixLiteral(s) by {
      assert s[1] == 'e';
    }
    PlainDecimalSign(s);
    UnitUnderflows(s, DecimalValue(d));
  }

  /** A literal whose mantissa is one and whose scale is `-n` underflows
      exactly when `2^1075 <= 10^n`. */
  lemma UnitUnderflows(u: string, n: nat)
    requires IsUnsignedDecimal(u) && Scale(u) == 0 - n as int
    requires MantissaValue(u[..ExponentStart(u)]) == 1
    ensures Underflows(u) <==> n > 0 && Pow2(1075) <= Pow10(n)
  {
  }

  /** An unsigned decimal literal with no surrounding white space and a
      non-zero digit is zero exactly when it underflows. */
  lemma PlainDecimalSign(t: string)
    requires |t| > 0 && IsDigit(t[0]) && !IsWhitespace(t[|t| - 1])
    requires !IsRadixLiteral(t) && IsUnsignedDecimal(t)
    requires HasNonZeroDigit(t[..ExponentStart(t)])
    ensures CoercedSign(t) == (if Underflows(t) then Zero else Positive)
  {
    assert !IsWhitespace(t[0]);
    TrimNoOp(t);
    assert t != "Infinity" by {
      assert IsDigit(t[0]);
    }
  }

  /** The parts of the literal `1e-d`: mantissa `1`, scale `-d`. */
  lemma OneEMinus(d: string)
    requires |d| > 0 && AllDigits(d)
    ensures var u := "1e-" + d;
            && u[0] == '1' && ExponentStart(u) == 1 && u[..1] == "1"
            && IsUnsignedDecimal(u) && HasNonZeroDigit(u[..1])
            && MantissaValue(u[..1]) == 1 && Scale(u) == 0 - DecimalValue(d) as int
  {
    var u := "1e-" + d;
    OneEMinusShape(d);
    UnitMantissa();
    MinusExponent(d);
    assert IsUnsignedDecimal(u);
  }

  lemma OneEMinusShape(d: string)
    ensures var u := "1e-" + d;
            u[0] == '1' && ExponentStart(u) == 1 && u[..1] == "1" && u[2..] == "-" + d
  {
    var u := "1e-" + d;
    assert u[1..][0] == 'e';
    assert ExponentStart(u[1..]) == 0;
  }

  /** The mantissa `1`. */
  lemma UnitMantissa()
    ensures IsDecimalMantissa("1") && HasNonZeroDigit("1")
    ensures MantissaValue("1") == 1 && FractionLength("1") == 0
  {
    assert "1"[0] == '1';
    assert "1"[..0] == "";
    assert "1"[1..] == "";
  }

  /** The exponent `-d`. */
  lemma MinusExponent(d: string)
    requires |d| > 0 && AllDigits(d)
    ensures IsExponentDigits("-" + d) && ExponentValue("-" + d) == 0 - DecimalValue(d) as int
  {
    assert ("-" + d)[1..] == d;
  }
}
