/**
 * The JavaScript string built-ins the application relies on (`trim`, `toLowerCase`,
 * `split`, `join`, `includes`, `startsWith`, `padStart`, `parseInt` on digit runs,
 * `Number.prototype.toString`, `length`), written over `seq<char>` where a `char`
 * is one Unicode code point.
 */
module JsString {

  // ---------------------------------------------------------------------------
  // Whitespace and trimming
  // ---------------------------------------------------------------------------

  /** The characters `String.prototype.trim` removes: the WhiteSpace and
      LineTerminator productions of section 12.2 and 12.3 of ECMA-262
      (tab, vertical tab, form feed, BOM, the space separators of category Zs,
      and LF, CR, LS, PS). */
  predicate IsWhitespace(c: char) {
    || c == '\t' || c == '\n' || c == '\U{000B}' || c == '\U{000C}' || c == '\r'
    || c == ' ' || c == '\U{00A0}' || c == '\U{1680}'
    || ('\U{2000}' <= c <= '\U{200A}')
    || c == '\U{2028}' || c == '\U{2029}' || c == '\U{202F}' || c == '\U{205F}'
    || c == '\U{3000}' || c == '\U{FEFF}'
  }

  /** Every character of `s` is whitespace. */
  predicate AllWhitespace(s: string) {
    forall i :: 0 <= i < |s| ==> IsWhitespace(s[i])
  }

  /** `s` with its leading whitespace removed. */
  function TrimStart(s: string): (r: string)
    ensures |r| <= |s|
    decreases |s|
  {
    if |s| > 0 && IsWhitespace(s[0]) then TrimStart(s[1..]) else s
  }

  /** `TrimStart` removes a whitespace prefix and stops at the first
      character that is not whitespace. */
  lemma {:induction false} TrimStartShape(s: string)
    ensures var r := TrimStart(s);
            && r == s[|s| - |r|..]
            && AllWhitespace(s[..|s| - |r|])
            && (r == [] || !IsWhitespace(r[0]))
    decreases |s|
  {
    if |s| > 0 && IsWhitespace(s[0]) {
      TrimStartShape(s[1..]);
      var r := TrimStart(s[1..]);
      assert s[1..][|s| - 1 - |r|..] == s[|s| - |r|..];
      forall i | 0 <= i < |s| - |r|
        ensures IsWhitespace(s[i])
      {
        if i > 0 {
          assert s[i] == s[1..][..|s| - 1 - |r|][i - 1];
        }
      }
    }
  }

  /** `s` with its trailing whitespace removed. */
  function TrimEnd(s: string): (r: string)
    ensures |r| <= |s|
    decreases |s|
  {
    if |s| > 0 && IsWhitespace(s[|s| - 1]) then TrimEnd(s[..|s| - 1]) else s
  }

  /** `TrimEnd` removes a whitespace suffix and stops at the last character
      that is not whitespace. */
  lemma {:induction false} TrimEndShape(s: string)
    ensures var r := TrimEnd(s);
            && r == s[..|r|]
            && AllWhitespace(s[|r|..])
            && (r == [] || !IsWhitespace(r[|r| - 1]))
    decreases |s|
  {
    if |s| > 0 && IsWhitespace(s[|s| - 1]) {
      var s' := s[..|s| - 1];
      TrimEndShape(s');
      var r := TrimEnd(s');
      assert s'[..|r|] == s[..|r|];
      forall i | |r| <= i < |s|
        ensures IsWhitespace(s[i])
      {
        if i < |s| - 1 {
          assert s[i] == s'[|r|..][i - |r|];
        }
      }
    }
  }

  /** `String.prototype.trim`. */
  function Trim(s: string): string {
    TrimEnd(TrimStart(s))
  }

  /** Trimming an all-whitespace string leaves nothing. */
  lemma {:induction false} TrimStartAllWhitespace(s: string)
    requires AllWhitespace(s)
    ensures TrimStart(s) == []
    decreases |s|
  {
    if |s| > 0 {
      assert IsWhitespace(s[0]);
      TrimStartAllWhitespace(s[1..]);
    }
  }

  /** A string is blank (its `trim()` is the empty, falsy string) exactly when
      all of its characters are whitespace. */
  lemma TrimEmptyIff(s: string)
    ensures Trim(s) == [] <==> AllWhitespace(s)
  {
    var t := TrimStart(s);
    TrimStartShape(s);
    TrimEndShape(t);
    if Trim(s) == [] {
      assert AllWhitespace(t[0..]);
      assert |t| == 0;
      forall i | 0 <= i < |s|
        ensures IsWhitespace(s[i])
      {
        assert s[i] == s[..|s| - |t|][i];
      }
    }
    if AllWhitespace(s) {
      TrimStartAllWhitespace(s);
    }
  }

  // ---------------------------------------------------------------------------
  // Case mapping
  // ---------------------------------------------------------------------------

  /** `toLowerCase` for one character, over Basic Latin and the Latin-1
      Supplement: `A`..`Z` and the upper-case letters U+00C0..U+00DE (except
      the multiplication sign U+00D7) move 32 code points down the table. */
  function ToLowerChar(c: char): (r: char)
    ensures 'A' <= c <= 'Z' ==> 'a' <= r <= 'z'
    ensures !('A' <= c <= 'Z') && !('\U{00C0}' <= c <= '\U{00DE}') ==> r == c
  {
    if 'A' <= c <= 'Z' || ('\U{00C0}' <= c <= '\U{00DE}' && c != '\U{00D7}') then
      (c as int + 32) as char
    else
      c
  }

  /** `String.prototype.toLowerCase`, character by character. */
  function ToLower(s: string): (r: string)
    ensures |r| == |s|
    ensures forall i :: 0 <= i < |s| ==> r[i] == ToLowerChar(s[i])
  {
    seq(|s|, i requires 0 <= i < |s| => ToLowerChar(s[i]))
  }

  /** Lower-casing twice is lower-casing once. */
  lemma ToLowerIdempotent(s: string)
    ensures ToLower(ToLower(s)) == ToLower(s)
  {
  }

  /** Lower-casing maps whitespace to itself and nothing else to whitespace. */
  lemma ToLowerCharWhitespace(c: char)
    ensures IsWhitespace(ToLowerChar(c)) <==> IsWhitespace(c)
  {
  }

  /** The trimmed string is a piece of the original without whitespace at
      either end. */
  lemma TrimShape(s: string)
    ensures Trim(s) == [] || (!IsWhitespace(Trim(s)[0]) && !IsWhitespace(Trim(s)[|Trim(s)| - 1]))
    ensures forall i :: 0 <= i < |Trim(s)| ==> Trim(s)[i] in s
  {
    var t := TrimStart(s);
    var r := TrimEnd(t);
    TrimStartShape(s);
    TrimEndShape(t);
    forall i | 0 <= i < |r|
      ensures r[i] in s
    {
      assert r[i] == t[i] == s[|s| - |t| + i];
    }
  }

  /** A string without whitespace at either end is its own `trim()`. */
  lemma TrimNoOp(s: string)
    requires s == [] || (!IsWhitespace(s[0]) && !IsWhitespace(s[|s| - 1]))
    ensures Trim(s) == s
  {
    assert TrimStart(s) == s;
    assert TrimEnd(s) == s;
  }

  // ---------------------------------------------------------------------------
  // Splitting and joining
  // ---------------------------------------------------------------------------

  /** `Array.prototype.join(sep)`: the parts with `sep` between consecutive
      ones; the empty array joins to the empty string. */
  function Join(parts: seq<string>, sep: string): string
    decreases |parts|
  {
    if |parts| == 0 then ""
    else if |parts| == 1 then parts[0]
    else parts[0] + sep + Join(parts[1..], sep)
  }

  /** `String.prototype.split(sep)` for a one-character separator: the maximal
      runs between separators, so `n` separators give `n + 1` parts. */
  function Split(s: string, sep: char): (r: seq<string>)
    ensures |r| >= 1
    ensures forall i :: 0 <= i < |r| ==> sep !in r[i]
    decreases |s|
  {
    if |s| == 0 then [""]
    else
      var rest := Split(s[1..], sep);
      if s[0] == sep then [""] + rest
      else [[s[0]] + rest[0]] + rest[1..]
  }

  /** Joining the parts of a split with the separator gives back the string. */
  lemma {:induction false} JoinSplit(s: string, sep: char)
    ensures Join(Split(s, sep), [sep]) == s
    decreases |s|
  {
    if |s| > 0 {
      var rest := Split(s[1..], sep);
      JoinSplit(s[1..], sep);
      if s[0] == sep {
        assert Split(s, sep) == [""] + rest;
        assert ([""] + rest)[1..] == rest;
      } else {
        var r := [[s[0]] + rest[0]] + rest[1..];
        assert Split(s, sep) == r;
        if |rest| == 1 {
          assert Join(rest, [sep]) == rest[0];
        } else {
          assert r[1..] == rest[1..];
          assert Join(rest, [sep]) == rest[0] + [sep] + Join(rest[1..], [sep]);
        }
      }
    }
  }

  /** Splitting a join of separator-free parts gives back the parts. */
  lemma {:induction false} SplitJoin(parts: seq<string>, sep: char)
    requires |parts| >= 1
    requires forall i :: 0 <= i < |parts| ==> sep !in parts[i]
    ensures Split(Join(parts, [sep]), sep) == parts
    decreases |parts|, |parts[0]|
  {
    var p := parts[0];
    if |p| > 0 {
      var parts' := [p[1..]] + parts[1..];
      assert parts'[1..] == parts[1..];
      SplitJoin(parts', sep);
      SplitJoinLetter(parts, sep);
    } else if |parts| > 1 {
      SplitJoin(parts[1..], sep);
      SplitJoinEmptyFirst(parts, sep);
    }
  }

  /** The step of `SplitJoin` that takes one character off the first part. */
  lemma SplitJoinLetter(parts: seq<string>, sep: char)
    requires |parts| >= 1 && |parts[0]| > 0 && sep !in parts[0]
    requires Split(Join([parts[0][1..]] + parts[1..], [sep]), sep) == [parts[0][1..]] + parts[1..]
    ensures Split(Join(parts, [sep]), sep) == parts
  {
    var p := parts[0];
    var parts' := [p[1..]] + parts[1..];
    var t := Join(parts', [sep]);
    JoinLetter(parts, sep);
    SplitCons(p[0], t, sep);
    assert parts'[0] == p[1..] && parts'[1..] == parts[1..];
    assert [p[0]] + p[1..] == p;
    assert parts == [p] + parts[1..];
  }

  /** Splitting text that starts with a character other than the separator. */
  lemma SplitCons(c: char, t: string, sep: char)
    requires c != sep
    ensures Split([c] + t, sep) == [[c] + Split(t, sep)[0]] + Split(t, sep)[1..]
  {
    assert ([c] + t)[1..] == t;
  }

  /** Joining, with the first character of the first part taken out. */
  lemma JoinLetter(parts: seq<string>, sep: char)
    requires |parts| >= 1 && |parts[0]| > 0
    ensures Join(parts, [sep]) == [parts[0][0]] + Join([parts[0][1..]] + parts[1..], [sep])
  {
    var p := parts[0];
    var parts' := [p[1..]] + parts[1..];
    assert p == [p[0]] + p[1..];
    if |parts| == 1 {
      assert parts' == [p[1..]];
    } else {
      var rest := Join(parts[1..], [sep]);
      assert Join(parts', [sep]) == p[1..] + [sep] + rest by {
        assert parts'[1..] == parts[1..];
      }
      ConcatFront(p, [sep] + rest);
    }
  }

  lemma ConcatFront(p: string, t: string)
    requires |p| > 0
    ensures p + t == [p[0]] + (p[1..] + t)
  {
  }

  /** The step of `SplitJoin` past an empty first part. */
  lemma SplitJoinEmptyFirst(parts: seq<string>, sep: char)
    requires |parts| > 1 && parts[0] == ""
    requires Split(Join(parts[1..], [sep]), sep) == parts[1..]
    ensures Split(Join(parts, [sep]), sep) == parts
  {
    var s := Join(parts, [sep]);
    assert s == [sep] + Join(parts[1..], [sep]);
    assert s[1..] == Join(parts[1..], [sep]);
    assert parts == [""] + parts[1..];
  }

  /** `split(/\r\n|\n/)`: lines separated by LF, where a CR directly before the
      LF belongs to the separator; a lone CR stays inside its line. */
  function SplitLines(s: string): (r: seq<string>)
    ensures |r| >= 1
    ensures forall i :: 0 <= i < |r| ==> '\n' !in r[i]
    decreases |s|
  {
    if |s| == 0 then [""]
    else if |s| >= 2 && s[0] == '\r' && s[1] == '\n' then [""] + SplitLines(s[2..])
    else if s[0] == '\n' then [""] + SplitLines(s[1..])
    else
      var rest := SplitLines(s[1..]);
      [[s[0]] + rest[0]] + rest[1..]
  }

  /** Drops one trailing CR from every part except the last. */
  function DropCarriageReturns(parts: seq<string>): (r: seq<string>)
    ensures |r| == |parts|
    decreases |parts|
  {
    if |parts| <= 1 then parts
    else [DropTrailingCr(parts[0])] + DropCarriageReturns(parts[1..])
  }

  /** A part without its trailing CR, if it has one. */
  function DropTrailingCr(p: string): string {
    if |p| > 0 && p[|p| - 1] == '\r' then p[..|p| - 1] else p
  }

  /** A character in front of a part that is not a lone CR stays in front. */
  lemma DropTrailingCrCons(c: char, p: string)
    requires c != '\r' || |p| > 0
    ensures DropTrailingCr([c] + p) == [c] + DropTrailingCr(p)
  {
    if |p| > 0 && p[|p| - 1] == '\r' {
      assert ([c] + p)[..|p|] == [c] + p[..|p| - 1];
    }
  }

  /** The line splitter is the LF split with the CR of every CRLF removed: an
      independent statement of what the alternation `\r\n|\n` matches. */
  lemma {:induction false} SplitLinesIsSplitOnLf(s: string)
    ensures SplitLines(s) == DropCarriageReturns(Split(s, '\n'))
    decreases |s|
  {
    if |s| == 0 {
    } else if |s| >= 2 && s[0] == '\r' && s[1] == '\n' {
      SplitLinesIsSplitOnLf(s[2..]);
      SplitLinesCrLf(s);
    } else if s[0] == '\n' {
      SplitLinesIsSplitOnLf(s[1..]);
      assert ([""] + Split(s[1..], '\n'))[1..] == Split(s[1..], '\n');
    } else {
      SplitLinesIsSplitOnLf(s[1..]);
      SplitLinesOther(s);
    }
  }

  /** The CRLF step of `SplitLinesIsSplitOnLf`. */
  lemma SplitLinesCrLf(s: string)
    requires |s| >= 2 && s[0] == '\r' && s[1] == '\n'
    requires SplitLines(s[2..]) == DropCarriageReturns(Split(s[2..], '\n'))
    ensures SplitLines(s) == DropCarriageReturns(Split(s, '\n'))
  {
    var tail := Split(s[2..], '\n');
    assert s[1..][1..] == s[2..];
    assert Split(s[1..], '\n') == [""] + tail;
    assert ([""] + tail)[1..] == tail;
    assert ['\r'] + "" == ['\r'];
    assert Split(s, '\n') == [['\r']] + tail;
    assert (["\r"] + tail)[1..] == tail;
  }

  /** The step of `SplitLinesIsSplitOnLf` for a character that starts no
      line break. */
  lemma SplitLinesOther(s: string)
    requires |s| > 0 && s[0] != '\n' && !(|s| >= 2 && s[0] == '\r' && s[1] == '\n')
    requires SplitLines(s[1..]) == DropCarriageReturns(Split(s[1..], '\n'))
    ensures SplitLines(s) == DropCarriageReturns(Split(s, '\n'))
  {
    var rest := Split(s[1..], '\n');
    var lines := SplitLines(s[1..]);
    var parts := [[s[0]] + rest[0]] + rest[1..];
    assert Split(s, '\n') == parts;
    assert SplitLines(s) == [[s[0]] + lines[0]] + lines[1..];
    if |rest| == 1 {
      assert DropCarriageReturns(parts) == parts;
    } else {
      var p := rest[0];
      assert parts[1..] == rest[1..];
      assert lines == [DropTrailingCr(p)] + DropCarriageReturns(rest[1..]);
      if |p| == 0 {
        // s[1] is the LF: the CR test at s[0] has already failed
        assert s[1..][0] == '\n';
      }
      DropTrailingCrCons(s[0], p);
      assert DropCarriageReturns(parts) == [[s[0]] + DropTrailingCr(p)] + DropCarriageReturns(rest[1..]);
    }
  }

  // ---------------------------------------------------------------------------
  // Searching
  // ---------------------------------------------------------------------------

  /** `String.prototype.startsWith`. */
  predicate StartsWith(s: string, prefix: string) {
    |prefix| <= |s| && s[..|prefix|] == prefix
  }

  /** `String.prototype.includes`, scanning from the left. */
  predicate Includes(s: string, t: string)
    decreases |s|
  {
    StartsWith(s, t) || (|s| > 0 && Includes(s[1..], t))
  }

  /** `t` occurs in `s` at position `i`. */
  predicate OccursAt(s: string, t: string, i: int) {
    0 <= i && i + |t| <= |s| && s[i..i + |t|] == t
  }

  /** The scan finds `t` exactly when it occurs somewhere in `s`. */
  lemma {:induction false} IncludesIff(s: string, t: string)
    ensures Includes(s, t) <==> exists i :: OccursAt(s, t, i)
    decreases |s|
  {
    if |s| > 0 {
      IncludesIff(s[1..], t);
    }
    if Includes(s, t) {
      if StartsWith(s, t) {
        assert OccursAt(s, t, 0);
      } else {
        var i :| OccursAt(s[1..], t, i);
        assert s[1..][i..i + |t|] == s[i + 1..i + 1 + |t|];
        assert OccursAt(s, t, i + 1);
      }
    }
    if exists i :: OccursAt(s, t, i) {
      var i :| OccursAt(s, t, i);
      if i == 0 {
        assert StartsWith(s, t);
      } else {
        assert s[1..][i - 1..i - 1 + |t|] == s[i..i + |t|];
        assert OccursAt(s[1..], t, i - 1);
      }
    }
  }

  /** Number of occurrences of `c` in `s`. */
  function Count(s: string, c: char): (n: nat)
    ensures n <= |s|
    ensures n == 0 <==> c !in s
    decreases |s|
  {
    if |s| == 0 then 0
    else Count(s[..|s| - 1], c) + (if s[|s| - 1] == c then 1 else 0)
  }

  lemma {:induction false} CountAppend(a: string, b: string, c: char)
    ensures Count(a + b, c) == Count(a, c) + Count(b, c)
    decreases |b|
  {
    if |b| > 0 {
      assert (a + b)[..|a + b| - 1] == a + b[..|b| - 1];
      CountAppend(a, b[..|b| - 1], c);
    } else {
      assert a + b == a;
    }
  }

  /** `s.replace(/c/g, '')`: every `c` removed, everything else kept in order. */
  function RemoveChar(s: string, c: char): (r: string)
    ensures c !in r
    ensures |r| == |s| - Count(s, c)
    decreases |s|
  {
    if |s| == 0 then ""
    else
      var init := RemoveChar(s[..|s| - 1], c);
      var last := s[|s| - 1];
      if last == c then init
      else
        assert (init + [last])[..|init + [last]| - 1] == init;
        init + [last]
  }

  /** Removing `c` leaves the number of every other character unchanged. */
  lemma {:induction false} RemoveCharCount(s: string, c: char, x: char)
    requires x != c
    ensures Count(RemoveChar(s, c), x) == Count(s, x)
    decreases |s|
  {
    if |s| > 0 {
      var init := s[..|s| - 1];
      RemoveCharCount(init, c, x);
      var last := s[|s| - 1];
      if last != c {
        var r := RemoveChar(init, c) + [last];
        assert r[..|r| - 1] == RemoveChar(init, c);
      }
    }
  }

  /** `s.replace(/a/g, b)` for one-character `a` and `b`: every `a` becomes `b`. */
  function ReplaceChar(s: string, a: char, b: char): (r: string)
    ensures |r| == |s|
    ensures forall i :: 0 <= i < |s| ==> r[i] == (if s[i] == a then b else s[i])
  {
    seq(|s|, i requires 0 <= i < |s| => if s[i] == a then b else s[i])
  }

  /** After replacing `a` by `b`, the `b`s are the old `a`s and `b`s, and no
      `a` is left. */
  lemma {:induction false} ReplaceCharCount(s: string, a: char, b: char)
    requires a != b
    ensures Count(ReplaceChar(s, a, b), b) == Count(s, a) + Count(s, b)
    ensures Count(ReplaceChar(s, a, b), a) == 0
    decreases |s|
  {
    if |s| > 0 {
      var init := s[..|s| - 1];
      ReplaceCharCount(init, a, b);
      var r := ReplaceChar(s, a, b);
      assert r[..|r| - 1] == ReplaceChar(init, a, b);
    }
  }

  // ---------------------------------------------------------------------------
  // Decimal digits and number formatting
  // ---------------------------------------------------------------------------

  /** `\d` of a JavaScript regular expression without the `u` flag. */
  predicate IsDigit(c: char) {
    '0' <= c <= '9'
  }

  predicate AllDigits(s: string) {
    forall i :: 0 <= i < |s| ==> IsDigit(s[i])
  }

  function DigitValue(c: char): (d: nat)
    requires IsDigit(c)
    ensures d < 10
  {
    c as int - '0' as int
  }

  function DigitChar(d: nat): (c: char)
    requires d < 10
    ensures IsDigit(c) && DigitValue(c) == d
  {
    ('0' as int + d) as char
  }

  /** `parseInt(s, 10)` of a non-empty run of decimal digits. */
  function DecimalValue(s: string): nat
    requires AllDigits(s)
    decreases |s|
  {
    if |s| == 0 then 0
    else DecimalValue(s[..|s| - 1]) * 10 + DigitValue(s[|s| - 1])
  }

  /** Ten to the power `k`. */
  function Pow10(k: nat): (p: nat)
    ensures p >= 1
  {
    if k == 0 then 1 else 10 * Pow10(k - 1)
  }

  /** Powers of ten grow with the exponent. */
  lemma {:induction false} Pow10Monotone(i: nat, j: nat)
    requires i <= j
    ensures Pow10(i) <= Pow10(j)
    decreases j
  {
    if i < j {
      Pow10Monotone(i, j - 1);
    }
  }

  /** A run of `k` digits is worth less than `10^k`. */
  lemma {:induction false} DecimalValueBound(s: string)
    requires AllDigits(s)
    ensures DecimalValue(s) < Pow10(|s|)
    decreases |s|
  {
    if |s| > 0 {
      DecimalValueBound(s[..|s| - 1]);
    }
  }

  /** A numeral without a leading zero is at least ten to its length less one. */
  lemma {:induction false} DecimalValueLeading(s: string)
    requires AllDigits(s) && |s| >= 1 && s[0] != '0'
    ensures DecimalValue(s) >= Pow10(|s| - 1)
    decreases |s|
  {
    if |s| > 1 {
      var init := s[..|s| - 1];
      assert init[0] == s[0];
      DecimalValueLeading(init);
    }
  }

  /** Reading a numeral from the front: the first digit weighs ten to the
      number of digits after it. */
  lemma {:induction false} DecimalValueFront(s: string)
    requires AllDigits(s) && |s| >= 1
    ensures DecimalValue(s) == DigitValue(s[0]) * Pow10(|s| - 1) + DecimalValue(s[1..])
    decreases |s|
  {
    if |s| > 1 {
      var init := s[..|s| - 1];
      var last := DigitValue(s[|s| - 1]);
      DecimalValueFront(init);
      assert init[1..] == s[1..][..|s| - 2];
      assert init[0] == s[0];
      assert DecimalValue(s[1..]) == DecimalValue(init[1..]) * 10 + last;
      ShiftTen(DigitValue(s[0]), Pow10(|s| - 2), DecimalValue(init[1..]), last);
    }
  }

  lemma ShiftTen(a: int, p: int, b: int, d: int)
    ensures (a * p + b) * 10 + d == a * (10 * p) + (b * 10 + d)
  {
  }

  /** `n` written with exactly `k` decimal digits, keeping leading zeros. */
  function FixedDigits(n: nat, k: nat): (r: string)
    ensures |r| == k && AllDigits(r)
    decreases k
  {
    if k == 0 then "" else FixedDigits(n / 10, k - 1) + [DigitChar(n % 10)]
  }

  /** Reading back a fixed-width spelling gives the number, when it fits. */
  lemma {:induction false} FixedDigitsValue(n: nat, k: nat)
    requires n < Pow10(k)
    ensures DecimalValue(FixedDigits(n, k)) == n
    decreases k
  {
    if k > 0 {
      var s := FixedDigits(n, k);
      assert s[..|s| - 1] == FixedDigits(n / 10, k - 1);
      FixedDigitsValue(n / 10, k - 1);
    }
  }

  lemma DivMod10(a: nat, d: nat)
    requires d < 10
    ensures (a * 10 + d) / 10 == a && (a * 10 + d) % 10 == d
  {
  }

  /** A run of digits is the fixed-width spelling of its own value. */
  lemma {:induction false} DecimalValueFixed(s: string)
    requires AllDigits(s)
    ensures FixedDigits(DecimalValue(s), |s|) == s
    decreases |s|
  {
    if |s| > 0 {
      var init := s[..|s| - 1];
      DecimalValueFixed(init);
      var v := DecimalValue(s);
      DivMod10(DecimalValue(init), DigitValue(s[|s| - 1]));
      var c := s[|s| - 1];
      assert DigitChar(DigitValue(c)) == c;
      assert FixedDigits(v, |s|) == FixedDigits(v / 10, |s| - 1) + [DigitChar(v % 10)];
      assert s == init + [c];
    }
  }

  /** `Number.prototype.toString()` of a non-negative integer: decimal digits
      with no leading zeros. */
  function NatToString(n: nat): (r: string)
    ensures |r| >= 1 && AllDigits(r)
    decreases n
  {
    if n < 10 then [DigitChar(n)] else NatToString(n / 10) + [DigitChar(n % 10)]
  }

  /** The spelling reads back as the number. */
  lemma {:induction false} NatToStringValue(n: nat)
    ensures DecimalValue(NatToString(n)) == n
    decreases n
  {
    if n >= 10 {
      var s := NatToString(n);
      assert s[..|s| - 1] == NatToString(n / 10);
      NatToStringValue(n / 10);
    }
  }

  /** The number of digits: exactly `k` when `10^(k-1) <= n < 10^k`. */
  lemma {:induction false} NatToStringLength(n: nat, k: nat)
    requires k >= 1
    requires (k == 1 || Pow10(k - 1) <= n) && n < Pow10(k)
    ensures |NatToString(n)| == k
    decreases k
  {
    if k > 1 {
      NatToStringLength(n / 10, k - 1);
    } else if n >= 10 {
      assert false;
    }
  }

  /** The number of digits brackets the number: `k` digits spell a number
      below `10^k`, and at least `10^(k-1)` when `k > 1`. */
  lemma {:induction false} NatToStringMagnitude(n: nat)
    ensures n < Pow10(|NatToString(n)|)
    ensures |NatToString(n)| == 1 || Pow10(|NatToString(n)| - 1) <= n
    decreases n
  {
    if n >= 10 {
      NatToStringMagnitude(n / 10);
    }
  }

  /** A spelling of `k` digits with no leading zero is the fixed-width one. */
  lemma NatToStringFixed(n: nat, k: nat)
    requires k >= 1
    requires (k == 1 || Pow10(k - 1) <= n) && n < Pow10(k)
    ensures NatToString(n) == FixedDigits(n, k)
  {
    NatToStringLength(n, k);
    NatToStringValue(n);
    DecimalValueFixed(NatToString(n));
  }

  /** `Number.prototype.toString()` of any integer. */
  function IntToString(n: int): (r: string)
    ensures |r| >= 1
  {
    if n < 0 then "-" + NatToString(-n) else NatToString(n)
  }

  /** `padStart(2, '0')`: strings shorter than two characters are filled with
      leading zeros up to two; longer ones are kept as they are. */
  function PadStart2(s: string): (r: string)
    ensures |s| >= 2 ==> r == s
    ensures |s| < 2 ==> |r| == 2 && r[2 - |s|..] == s
    ensures forall i :: 0 <= i < 2 - |s| ==> r[i] == '0'
  {
    if |s| >= 2 then s else if |s| == 1 then "0" + s else "00"
  }

  /** Two-digit, zero-padded spelling of a number below one hundred. */
  lemma TwoDigits(n: nat)
    requires n < 100
    ensures PadStart2(NatToString(n)) == FixedDigits(n, 2)
  {
    if n < 10 {
      assert NatToString(n) == FixedDigits(n, 1);
    } else {
      NatToStringFixed(n, 2);
    }
  }

  // ---------------------------------------------------------------------------
  // Length in UTF-16 code units
  // ---------------------------------------------------------------------------

  /** `String.prototype.length`: UTF-16 code units, so characters outside the
      Basic Multilingual Plane count twice. */
  function Utf16Length(s: string): (n: nat)
    ensures |s| <= n <= 2 * |s|
    decreases |s|
  {
    if |s| == 0 then 0
    else Utf16Length(s[1..]) + (if s[0] as int >= 0x1_0000 then 2 else 1)
  }
}
