/**
 * `lightenHexColor(hex, percent)`: read a `#rrggbb` colour as a hexadecimal
 * number, add the same amount to each of its three bytes with a clamp at 255,
 * and print the packed value back in hexadecimal. The amount
 * `Math.round(2.55 * percent)` is a floating-point computation and is taken
 * here as an integer parameter `amt`.
 */
module Tools {
  import opened Wrappers
  import opened JsString

  // ---------------------------------------------------------------------------
  // Hexadecimal digits
  // ---------------------------------------------------------------------------

  predicate IsHexDigit(c: char) {
    IsDigit(c) || ('a' <= c <= 'f') || ('A' <= c <= 'F')
  }

  /** The digits `Number.prototype.toString(16)` writes. */
  predicate IsLowerHexDigit(c: char) {
    IsDigit(c) || ('a' <= c <= 'f')
  }

  predicate AllHex(s: string) {
    forall i :: 0 <= i < |s| ==> IsHexDigit(s[i])
  }

  function HexDigitValue(c: char): (d: nat)
    requires IsHexDigit(c)
    ensures d < 16
  {
    if IsDigit(c) then c as int - '0' as int
    else if 'a' <= c <= 'f' then c as int - 'a' as int + 10
    else c as int - 'A' as int + 10
  }

  /** The lower-case digit of a value below sixteen. */
  function HexChar(d: nat): (c: char)
    requires d < 16
    ensures IsLowerHexDigit(c) && IsHexDigit(c) && HexDigitValue(c) == d
  {
    if d < 10 then ('0' as int + d) as char else ('a' as int + d - 10) as char
  }

  /** The value of a run of hexadecimal digits, most significant first. */
  function HexValue(s: string): nat
    requires AllHex(s)
    decreases |s|
  {
    if |s| == 0 then 0
    else HexValue(s[..|s| - 1]) * 16 + HexDigitValue(s[|s| - 1])
  }

  /** Sixteen to the power `k`. */
  function Pow16(k: nat): (p: nat)
    ensures p >= 1
  {
    if k == 0 then 1 else 16 * Pow16(k - 1)
  }

  lemma DivMod16(a: nat, d: nat)
    requires d < 16
    ensures (a * 16 + d) / 16 == a && (a * 16 + d) % 16 == d
  {
  }

  /** `n` written with exactly `k` lower-case hexadecimal digits, keeping
      leading zeros. */
  function FixedHex(n: nat, k: nat): (r: string)
    ensures |r| == k
    decreases k
  {
    if k == 0 then "" else FixedHex(n / 16, k - 1) + [HexChar(n % 16)]
  }

  /** A byte in two lower-case digits, as `toString(16)` writes it after
      the byte above it. */
  function ByteHex(b: nat): (r: string)
    requires b < 256
  {
    [HexChar(b / 16), HexChar(b % 16)]
  }

  /** `Number.prototype.toString(16)` of a non-negative integer: lower-case
      digits with no leading zeros. */
  function HexString(n: nat): (r: string)
    ensures |r| >= 1
    decreases n
  {
    if n < 16 then [HexChar(n)] else HexString(n / 16) + [HexChar(n % 16)]
  }

  /** `Number.prototype.toString(16)` of any integer. */
  function ToString16(v: int): (r: string)
    ensures |r| >= 1
  {
    if v < 0 then "-" + HexString(-v) else HexString(v)
  }

  lemma AllHexAppend(a: string, b: string)
    requires AllHex(a) && AllHex(b)
    ensures AllHex(a + b)
  {
    var s := a + b;
    forall i | 0 <= i < |s| ensures IsHexDigit(s[i]) {
      if i < |a| { assert s[i] == a[i]; } else { assert s[i] == b[i - |a|]; }
    }
  }

  lemma ShiftOneDigit(x: int, p: int, y: int, d: int)
    ensures (x * p + y) * 16 + d == x * (16 * p) + (y * 16 + d)
  {
  }

  /** Appending `j` digits multiplies the value of the front by `16^j`. */
  lemma {:induction false} HexValueAppend(a: string, b: string)
    requires AllHex(a) && AllHex(b)
    ensures AllHex(a + b)
    ensures HexValue(a + b) == HexValue(a) * Pow16(|b|) + HexValue(b)
    decreases |b|
  {
    AllHexAppend(a, b);
    var s := a + b;
    if |b| == 0 {
      assert s == a;
    } else {
      var init := b[..|b| - 1];
      assert s[..|s| - 1] == a + init;
      assert s[|s| - 1] == b[|b| - 1];
      HexValueAppend(a, init);
      ShiftOneDigit(HexValue(a), Pow16(|init|), HexValue(init), HexDigitValue(b[|b| - 1]));
    }
  }

  /** A run of `k` digits is worth less than `16^k`. */
  lemma {:induction false} HexValueBound(s: string)
    requires AllHex(s)
    ensures HexValue(s) < Pow16(|s|)
    decreases |s|
  {
    if |s| > 0 {
      HexValueBound(s[..|s| - 1]);
    }
  }

  /** Printing a digit's value gives the digit in lower case. */
  lemma HexCharLower(c: char)
    requires IsHexDigit(c)
    ensures HexChar(HexDigitValue(c)) == ToLowerChar(c)
  {
  }

  /** A pair of digits printed back as a byte is the pair in lower case. */
  lemma ByteHexOfPair(p: string)
    requires |p| == 2 && AllHex(p)
    ensures HexValue(p) < 256
    ensures ByteHex(HexValue(p)) == ToLower(p)
  {
    var d0, d1 := HexDigitValue(p[0]), HexDigitValue(p[1]);
    assert p[..1][..0] == [] && p[..1][0] == p[0];
    assert HexValue(p[..1]) == d0;
    assert HexValue(p) == d0 * 16 + d1;
    DivMod16(d0, d1);
    assert ByteHex(HexValue(p)) == [HexChar(d0), HexChar(d1)];
    HexCharLower(p[0]);
    HexCharLower(p[1]);
    assert ToLower(p) == [ToLowerChar(p[0]), ToLowerChar(p[1])];
  }

  /** A byte printed in two digits reads back as the byte. */
  lemma HexValueOfByteHex(b: nat)
    requires b < 256
    ensures AllHex(ByteHex(b)) && HexValue(ByteHex(b)) == b
  {
    var r := ByteHex(b);
    assert r[..1][..0] == [] && r[..1][0] == r[0];
    assert HexValue(r[..1]) == b / 16;
    assert HexValue(r) == (b / 16) * 16 + b % 16;
  }

  /** The last digit of `a * 16p + b` is that of `b`, and the rest is
      `a * p + b / 16`. */
  lemma PeelDigit(a: nat, p: nat, b: nat)
    requires b < 16 * p
    ensures (a * (16 * p) + b) / 16 == a * p + b / 16
    ensures (a * (16 * p) + b) % 16 == b % 16
    ensures b / 16 < p
    ensures a >= 1 && p >= 1 ==> a * (16 * p) + b >= 16
  {
    var n := a * (16 * p) + b;
    assert n == (a * p + b / 16) * 16 + b % 16;
    DivMod16(a * p + b / 16, b % 16);
    if a >= 1 && p >= 1 {
      assert a * (16 * p) >= 16 * p;
    }
  }

  /** Splitting a fixed-width spelling: the high part and the low `j` digits
      are spelled separately. */
  lemma {:induction false} FixedHexSplit(a: nat, b: nat, k: nat, j: nat)
    requires b < Pow16(j)
    ensures FixedHex(a * Pow16(j) + b, k + j) == FixedHex(a, k) + FixedHex(b, j)
    decreases j
  {
    if j > 0 {
      PeelDigit(a, Pow16(j - 1), b);
      FixedHexSplit(a, b / 16, k, j - 1);
    }
  }

  /** A leading part of at least one followed by `k` digits: the unpadded
      spelling is the leading part's followed by the `k` digits. */
  lemma {:induction false} HexStringSplit(m: nat, x: nat, k: nat)
    requires m >= 1 && x < Pow16(k)
    ensures HexString(m * Pow16(k) + x) == HexString(m) + FixedHex(x, k)
    decreases k
  {
    if k > 0 {
      var p := Pow16(k - 1);
      var n := m * (16 * p) + x;
      assert m * Pow16(k) + x == n;
      PeelDigit(m, p, x);
      calc {
        HexString(n);
        HexString(n / 16) + [HexChar(n % 16)];
        HexString(m * p + x / 16) + [HexChar(x % 16)];
      == { HexStringSplit(m, x / 16, k - 1); }
        HexString(m) + FixedHex(x / 16, k - 1) + [HexChar(x % 16)];
        HexString(m) + FixedHex(x, k);
      }
    }
  }

  // ---------------------------------------------------------------------------
  // parseInt(·, 16)
  // ---------------------------------------------------------------------------

  /** `s.replace('#', '')`: the first `#` is removed. */
  function RemoveFirst(s: string, c: char): (r: string)
    decreases |s|
  {
    if |s| == 0 then s
    else if s[0] == c then s[1..]
    else [s[0]] + RemoveFirst(s[1..], c)
  }

  /** The length of the longest prefix made of hexadecimal digits. */
  function HexPrefixLength(s: string): (k: nat)
    ensures k <= |s| && AllHex(s[..k])
    ensures k < |s| ==> !IsHexDigit(s[k])
    decreases |s|
  {
    if |s| == 0 || !IsHexDigit(s[0]) then 0
    else
      var k := 1 + HexPrefixLength(s[1..]);
      assert s[..k] == [s[0]] + s[1..][..k - 1];
      k
  }

  /** What `parseInt(s, 16)` reads after the leading white space: whether a
      `-` comes first, and the text after an optional sign and an optional
      `0x`/`0X`. */
  function SignAndDigits(t: string): (r: (bool, string))
    ensures r.0 <==> |t| > 0 && t[0] == '-'
    ensures |r.1| <= |t|
  {
    var negative := |t| > 0 && t[0] == '-';
    var u := if |t| > 0 && (t[0] == '-' || t[0] == '+') then t[1..] else t;
    var v := if |u| >= 2 && u[0] == '0' && (u[1] == 'x' || u[1] == 'X') then u[2..] else u;
    (negative, v)
  }

  /** `parseInt(s, 16)`: leading white space, an optional sign, an optional
      `0x`/`0X`, then the longest run of hexadecimal digits; `None` is `NaN`,
      the answer exactly when that run is empty. */
  function ParseInt16(s: string): (r: Option<int>)
    ensures var v := SignAndDigits(TrimStart(s)).1;
            r.None? <==> v == [] || !IsHexDigit(v[0])
    ensures r.Some? && !SignAndDigits(TrimStart(s)).0 ==> r.value >= 0
  {
    var (negative, v) := SignAndDigits(TrimStart(s));
    var k := HexPrefixLength(v);
    if k == 0 then None
    else
      var magnitude: int := HexValue(v[..k]);
      Some(if negative then -magnitude else magnitude)
  }

  // ---------------------------------------------------------------------------
  // lightenHexColor
  // ---------------------------------------------------------------------------

  const TwoTo32: int := 0x1_0000_0000
  const TwoTo31: int := 0x8000_0000

  /** ECMA-262's ToInt32, which the bitwise operators apply first: `NaN` is
      zero, and an integer wraps into the signed 32-bit range. */
  function ToInt32(n: Option<int>): (r: int)
    ensures -TwoTo31 <= r < TwoTo31
    ensures n.Some? && -TwoTo31 <= n.value < TwoTo31 ==> r == n.value
  {
    match n
    case None => 0
    case Some(x) => (x + TwoTo31) % TwoTo32 - TwoTo31
  }

  /** The three bytes after the amount is added and the upper clamp applied,
      from the most significant down. The source names them `R`, `B` and
      `G`; each is put back in the position it was read from. */
  datatype Channels = Channels(high: int, middle: int, low: int)

  /** `x < 255 ? x : 255`; there is no lower clamp. */
  function Clamp(x: int): (r: int)
    ensures r <= 255 && r <= x
    ensures x <= 255 ==> r == x
  {
    if x < 255 then x else 255
  }

  /** The channels of `lightenHexColor(hex, percent)` with
      `amt = Math.round(2.55 * percent)`: `num >> 16`, `(num >> 8) & 0xff`
      and `num & 0xff` of the 32-bit `num`, each plus `amt` and clamped. */
  function LightenedChannels(hex: string, amt: int): (c: Channels)
    ensures c.high <= 255 && c.middle <= 255 && c.low <= 255
  {
    var num := ToInt32(ParseInt16(RemoveFirst(hex, '#')));
    Channels(Clamp(num / 0x1_0000 + amt), Clamp((num / 0x100) % 0x100 + amt), Clamp(num % 0x100 + amt))
  }

  /** `lightenHexColor`: `0x1000000` plus the packed channels, printed in
      hexadecimal with its first character dropped, after a `#`. Whatever the
      input, channels that did not go negative are spelled as a lower-case
      six-digit colour, two digits per channel in their original order. */
  function LightenHexColor(hex: string, amt: int): (r: string)
    ensures |r| >= 1 && r[0] == '#'
    ensures var c := LightenedChannels(hex, amt);
            0 <= c.high && 0 <= c.middle && 0 <= c.low ==>
              r == "#" + ByteHex(c.high) + ByteHex(c.middle) + ByteHex(c.low) && IsLowerSixDigitColour(r)
  {
    var c := LightenedChannels(hex, amt);
    var packed := 0x100_0000 + c.high * 0x1_0000 + c.middle * 0x100 + c.low;
    SpelledWhenNonNegative(c);
    "#" + ToString16(packed)[1..]
  }

  /** Channels capped at 255 that are not negative print as three digit
      pairs making a lower-case colour. */
  lemma SpelledWhenNonNegative(c: Channels)
    requires c.high <= 255 && c.middle <= 255 && c.low <= 255
    ensures 0 <= c.high && 0 <= c.middle && 0 <= c.low ==>
              && ToString16(0x100_0000 + c.high * 0x1_0000 + c.middle * 0x100 + c.low)[1..]
                 == ByteHex(c.high) + ByteHex(c.middle) + ByteHex(c.low)
              && IsLowerSixDigitColour("#" + ByteHex(c.high) + ByteHex(c.middle) + ByteHex(c.low))
  {
    if 0 <= c.high && 0 <= c.middle && 0 <= c.low {
      SpellChannels(c);
      LowerBytes(c.high, c.middle, c.low);
    }
  }

  /** A colour written `#` and six hexadecimal digits, in either case. */
  predicate IsSixDigitColour(hex: string) {
    |hex| == 7 && hex[0] == '#' && AllHex(hex[1..])
  }

  /** What `Number.prototype.toString(16)` makes of a six-digit colour: a
      `#` and six lower-case digits. */
  predicate IsLowerSixDigitColour(hex: string) {
    |hex| == 7 && hex[0] == '#' && forall i :: 1 <= i < 7 ==> IsLowerHexDigit(hex[i])
  }

  /** The byte a pair of digits of a six-digit colour spells; `pair` 0 is
      the red byte. */
  function ByteAt(hex: string, pair: nat): (b: nat)
    requires IsSixDigitColour(hex) && pair < 3
    ensures b < 256
  {
    var d := hex[1 + 2 * pair..3 + 2 * pair];
    assert AllHex(d) by {
      forall i | 0 <= i < 2 ensures IsHexDigit(d[i]) {
        assert d[i] == hex[1..][2 * pair + i];
      }
    }
    HexValueBound(d);
    HexValue(d)
  }

  /** A six-digit colour parses to the value of its digits, made of its three
      bytes. */
  lemma ParseSixDigitColour(hex: string)
    requires IsSixDigitColour(hex)
    ensures ParseInt16(RemoveFirst(hex, '#'))
            == Some(ByteAt(hex, 0) * 0x1_0000 + ByteAt(hex, 1) * 0x100 + ByteAt(hex, 2))
  {
    var d := hex[1..];
    assert RemoveFirst(hex, '#') == d;
    ParseHexRun(d);
    SixDigitValue(hex);
  }

  /** A non-empty run of hexadecimal digits parses to its value. */
  lemma ParseHexRun(d: string)
    requires |d| > 0 && AllHex(d)
    ensures ParseInt16(d) == Some(HexValue(d))
  {
    assert TrimStart(d) == d by {
      assert !IsWhitespace(d[0]);
    }
    assert SignAndDigits(d) == (false, d) by {
      assert !IsHexDigit('x') && !IsHexDigit('X') && !IsHexDigit('-') && !IsHexDigit('+');
      assert |d| >= 2 ==> IsHexDigit(d[1]);
    }
    assert HexPrefixLength(d) == |d| by {
      HexPrefixAll(d);
    }
    assert d[..|d|] == d;
  }

  /** The six digits of a colour, read as one number, are its three bytes. */
  lemma SixDigitValue(hex: string)
    requires IsSixDigitColour(hex)
    ensures HexValue(hex[1..]) == ByteAt(hex, 0) * 0x1_0000 + ByteAt(hex, 1) * 0x100 + ByteAt(hex, 2)
  {
    var p0, p1, p2 := hex[1..3], hex[3..5], hex[5..7];
    assert hex[1..] == (p0 + p1) + p2 by {
      ColourPairs(hex);
    }
    assert Pow16(2) == 0x100;
    calc {
      HexValue(hex[1..]);
      HexValue((p0 + p1) + p2);
    == { HexValueAppend(p0 + p1, p2); }
      HexValue(p0 + p1) * 0x100 + HexValue(p2);
    == { HexValueAppend(p0, p1); }
      (HexValue(p0) * 0x100 + HexValue(p1)) * 0x100 + HexValue(p2);
      HexValue(p0) * 0x1_0000 + HexValue(p1) * 0x100 + HexValue(p2);
    == { ColourPairs(hex); }
      ByteAt(hex, 0) * 0x1_0000 + ByteAt(hex, 1) * 0x100 + ByteAt(hex, 2);
    }
  }

  /** A run of hexadecimal digits is its own longest hexadecimal prefix. */
  lemma {:induction false} HexPrefixAll(s: string)
    requires AllHex(s)
    ensures HexPrefixLength(s) == |s|
    decreases |s|
  {
    if |s| > 0 {
      HexPrefixAll(s[1..]);
    }
  }

  /** Splitting a packed value below `2^24` into its three bytes. */
  lemma UnpackBytes(b0: nat, b1: nat, b2: nat)
    requires b0 < 256 && b1 < 256 && b2 < 256
    ensures var n := b0 * 0x1_0000 + b1 * 0x100 + b2;
            && n / 0x1_0000 == b0 && (n / 0x100) % 0x100 == b1 && n % 0x100 == b2
  {
    var n := b0 * 0x1_0000 + b1 * 0x100 + b2;
    assert n == (b0 * 0x100 + b1) * 0x100 + b2;
    assert n / 0x100 == b0 * 0x100 + b1;
  }

  /** Each channel of a six-digit colour is its own byte plus the amount,
      clamped at 255, and stays in its position. */
  lemma ChannelsOfColour(hex: string, amt: int)
    requires IsSixDigitColour(hex)
    ensures LightenedChannels(hex, amt)
            == Channels(Clamp(ByteAt(hex, 0) + amt), Clamp(ByteAt(hex, 1) + amt), Clamp(ByteAt(hex, 2) + amt))
  {
    ParseSixDigitColour(hex);
    UnpackBytes(ByteAt(hex, 0), ByteAt(hex, 1), ByteAt(hex, 2));
  }

  lemma Pow16Values()
    ensures Pow16(2) == 0x100 && Pow16(6) == 0x100_0000
  {
  }

  /** Three parts of `j` digits each, spelled side by side. */
  lemma {:induction false} ThreeParts(h: nat, m: nat, l: nat, j: nat)
    requires m < Pow16(j) && l < Pow16(j)
    ensures FixedHex((h * Pow16(j) + m) * Pow16(j) + l, j + j + j)
            == FixedHex(h, j) + FixedHex(m, j) + FixedHex(l, j)
  {
    var hm := h * Pow16(j) + m;
    var a, b, c := FixedHex(h, j), FixedHex(m, j), FixedHex(l, j);
    assert FixedHex(hm * Pow16(j) + l, j + j + j) == FixedHex(hm, j + j) + c by {
      FixedHexSplit(hm, l, j + j, j);
    }
    assert FixedHex(hm, j + j) == a + b by {
      FixedHexSplit(h, m, j, j);
    }
  }

  lemma PackBytes(h: nat, m: nat, l: nat)
    ensures (h * Pow16(2) + m) * Pow16(2) + l == h * 0x1_0000 + m * 0x100 + l
  {
    Pow16Values();
  }

  /** Two digits of fixed width are the byte's two digits. */
  lemma ByteHexFixed(b: nat)
    requires b < 256
    ensures FixedHex(b, 2) == ByteHex(b)
  {
    assert FixedHex(b, 2) == FixedHex(b / 16, 1) + [HexChar(b % 16)];
    assert FixedHex(b / 16, 1) == FixedHex(b / 256, 0) + [HexChar((b / 16) % 16)];
  }

  /** The channels, when none is negative, spelled as `#` and six digits:
      `(0x1000000 + packed).toString(16)` is a `1` followed by the packed
      value in six digits, and `slice(1)` drops the `1`. */
  lemma SpellChannels(c: Channels)
    requires 0 <= c.high <= 255 && 0 <= c.middle <= 255 && 0 <= c.low <= 255
    ensures ToString16(0x100_0000 + c.high * 0x1_0000 + c.middle * 0x100 + c.low)[1..]
            == ByteHex(c.high) + ByteHex(c.middle) + ByteHex(c.low)
  {
    var h, m, l := c.high, c.middle, c.low;
    var x := h * 0x1_0000 + m * 0x100 + l;
    var j: nat := 2;
    assert Pow16(j + j + j) == 0x100_0000 && x < Pow16(j + j + j) by {
      Pow16Values();
    }
    calc {
      ToString16(0x100_0000 + h * 0x1_0000 + m * 0x100 + l)[1..];
    == { SpellPacked(x, j + j + j, 0x100_0000 + h * 0x1_0000 + m * 0x100 + l); }
      FixedHex(x, j + j + j);
    == { ThreeBytes(h, m, l, j); }
      ByteHex(h) + ByteHex(m) + ByteHex(l);
    }
  }

  /** Three bytes packed into one number, in six digits, are the bytes'
      digit pairs side by side. */
  lemma ThreeBytes(h: nat, m: nat, l: nat, j: nat)
    requires h < 256 && m < 256 && l < 256 && j == 2
    ensures FixedHex(h * 0x1_0000 + m * 0x100 + l, j + j + j) == ByteHex(h) + ByteHex(m) + ByteHex(l)
  {
    assert Pow16(j) == 0x100;
    calc {
      FixedHex(h * 0x1_0000 + m * 0x100 + l, j + j + j);
    == { PackBytes(h, m, l); }
      FixedHex((h * Pow16(j) + m) * Pow16(j) + l, j + j + j);
    == { ThreeParts(h, m, l, j); }
      FixedHex(h, j) + FixedHex(m, j) + FixedHex(l, j);
    == { ByteHexFixed(h); ByteHexFixed(m); ByteHexFixed(l); }
      ByteHex(h) + ByteHex(m) + ByteHex(l);
    }
  }

  /** A value below `16^k`, plus `16^k`, is spelled as a `1` and the value in
      `k` digits. */
  lemma SpellPacked(x: nat, k: nat, y: int)
    requires x < Pow16(k) && y == Pow16(k) + x
    ensures ToString16(y)[1..] == FixedHex(x, k)
  {
    calc {
      ToString16(y)[1..];
      HexString(y)[1..];
    == { assert y == 1 * Pow16(k) + x; HexStringSplit(1, x, k); }
      (HexString(1) + FixedHex(x, k))[1..];
    == { assert HexString(1) == "1"; }
      FixedHex(x, k);
    }
  }

  /** For a six-digit colour and an amount that is not negative, the result
      is `#` and six lower-case digits, two per channel, each channel its
      byte plus the amount and at most 255. */
  lemma LightenSixDigitColour(hex: string, amt: int)
    requires IsSixDigitColour(hex) && amt >= 0
    ensures var r := LightenHexColor(hex, amt);
            && IsLowerSixDigitColour(r)
            && r == "#" + ByteHex(Clamp(ByteAt(hex, 0) + amt))
                        + ByteHex(Clamp(ByteAt(hex, 1) + amt))
                        + ByteHex(Clamp(ByteAt(hex, 2) + amt))
  {
    var b0, b1, b2 := Clamp(ByteAt(hex, 0) + amt), Clamp(ByteAt(hex, 1) + amt), Clamp(ByteAt(hex, 2) + amt);
    ChannelsOfColour(hex, amt);
  }

  /** Three bytes spelled after a `#` make a lower-case six-digit colour. */
  lemma LowerBytes(b0: nat, b1: nat, b2: nat)
    requires b0 < 256 && b1 < 256 && b2 < 256
    ensures IsLowerSixDigitColour("#" + ByteHex(b0) + ByteHex(b1) + ByteHex(b2))
  {
    var r := "#" + ByteHex(b0) + ByteHex(b1) + ByteHex(b2);
    assert r == ['#', HexChar(b0 / 16), HexChar(b0 % 16), HexChar(b1 / 16), HexChar(b1 % 16),
                 HexChar(b2 / 16), HexChar(b2 % 16)];
  }

  /** The three digit pairs of a six-digit colour. */
  lemma ColourPairs(hex: string)
    requires IsSixDigitColour(hex)
    ensures AllHex(hex[1..3]) && AllHex(hex[3..5]) && AllHex(hex[5..7])
    ensures hex == "#" + hex[1..3] + hex[3..5] + hex[5..7]
    ensures ByteAt(hex, 0) == HexValue(hex[1..3]) && ByteAt(hex, 1) == HexValue(hex[3..5])
            && ByteAt(hex, 2) == HexValue(hex[5..7])
  {
    forall i | 1 <= i < 7 ensures IsHexDigit(hex[i]) {
      assert hex[i] == hex[1..][i - 1];
    }
    assert hex[..1] == "#";
    assert hex == hex[..1] + hex[1..3] + hex[3..5] + hex[5..7];
  }

  /** Lightening by nothing gives the same colour, in lower case. */
  lemma LightenByZero(hex: string)
    requires IsSixDigitColour(hex)
    ensures LightenHexColor(hex, 0) == ToLower(hex)
  {
    ZeroSpelling(hex);
    ColourPairs(hex);
    LowerPieces(hex, hex[1..3], hex[3..5], hex[5..7]);
  }

  /** Lightening by nothing spells each digit pair in lower case. */
  lemma ZeroSpelling(hex: string)
    requires IsSixDigitColour(hex)
    ensures AllHex(hex[1..3]) && AllHex(hex[3..5]) && AllHex(hex[5..7])
    ensures LightenHexColor(hex, 0) == "#" + ToLower(hex[1..3]) + ToLower(hex[3..5]) + ToLower(hex[5..7])
  {
    ColourPairs(hex);
    var p0, p1, p2 := hex[1..3], hex[3..5], hex[5..7];
    var b0, b1, b2 := HexValue(p0), HexValue(p1), HexValue(p2);
    ByteHexOfPair(p0);
    ByteHexOfPair(p1);
    ByteHexOfPair(p2);
    calc {
      LightenedChannels(hex, 0);
    == { ChannelsOfColour(hex, 0); }
      Channels(Clamp(ByteAt(hex, 0) + 0), Clamp(ByteAt(hex, 1) + 0), Clamp(ByteAt(hex, 2) + 0));
      Channels(b0, b1, b2);
    }
  }

  lemma LowerPieces(s: string, a: string, b: string, c: string)
    requires s == "#" + a + b + c
    ensures ToLower(s) == "#" + ToLower(a) + ToLower(b) + ToLower(c)
  {
  }

  /** The result of lightening a six-digit colour reads back as the clamped
      channels: lightening it again by nothing recovers them, and leaves the
      string as it is. */
  lemma LightenedColourReadsBack(hex: string, amt: int)
    requires IsSixDigitColour(hex) && amt >= 0
    ensures var r := LightenHexColor(hex, amt);
            && IsSixDigitColour(r)
            && LightenedChannels(r, 0) == LightenedChannels(hex, amt)
            && LightenHexColor(r, 0) == r
  {
    LightenSixDigitColour(hex, amt);
    ChannelsOfColour(hex, amt);
    var c := LightenedChannels(hex, amt);
    var r := LightenHexColor(hex, amt);
    ReadBack(r, c);
    LightenByZero(r);
    LowerColourUnchanged(r);
  }

  /** A colour spelled from three bytes reads back as those bytes. */
  lemma ReadBack(r: string, c: Channels)
    requires 0 <= c.high <= 255 && 0 <= c.middle <= 255 && 0 <= c.low <= 255
    requires r == "#" + ByteHex(c.high) + ByteHex(c.middle) + ByteHex(c.low)
    ensures IsSixDigitColour(r)
    ensures LightenedChannels(r, 0) == c
  {
    HexValueOfByteHex(c.high);
    HexValueOfByteHex(c.middle);
    HexValueOfByteHex(c.low);
    assert r[1..3] == ByteHex(c.high) && r[3..5] == ByteHex(c.middle) && r[5..7] == ByteHex(c.low);
    assert IsSixDigitColour(r) by {
      forall i | 0 <= i < 6 ensures IsHexDigit(r[1..][i]) {
        assert r[1..][i] == r[i + 1];
      }
    }
    ColourPairs(r);
    ChannelsOfColour(r, 0);
  }

  /** Lower case leaves a lower-case colour as it is. */
  lemma LowerColourUnchanged(r: string)
    requires IsLowerSixDigitColour(r)
    ensures ToLower(r) == r
  {
    forall i | 0 <= i < |r| ensures ToLower(r)[i] == r[i] {
      assert i == 0 || IsLowerHexDigit(r[i]);
    }
  }

  /** A larger amount never darkens a channel, and a channel already at 255
      stays at 255. */
  lemma LightenMonotone(hex: string, a1: int, a2: int)
    requires a1 <= a2
    ensures var c1, c2 := LightenedChannels(hex, a1), LightenedChannels(hex, a2);
            && c1.high <= c2.high && c1.middle <= c2.middle && c1.low <= c2.low
            && (c1.high == 255 ==> c2.high == 255)
            && (c1.middle == 255 ==> c2.middle == 255)
            && (c1.low == 255 ==> c2.low == 255)
  {
  }
}
