/**
 * The two dashboard aggregates: the expenses of one period (a `YYYY-MM`
 * prefix of the date) summed per day, sorted by day, and summed per
 * category, in the order a JavaScript object lists its keys. Amounts are
 * read by a parameter standing for `parseFloat`.
 */
module TransformData {
  import opened JsString
  import opened Types

  /** A (key, total) entry of the object the reductions build. */
  type Group = (string, int)

  function Keys(gs: seq<Group>): (ks: seq<string>)
    ensures |ks| == |gs|
    ensures forall i :: 0 <= i < |gs| ==> ks[i] == gs[i].0
  {
    seq(|gs|, i requires 0 <= i < |gs| => gs[i].0)
  }

  /** The amounts recorded under `key`, added up. */
  function SumFor(gs: seq<Group>, key: string): int
    decreases |gs|
  {
    if |gs| == 0 then 0
    else (if gs[0].0 == key then gs[0].1 else 0) + SumFor(gs[1..], key)
  }

  /** All amounts, added up. */
  function SumAll(gs: seq<Group>): int
    decreases |gs|
  {
    if |gs| == 0 then 0 else gs[0].1 + SumAll(gs[1..])
  }

  predicate DistinctKeys(gs: seq<Group>) {
    forall i, j :: 0 <= i < j < |gs| ==> gs[i].0 != gs[j].0
  }

  lemma {:induction false} SumForAppend(a: seq<Group>, b: seq<Group>, key: string)
    ensures SumFor(a + b, key) == SumFor(a, key) + SumFor(b, key)
    decreases |a|
  {
    if |a| == 0 {
      assert a + b == b;
    } else {
      assert (a + b)[1..] == a[1..] + b;
      SumForAppend(a[1..], b, key);
    }
  }

  lemma {:induction false} SumAllAppend(a: seq<Group>, b: seq<Group>)
    ensures SumAll(a + b) == SumAll(a) + SumAll(b)
    decreases |a|
  {
    if |a| == 0 {
      assert a + b == b;
    } else {
      assert (a + b)[1..] == a[1..] + b;
      SumAllAppend(a[1..], b);
    }
  }

  /** With distinct keys, the total recorded under an entry's key is that
      entry's amount: one bucket per key. */
  lemma {:induction false} SumForDistinct(gs: seq<Group>, i: int)
    requires DistinctKeys(gs)
    requires 0 <= i < |gs|
    ensures SumFor(gs, gs[i].0) == gs[i].1
    decreases |gs|
  {
    if i == 0 {
      SumForAbsent(gs[1..], gs[0].0);
    } else {
      SumForDistinct(gs[1..], i - 1);
    }
  }

  /** Nothing is recorded under a key without an entry. */
  lemma {:induction false} SumForAbsent(gs: seq<Group>, key: string)
    requires forall i :: 0 <= i < |gs| ==> gs[i].0 != key
    ensures SumFor(gs, key) == 0
    decreases |gs|
  {
    if |gs| > 0 {
      SumForAbsent(gs[1..], key);
    }
  }

  /** Changing one entry's amount moves its key's total and the grand total
      by the difference, and no other key's total. */
  lemma {:induction false} SumsAfterUpdate(gs: seq<Group>, i: int, amount: int, key: string)
    requires 0 <= i < |gs|
    ensures var r := gs[i := (gs[i].0, amount)];
            && SumFor(r, key) == SumFor(gs, key) + (if gs[i].0 == key then amount - gs[i].1 else 0)
            && SumAll(r) == SumAll(gs) + amount - gs[i].1
    decreases |gs|
  {
    var r := gs[i := (gs[i].0, amount)];
    if i > 0 {
      assert r[1..] == gs[1..][i - 1 := (gs[i].0, amount)];
      SumsAfterUpdate(gs[1..], i - 1, amount, key);
    } else {
      assert r[1..] == gs[1..];
    }
  }

  /** Position of the entry with key `key`. */
  function IndexOfKey(gs: seq<Group>, key: string): (i: nat)
    requires key in Keys(gs)
    ensures i < |gs| && gs[i].0 == key
    decreases |gs|
  {
    if gs[0].0 == key then 0
    else
      assert key in Keys(gs[1..]) by {
        var j :| 0 <= j < |gs| && Keys(gs)[j] == key;
        assert Keys(gs[1..])[j - 1] == key;
      }
      1 + IndexOfKey(gs[1..], key)
  }

  /** One step of the reductions, `acc[key] = (acc[key] || 0) + amount`: the
      entry for `key` grows by `amount`, or a new entry goes at the end. */
  function AddTo(acc: seq<Group>, key: string, amount: int): (r: seq<Group>)
    requires DistinctKeys(acc)
    ensures DistinctKeys(r)
    ensures key in Keys(acc) ==> Keys(r) == Keys(acc)
    ensures key !in Keys(acc) ==> Keys(r) == Keys(acc) + [key]
    ensures forall k :: SumFor(r, k) == SumFor(acc, k) + (if k == key then amount else 0)
    ensures SumAll(r) == SumAll(acc) + amount
  {
    if key in Keys(acc) then
      var i := IndexOfKey(acc, key);
      var r := acc[i := (key, acc[i].1 + amount)];
      assert Keys(r) == Keys(acc);
      forall k ensures SumFor(r, k) == SumFor(acc, k) + (if k == key then amount else 0) {
        SumsAfterUpdate(acc, i, acc[i].1 + amount, k);
      }
      SumsAfterUpdate(acc, i, acc[i].1 + amount, key);
      r
    else
      var r := acc + [(key, amount)];
      assert Keys(r) == Keys(acc) + [key];
      assert DistinctKeys(r) by {
        forall i | 0 <= i < |acc| ensures acc[i].0 != key {
          assert Keys(acc)[i] == acc[i].0;
        }
      }
      forall k ensures SumFor(r, k) == SumFor(acc, k) + (if k == key then amount else 0) {
        SumForAppend(acc, [(key, amount)], k);
        assert [(key, amount)][1..] == [];
      }
      SumAllAppend(acc, [(key, amount)]);
      assert [(key, amount)][1..] == [];
      r
  }

  /** The `reduce` both aggregates perform, from the left, into an object
      whose keys keep their insertion order. */
  function Accumulate(pairs: seq<Group>): (r: seq<Group>)
    ensures DistinctKeys(r)
    decreases |pairs|
  {
    if |pairs| == 0 then []
    else
      var last := pairs[|pairs| - 1];
      AddTo(Accumulate(pairs[..|pairs| - 1]), last.0, last.1)
  }

  /** The reduction has one entry per distinct key of its input, the entry
      for a key holds that key's total, and no amount is lost or added. */
  lemma {:induction false} AccumulateSums(pairs: seq<Group>)
    ensures forall k :: k in Keys(Accumulate(pairs)) <==> k in Keys(pairs)
    ensures forall k :: SumFor(Accumulate(pairs), k) == SumFor(pairs, k)
    ensures SumAll(Accumulate(pairs)) == SumAll(pairs)
    decreases |pairs|
  {
    if |pairs| > 0 {
      var init := pairs[..|pairs| - 1];
      var last := pairs[|pairs| - 1];
      AccumulateSums(init);
      assert pairs == init + [last];
      assert Keys(pairs) == Keys(init) + [last.0];
      forall k ensures SumFor(pairs, k) == SumFor(init, k) + (if k == last.0 then last.1 else 0) {
        SumForAppend(init, [last], k);
        assert [last][1..] == [];
      }
      SumAllAppend(init, [last]);
      assert [last][1..] == [];
    }
  }

  // ---------------------------------------------------------------------------
  // Insertion order
  // ---------------------------------------------------------------------------

  /** Position of the first occurrence of `k` in `ks`. */
  function FirstIndex(ks: seq<string>, k: string): (i: nat)
    requires k in ks
    ensures i < |ks| && ks[i] == k
    ensures forall j :: 0 <= j < i ==> ks[j] != k
    decreases |ks|
  {
    if ks[0] == k then 0 else 1 + FirstIndex(ks[1..], k)
  }

  /** `a` and `b` both occur in `ks`, and `a` first occurs earlier. */
  predicate Precedes(ks: seq<string>, a: string, b: string) {
    a in ks && b in ks && FirstIndex(ks, a) < FirstIndex(ks, b)
  }

  /** `keys` lists keys of `ks` by the position of their first occurrence. */
  predicate InFirstAppearanceOrder(keys: seq<string>, ks: seq<string>) {
    forall i, j :: 0 <= i < j < |keys| ==> Precedes(ks, keys[i], keys[j])
  }

  lemma FirstIndexExtend(ks: seq<string>, x: string, k: string)
    requires k in ks
    ensures FirstIndex(ks + [x], k) == FirstIndex(ks, k)
  {
    var i := FirstIndex(ks, k);
    var l := FirstIndex(ks + [x], k);
    assert (ks + [x])[i] == k;
  }

  /** The reduction lists its keys in the order they first occur in the
      input, which is the order a JavaScript object keeps its (non-index)
      keys in. */
  lemma {:induction false} AccumulateOrder(pairs: seq<Group>)
    ensures InFirstAppearanceOrder(Keys(Accumulate(pairs)), Keys(pairs))
    decreases |pairs|
  {
    if |pairs| > 0 {
      var init := pairs[..|pairs| - 1];
      var last := pairs[|pairs| - 1];
      var before := Keys(Accumulate(init));
      AccumulateOrder(init);
      AccumulateSums(init);
      assert Keys(pairs) == Keys(init) + [last.0];
      forall i | 0 <= i < |before| ensures before[i] in Keys(init) {
        assert before[i] in before;
      }
      if last.0 in before {
        OrderExtendsInput(before, Keys(init), last.0);
      } else {
        OrderAppendsNew(before, Keys(init), last.0);
      }
    }
  }

  /** Keys in first-appearance order stay so when the input grows. */
  lemma OrderExtendsInput(keys: seq<string>, ks: seq<string>, x: string)
    requires InFirstAppearanceOrder(keys, ks)
    requires forall i :: 0 <= i < |keys| ==> keys[i] in ks
    ensures InFirstAppearanceOrder(keys, ks + [x])
  {
    forall i, j | 0 <= i < j < |keys|
      ensures Precedes(ks + [x], keys[i], keys[j])
    {
      FirstIndexExtend(ks, x, keys[i]);
      FirstIndexExtend(ks, x, keys[j]);
    }
  }

  /** A key new to the input goes last in both. */
  lemma OrderAppendsNew(keys: seq<string>, ks: seq<string>, x: string)
    requires InFirstAppearanceOrder(keys, ks)
    requires forall i :: 0 <= i < |keys| ==> keys[i] in ks
    requires x !in ks
    ensures InFirstAppearanceOrder(keys + [x], ks + [x])
  {
    var e := ks + [x];
    assert FirstIndex(e, x) == |ks| by {
      assert e[|ks|] == x;
    }
    OrderExtendsInput(keys, ks, x);
    var all := keys + [x];
    forall i, j | 0 <= i < j < |all|
      ensures Precedes(e, all[i], all[j])
    {
      assert all[i] == keys[i];
      if j < |keys| {
        assert all[j] == keys[j];
      } else {
        FirstIndexExtend(ks, x, keys[i]);
      }
    }
  }

  // ---------------------------------------------------------------------------
  // Key orders and sorting
  // ---------------------------------------------------------------------------

  /** Lexicographic order by code point: a proper prefix comes first. */
  predicate KeyLess(a: string, b: string)
    decreases |a|
  {
    |b| > 0 && (|a| == 0 || a[0] < b[0] || (a[0] == b[0] && KeyLess(a[1..], b[1..])))
  }

  lemma {:induction false} KeyLessIrreflexive(a: string)
    ensures !KeyLess(a, a)
    decreases |a|
  {
    if |a| > 0 {
      KeyLessIrreflexive(a[1..]);
    }
  }

  lemma {:induction false} KeyLessTransitive(a: string, b: string, c: string)
    requires KeyLess(a, b) && KeyLess(b, c)
    ensures KeyLess(a, c)
    decreases |a|
  {
    if |a| > 0 && a[0] == b[0] && b[0] == c[0] {
      KeyLessTransitive(a[1..], b[1..], c[1..]);
    }
  }

  lemma {:induction false} KeyLessTotal(a: string, b: string)
    ensures a == b || KeyLess(a, b) || KeyLess(b, a)
    decreases |a|
  {
    if |a| > 0 && |b| > 0 && a[0] == b[0] {
      KeyLessTotal(a[1..], b[1..]);
      if a[1..] == b[1..] {
        assert a == [a[0]] + a[1..] && b == [b[0]] + b[1..];
      }
    }
  }

  /** The two orders the aggregates sort keys by: code-point order for the
      period keys, and the order of array-index keys, which is numeric order
      and, for canonical numerals, shorter first and then code-point order. */
  datatype KeyOrder = CodePoint | IndexOrder

  predicate Before(order: KeyOrder, a: string, b: string) {
    match order
    case CodePoint => KeyLess(a, b)
    case IndexOrder => |a| < |b| || (|a| == |b| && KeyLess(a, b))
  }

  /** Both orders are strict total orders. */
  lemma BeforeStrictTotal(order: KeyOrder, a: string, b: string, c: string)
    ensures !Before(order, a, a)
    ensures a == b || Before(order, a, b) || Before(order, b, a)
    ensures Before(order, a, b) && Before(order, b, c) ==> Before(order, a, c)
  {
    KeyLessIrreflexive(a);
    KeyLessTotal(a, b);
    if KeyLess(a, b) && KeyLess(b, c) {
      KeyLessTransitive(a, b, c);
    }
  }

  predicate SortedBy(order: KeyOrder, keys: seq<string>) {
    forall i, j :: 0 <= i < j < |keys| ==> Before(order, keys[i], keys[j])
  }

  /** Keys in strictly increasing order are distinct. */
  lemma SortedDistinct(order: KeyOrder, gs: seq<Group>)
    requires SortedBy(order, Keys(gs))
    ensures DistinctKeys(gs)
  {
    forall i, j | 0 <= i < j < |gs|
      ensures gs[i].0 != gs[j].0
    {
      assert Before(order, Keys(gs)[i], Keys(gs)[j]);
      BeforeStrictTotal(order, gs[i].0, gs[i].0, gs[i].0);
    }
  }

  lemma SortedTail(order: KeyOrder, gs: seq<Group>)
    requires |gs| > 0 && SortedBy(order, Keys(gs))
    ensures SortedBy(order, Keys(gs[1..]))
    ensures forall x :: x in Keys(gs[1..]) ==> Before(order, gs[0].0, x)
  {
    forall i, j | 0 <= i < j < |gs| - 1
      ensures Before(order, Keys(gs[1..])[i], Keys(gs[1..])[j])
    {
      assert Keys(gs)[i + 1] == Keys(gs[1..])[i] && Keys(gs)[j + 1] == Keys(gs[1..])[j];
    }
    forall x | x in Keys(gs[1..])
      ensures Before(order, gs[0].0, x)
    {
      var i :| 0 <= i < |gs| - 1 && Keys(gs[1..])[i] == x;
      assert Keys(gs)[0] == gs[0].0 && Keys(gs)[i + 1] == x;
    }
  }

  /** A key before every key of a sorted sequence can go in front. */
  lemma SortedCons(order: KeyOrder, g: Group, gs: seq<Group>)
    requires SortedBy(order, Keys(gs))
    requires forall x :: x in Keys(gs) ==> Before(order, g.0, x)
    ensures SortedBy(order, Keys([g] + gs))
  {
    var r := [g] + gs;
    forall i, j | 0 <= i < j < |r|
      ensures Before(order, Keys(r)[i], Keys(r)[j])
    {
      if i == 0 {
        assert Keys(r)[j] == Keys(gs)[j - 1];
      } else {
        assert Keys(r)[i] == Keys(gs)[i - 1] && Keys(r)[j] == Keys(gs)[j - 1];
      }
    }
  }

  /** Puts `g` in its place among entries sorted by key. */
  function Insert(order: KeyOrder, g: Group, gs: seq<Group>): (r: seq<Group>)
    requires SortedBy(order, Keys(gs))
    requires g.0 !in Keys(gs)
    ensures SortedBy(order, Keys(r))
    ensures multiset(r) == multiset(gs) + multiset{g}
    ensures forall k :: SumFor(r, k) == SumFor(gs, k) + (if g.0 == k then g.1 else 0)
    ensures SumAll(r) == SumAll(gs) + g.1
    decreases |gs|
  {
    if |gs| == 0 then
      SortedCons(order, g, gs);
      [g]
    else if Before(order, g.0, gs[0].0) then
      InsertInFront(order, g, gs);
      [g] + gs
    else
      InsertBehindTail(order, g, gs);
      var rest := Insert(order, g, gs[1..]);
      InsertBehind(order, g, gs, rest);
      [gs[0]] + rest
  }

  /** A key before the first of a sorted sequence goes in front. */
  lemma InsertInFront(order: KeyOrder, g: Group, gs: seq<Group>)
    requires |gs| > 0 && SortedBy(order, Keys(gs)) && Before(order, g.0, gs[0].0)
    ensures SortedBy(order, Keys([g] + gs))
    ensures ([g] + gs)[1..] == gs
  {
    SortedTail(order, gs);
    forall x | x in Keys(gs) ensures Before(order, g.0, x) {
      if x != gs[0].0 {
        BeforeStrictTotal(order, g.0, gs[0].0, x);
      }
    }
    SortedCons(order, g, gs);
  }

  /** A new key not before the first goes somewhere in the rest. */
  lemma InsertBehindTail(order: KeyOrder, g: Group, gs: seq<Group>)
    requires |gs| > 0 && SortedBy(order, Keys(gs)) && g.0 !in Keys(gs)
    requires !Before(order, g.0, gs[0].0)
    ensures SortedBy(order, Keys(gs[1..])) && g.0 !in Keys(gs[1..])
    ensures Before(order, gs[0].0, g.0)
  {
    assert Keys(gs)[0] == gs[0].0;
    BeforeStrictTotal(order, g.0, gs[0].0, g.0);
    SortedTail(order, gs);
    forall l | 0 <= l < |gs| - 1 ensures Keys(gs[1..])[l] != g.0 {
      assert Keys(gs[1..])[l] == Keys(gs)[l + 1];
    }
  }

  /** The first entry stays in front of the rest with `g` inserted. */
  lemma InsertBehind(order: KeyOrder, g: Group, gs: seq<Group>, rest: seq<Group>)
    requires |gs| > 0 && SortedBy(order, Keys(gs))
    requires Before(order, gs[0].0, g.0)
    requires SortedBy(order, Keys(rest)) && multiset(rest) == multiset(gs[1..]) + multiset{g}
    ensures SortedBy(order, Keys([gs[0]] + rest))
    ensures ([gs[0]] + rest)[1..] == rest && gs == [gs[0]] + gs[1..]
  {
    SortedTail(order, gs);
    forall x | x in Keys(rest) ensures Before(order, gs[0].0, x) {
      var i :| 0 <= i < |rest| && Keys(rest)[i] == x;
      assert rest[i] in multiset(rest);
      if rest[i] != g {
        assert rest[i] in multiset(gs[1..]);
        var l :| 0 <= l < |gs| - 1 && gs[1..][l] == rest[i];
        assert Keys(gs[1..])[l] == x;
      }
    }
    SortedCons(order, gs[0], rest);
  }

  /** Rearranging entries keeps the set of keys. */
  lemma PermutationKeys(a: seq<Group>, b: seq<Group>, k: string)
    requires multiset(a) == multiset(b)
    ensures k in Keys(a) <==> k in Keys(b)
  {
    if k in Keys(a) {
      var i :| 0 <= i < |a| && Keys(a)[i] == k;
      assert a[i] in multiset(b);
      var l :| 0 <= l < |b| && b[l] == a[i];
      assert Keys(b)[l] == k;
    }
    if k in Keys(b) {
      var i :| 0 <= i < |b| && Keys(b)[i] == k;
      assert b[i] in multiset(a);
      var l :| 0 <= l < |a| && a[l] == b[i];
      assert Keys(a)[l] == k;
    }
  }

  lemma DistinctHead(gs: seq<Group>)
    requires |gs| > 0 && DistinctKeys(gs)
    ensures gs[0].0 !in Keys(gs[1..])
    ensures DistinctKeys(gs[1..])
  {
    forall i | 0 <= i < |gs| - 1
      ensures Keys(gs[1..])[i] != gs[0].0
    {
      assert Keys(gs[1..])[i] == gs[i + 1].0;
    }
  }

  /** Insertion sort by key; the keys must be distinct, as an object's are. */
  function SortBy(order: KeyOrder, gs: seq<Group>): (r: seq<Group>)
    requires DistinctKeys(gs)
    ensures SortedBy(order, Keys(r))
    ensures multiset(r) == multiset(gs)
    ensures forall k :: SumFor(r, k) == SumFor(gs, k)
    ensures SumAll(r) == SumAll(gs)
    decreases |gs|
  {
    if |gs| == 0 then []
    else
      DistinctHead(gs);
      var rest := SortBy(order, gs[1..]);
      PermutationKeys(rest, gs[1..], gs[0].0);
      var r := Insert(order, gs[0], rest);
      SortStep(gs, rest, r);
      r
  }

  lemma SortStep(gs: seq<Group>, rest: seq<Group>, r: seq<Group>)
    requires |gs| > 0
    requires multiset(rest) == multiset(gs[1..]) && multiset(r) == multiset(rest) + multiset{gs[0]}
    requires forall k :: SumFor(rest, k) == SumFor(gs[1..], k)
    requires forall k :: SumFor(r, k) == SumFor(rest, k) + (if gs[0].0 == k then gs[0].1 else 0)
    requires SumAll(rest) == SumAll(gs[1..]) && SumAll(r) == SumAll(rest) + gs[0].1
    ensures multiset(r) == multiset(gs)
    ensures forall k :: SumFor(r, k) == SumFor(gs, k)
    ensures SumAll(r) == SumAll(gs)
  {
    MultisetOfHead(gs);
    SumForOfHead(gs);
  }

  lemma MultisetOfHead(gs: seq<Group>)
    requires |gs| > 0
    ensures multiset(gs) == multiset(gs[1..]) + multiset{gs[0]}
  {
    assert gs == [gs[0]] + gs[1..];
  }

  lemma SumForOfHead(gs: seq<Group>)
    requires |gs| > 0
    ensures forall k :: SumFor(gs, k) == (if gs[0].0 == k then gs[0].1 else 0) + SumFor(gs[1..], k)
  {
  }

  // ---------------------------------------------------------------------------
  // Object key order
  // ---------------------------------------------------------------------------

  /** A key `Object.entries` lists first: a canonical decimal numeral below
      2^32 - 1. */
  predicate IsArrayIndex(k: string) {
    && |k| >= 1 && AllDigits(k) && (k[0] != '0' || |k| == 1)
    && DecimalValue(k) < 0xFFFF_FFFF
  }

  /** For array-index keys the index order is numeric order. */
  lemma IndexOrderIsNumeric(a: string, b: string)
    requires IsArrayIndex(a) && IsArrayIndex(b)
    ensures Before(IndexOrder, a, b) <==> DecimalValue(a) < DecimalValue(b)
  {
    if |a| < |b| {
      DecimalValueBound(a);
      DecimalValueLeading(b);
      Pow10Monotone(|a|, |b| - 1);
    } else if |b| < |a| {
      DecimalValueBound(b);
      DecimalValueLeading(a);
      Pow10Monotone(|b|, |a| - 1);
    } else {
      SameLengthNumerals(a, b);
      SameLengthNumerals(b, a);
      KeyLessTotal(a, b);
    }
  }

  /** Numerals of one length compare as their values do. */
  lemma {:induction false} SameLengthNumerals(a: string, b: string)
    requires AllDigits(a) && AllDigits(b) && |a| == |b|
    ensures KeyLess(a, b) ==> DecimalValue(a) < DecimalValue(b)
    decreases |a|
  {
    if |a| > 0 && KeyLess(a, b) {
      DecimalValueFront(a);
      DecimalValueFront(b);
      var p := Pow10(|a| - 1);
      if a[0] < b[0] {
        DecimalValueBound(a[1..]);
        assert DigitValue(a[0]) < DigitValue(b[0]);
        LeadingDigitDecides(DigitValue(a[0]), DigitValue(b[0]), p, DecimalValue(a[1..]), DecimalValue(b[1..]));
      } else {
        SameLengthNumerals(a[1..], b[1..]);
      }
    }
  }

  lemma LeadingDigitDecides(x: nat, y: nat, p: nat, rx: nat, ry: nat)
    requires x < y && rx < p
    ensures x * p + rx < y * p + ry
  {
    assert (x + 1) * p == x * p + p;
    assert (x + 1) * p <= y * p;
  }

  /** The entries whose key is (`index`) or is not (`!index`) an array index,
      in their original order. */
  function EntriesWhere(gs: seq<Group>, index: bool): (r: seq<Group>)
    ensures forall i :: 0 <= i < |r| ==> IsArrayIndex(r[i].0) == index
    decreases |gs|
  {
    if |gs| == 0 then []
    else (if IsArrayIndex(gs[0].0) == index then [gs[0]] else []) + EntriesWhere(gs[1..], index)
  }

  /** A part holds exactly the entries of its kind. */
  lemma {:induction false} EntriesWhereMembers(gs: seq<Group>, index: bool, x: Group)
    ensures x in EntriesWhere(gs, index) <==> x in gs && IsArrayIndex(x.0) == index
    decreases |gs|
  {
    if |gs| > 0 {
      EntriesWhereMembers(gs[1..], index, x);
      assert gs == [gs[0]] + gs[1..];
    }
  }

  /** The two parts together are a rearrangement of all entries. */
  lemma {:induction false} EntriesPartition(gs: seq<Group>)
    ensures multiset(EntriesWhere(gs, true)) + multiset(EntriesWhere(gs, false)) == multiset(gs)
    decreases |gs|
  {
    if |gs| > 0 {
      var g, tail := gs[0], gs[1..];
      var t, f := EntriesWhere(tail, true), EntriesWhere(tail, false);
      EntriesPartition(tail);
      assert multiset(gs) == multiset{g} + multiset(tail) by {
        assert gs == [g] + tail;
      }
      if IsArrayIndex(g.0) {
        assert EntriesWhere(gs, true) == [g] + t;
        assert multiset([g] + t) == multiset{g} + multiset(t);
      } else {
        assert EntriesWhere(gs, false) == [g] + f;
        assert multiset([g] + f) == multiset{g} + multiset(f);
      }
    }
  }

  /** The two parts together have the totals of all entries. */
  lemma {:induction false} EntriesPartitionSums(gs: seq<Group>, k: string)
    ensures SumFor(EntriesWhere(gs, true), k) + SumFor(EntriesWhere(gs, false), k) == SumFor(gs, k)
    ensures SumAll(EntriesWhere(gs, true)) + SumAll(EntriesWhere(gs, false)) == SumAll(gs)
    decreases |gs|
  {
    if |gs| > 0 {
      var g, tail := gs[0], gs[1..];
      var t, f := EntriesWhere(tail, true), EntriesWhere(tail, false);
      EntriesPartitionSums(tail, k);
      if IsArrayIndex(g.0) {
        assert EntriesWhere(gs, true) == [g] + t;
        assert EntriesWhere(gs, false) == [] + f == f;
        assert ([g] + t)[0] == g && ([g] + t)[1..] == t;
      } else {
        assert EntriesWhere(gs, true) == [] + t == t;
        assert EntriesWhere(gs, false) == [g] + f;
        assert ([g] + f)[0] == g && ([g] + f)[1..] == f;
      }
    }
  }

  /** Taking a part keeps distinct keys and first-appearance order. */
  lemma EntriesWhereKeeps(gs: seq<Group>, index: bool, ks: seq<string>)
    ensures DistinctKeys(gs) ==> DistinctKeys(EntriesWhere(gs, index))
    ensures InFirstAppearanceOrder(Keys(gs), ks) ==> InFirstAppearanceOrder(Keys(EntriesWhere(gs, index)), ks)
  {
    EntriesWhereDistinct(gs, index);
    EntriesWhereOrdered(gs, index, ks);
  }

  lemma {:induction false} EntriesWhereDistinct(gs: seq<Group>, index: bool)
    ensures DistinctKeys(gs) ==> DistinctKeys(EntriesWhere(gs, index))
    decreases |gs|
  {
    if |gs| > 0 {
      var rest := EntriesWhere(gs[1..], index);
      EntriesWhereDistinct(gs[1..], index);
      if DistinctKeys(gs) {
        DistinctHead(gs);
      }
      if IsArrayIndex(gs[0].0) == index {
        assert EntriesWhere(gs, index) == [gs[0]] + rest;
        PrependDistinct(gs, rest, index);
      } else {
        assert EntriesWhere(gs, index) == rest;
      }
    }
  }

  lemma {:induction false} EntriesWhereOrdered(gs: seq<Group>, index: bool, ks: seq<string>)
    ensures InFirstAppearanceOrder(Keys(gs), ks) ==> InFirstAppearanceOrder(Keys(EntriesWhere(gs, index)), ks)
    decreases |gs|
  {
    if |gs| > 0 {
      var rest := EntriesWhere(gs[1..], index);
      EntriesWhereOrdered(gs[1..], index, ks);
      if InFirstAppearanceOrder(Keys(gs), ks) {
        OrderTail(Keys(gs), ks);
        assert Keys(gs[1..]) == Keys(gs)[1..];
      }
      if IsArrayIndex(gs[0].0) == index {
        assert EntriesWhere(gs, index) == [gs[0]] + rest;
        PrependOrder(gs, rest, index, ks);
      } else {
        assert EntriesWhere(gs, index) == rest;
      }
    }
  }

  /** An entry of the part of the tail is an entry of the tail. */
  lemma PartFromTail(gs: seq<Group>, index: bool, x: Group) returns (l: int)
    requires |gs| > 0 && x in EntriesWhere(gs[1..], index)
    ensures 1 <= l < |gs| && gs[l] == x
  {
    EntriesWhereMembers(gs[1..], index, x);
    var m :| 0 <= m < |gs| - 1 && gs[1..][m] == x;
    l := m + 1;
  }

  /** Helper for `EntriesWhereKeeps`: the head keeps keys distinct. */
  lemma PrependDistinct(gs: seq<Group>, rest: seq<Group>, index: bool)
    requires |gs| > 0 && rest == EntriesWhere(gs[1..], index)
    requires DistinctKeys(gs) ==> DistinctKeys(rest)
    ensures DistinctKeys(gs) ==> DistinctKeys([gs[0]] + rest)
  {
    var r := [gs[0]] + rest;
    if DistinctKeys(gs) {
      forall i, j | 0 <= i < j < |r| ensures r[i].0 != r[j].0 {
        if i == 0 {
          assert r[j] == rest[j - 1];
          var l := PartFromTail(gs, index, rest[j - 1]);
        } else {
          assert r[i] == rest[i - 1] && r[j] == rest[j - 1];
        }
      }
    }
  }

  /** Helper for `EntriesWhereKeeps`: the head keeps first-appearance order. */
  lemma PrependOrder(gs: seq<Group>, rest: seq<Group>, index: bool, ks: seq<string>)
    requires |gs| > 0 && rest == EntriesWhere(gs[1..], index)
    requires InFirstAppearanceOrder(Keys(gs), ks) ==> InFirstAppearanceOrder(Keys(rest), ks)
    ensures InFirstAppearanceOrder(Keys(gs), ks) ==> InFirstAppearanceOrder(Keys([gs[0]] + rest), ks)
  {
    if InFirstAppearanceOrder(Keys(gs), ks) {
      var kg, kr := Keys(gs), Keys(rest);
      assert Keys([gs[0]] + rest) == [kg[0]] + kr;
      forall j | 0 <= j < |kr|
        ensures Precedes(ks, kg[0], kr[j])
      {
        var l := PartFromTail(gs, index, rest[j]);
        assert kg[l] == kr[j];
        OrderAt(kg, ks, 0, l);
      }
      PrependKeyOrder(kg[0], kr, ks);
    }
  }

  /** A key placed before keys that all occur later keeps the order. */
  lemma PrependKeyOrder(k: string, kr: seq<string>, ks: seq<string>)
    requires InFirstAppearanceOrder(kr, ks)
    requires forall j :: 0 <= j < |kr| ==> Precedes(ks, k, kr[j])
    ensures InFirstAppearanceOrder([k] + kr, ks)
  {
    var keys := [k] + kr;
    forall i, j | 0 <= i < j < |keys|
      ensures Precedes(ks, keys[i], keys[j])
    {
      assert keys[j] == kr[j - 1];
      if i > 0 {
        assert keys[i] == kr[i - 1];
        OrderAt(kr, ks, i - 1, j - 1);
      } else {
        assert keys[i] == k;
        assert Precedes(ks, k, kr[j - 1]);
      }
    }
  }

  lemma OrderTail(keys: seq<string>, ks: seq<string>)
    requires |keys| > 0 && InFirstAppearanceOrder(keys, ks)
    ensures InFirstAppearanceOrder(keys[1..], ks)
  {
    var t := keys[1..];
    forall i, j | 0 <= i < j < |t|
      ensures Precedes(ks, t[i], t[j])
    {
      assert t[i] == keys[i + 1] && t[j] == keys[j + 1];
      OrderAt(keys, ks, i + 1, j + 1);
    }
    assert InFirstAppearanceOrder(t, ks);
  }

  /** One instance of the order. */
  lemma OrderAt(keys: seq<string>, ks: seq<string>, i: int, j: int)
    requires InFirstAppearanceOrder(keys, ks) && 0 <= i < j < |keys|
    ensures Precedes(ks, keys[i], keys[j])
  {
  }

  /** `Object.entries` of an object built by insertion: the array-index keys
      first, in increasing numeric order, then the other keys in insertion
      order. */
  function ObjectEntries(gs: seq<Group>): (r: seq<Group>)
    requires DistinctKeys(gs)
    ensures multiset(r) == multiset(gs)
    ensures DistinctKeys(r)
    ensures forall k :: SumFor(r, k) == SumFor(gs, k)
    ensures SumAll(r) == SumAll(gs)
    ensures var n := |EntriesWhere(gs, true)|;
            && n <= |r|
            && (forall i :: 0 <= i < n ==> IsArrayIndex(r[i].0))
            && SortedBy(IndexOrder, Keys(r[..n]))
            && r[n..] == EntriesWhere(gs, false)
  {
    EntriesWhereKeeps(gs, true, []);
    EntriesWhereKeeps(gs, false, []);
    var front := SortBy(IndexOrder, EntriesWhere(gs, true));
    var back := EntriesWhere(gs, false);
    ObjectEntriesFacts(gs, front, back);
    ObjectEntriesDistinct(gs, front, back);
    front + back
  }

  /** Helper for `ObjectEntries`: the parts put together keep every entry
      and every total. */
  lemma ObjectEntriesFacts(gs: seq<Group>, front: seq<Group>, back: seq<Group>)
    requires back == EntriesWhere(gs, false)
    requires multiset(front) == multiset(EntriesWhere(gs, true))
    requires forall k :: SumFor(front, k) == SumFor(EntriesWhere(gs, true), k)
    requires SumAll(front) == SumAll(EntriesWhere(gs, true))
    ensures var r := front + back;
            && multiset(r) == multiset(gs)
            && (forall k :: SumFor(r, k) == SumFor(gs, k))
            && SumAll(r) == SumAll(gs)
            && |front| == |EntriesWhere(gs, true)|
            && r[..|front|] == front && r[|front|..] == back
  {
    var r := front + back;
    forall k ensures SumFor(r, k) == SumFor(gs, k) {
      EntriesPartitionSums(gs, k);
      SumForAppend(front, back, k);
    }
    EntriesPartitionSums(gs, "");
    SumAllAppend(front, back);
    EntriesPartition(gs);
    assert |front| == |EntriesWhere(gs, true)| by {
      assert |multiset(front)| == |multiset(EntriesWhere(gs, true))|;
    }
    assert r[..|front|] == front && r[|front|..] == back;
  }

  /** Helper for `ObjectEntries`: index keys in front, the others behind, so
      no key repeats. */
  lemma ObjectEntriesDistinct(gs: seq<Group>, front: seq<Group>, back: seq<Group>)
    requires back == EntriesWhere(gs, false)
    requires DistinctKeys(back)
    requires multiset(front) == multiset(EntriesWhere(gs, true))
    requires SortedBy(IndexOrder, Keys(front))
    ensures forall i :: 0 <= i < |front| ==> IsArrayIndex(front[i].0)
    ensures DistinctKeys(front + back)
  {
    var r := front + back;
    SortedDistinct(IndexOrder, front);
    forall i | 0 <= i < |front|
      ensures IsArrayIndex(front[i].0)
    {
      assert front[i] in multiset(EntriesWhere(gs, true));
      EntriesWhereMembers(gs, true, front[i]);
    }
    forall i, j | 0 <= i < j < |r|
      ensures r[i].0 != r[j].0
    {
      if i < |front| && j >= |front| {
        assert r[i] == front[i] && r[j] == back[j - |front|];
      } else if i >= |front| {
        assert r[i] == back[i - |front|] && r[j] == back[j - |front|];
      } else {
        assert r[i] == front[i] && r[j] == front[j];
      }
    }
  }

  // ---------------------------------------------------------------------------
  // The aggregates
  // ---------------------------------------------------------------------------

  /** The field an aggregate groups by. */
  datatype Field = ByDate | ByCategory

  function FieldOf(e: Expense, field: Field): string {
    match field
    case ByDate => e.date
    case ByCategory => e.category
  }

  /** The expenses whose date starts with the target period, in order. */
  function InPeriod(expenses: seq<Expense>, target: string): (r: seq<Expense>)
    ensures |r| <= |expenses|
    ensures forall i :: 0 <= i < |r| ==> StartsWith(r[i].date, target)
    decreases |expenses|
  {
    if |expenses| == 0 then []
    else
      (if StartsWith(expenses[0].date, target) then [expenses[0]] else [])
      + InPeriod(expenses[1..], target)
  }

  /** The filter keeps exactly the expenses of the period. */
  lemma {:induction false} InPeriodMembers(expenses: seq<Expense>, target: string, e: Expense)
    ensures e in InPeriod(expenses, target) <==> e in expenses && StartsWith(e.date, target)
    decreases |expenses|
  {
    if |expenses| > 0 {
      InPeriodMembers(expenses[1..], target, e);
      assert expenses == [expenses[0]] + expenses[1..];
    }
  }

  /** The (key, amount) pairs the reduction folds, one per expense. */
  function Pairs(expenses: seq<Expense>, field: Field, amountOf: string -> int): (ps: seq<Group>)
    ensures |ps| == |expenses|
    ensures forall i :: 0 <= i < |expenses| ==> ps[i] == (FieldOf(expenses[i], field), amountOf(expenses[i].amount))
  {
    seq(|expenses|, i requires 0 <= i < |expenses| => (FieldOf(expenses[i], field), amountOf(expenses[i].amount)))
  }

  /** The object both aggregates build: the period's expenses added up per
      key, keys in insertion order. */
  function Totals(expenses: seq<Expense>, target: string, field: Field, amountOf: string -> int): (r: seq<Group>)
    ensures DistinctKeys(r)
  {
    Accumulate(Pairs(InPeriod(expenses, target), field, amountOf))
  }

  /** Reference total for one key: the amounts of the expenses of the period
      whose field is `key`. */
  function TotalWhere(expenses: seq<Expense>, target: string, field: Field, amountOf: string -> int, key: string): int
    decreases |expenses|
  {
    if |expenses| == 0 then 0
    else
      var e := expenses[0];
      (if StartsWith(e.date, target) && FieldOf(e, field) == key then amountOf(e.amount) else 0)
      + TotalWhere(expenses[1..], target, field, amountOf, key)
  }

  /** Reference grand total: the amounts of all expenses of the period. */
  function PeriodTotal(expenses: seq<Expense>, target: string, amountOf: string -> int): int
    decreases |expenses|
  {
    if |expenses| == 0 then 0
    else
      var e := expenses[0];
      (if StartsWith(e.date, target) then amountOf(e.amount) else 0)
      + PeriodTotal(expenses[1..], target, amountOf)
  }

  /** Some expense of the period has `key` in the field. */
  predicate Occurs(expenses: seq<Expense>, target: string, field: Field, key: string) {
    exists i :: 0 <= i < |expenses| && StartsWith(expenses[i].date, target) && FieldOf(expenses[i], field) == key
  }

  /** The pairs of the period carry the reference totals. */
  lemma {:induction false} PairsTotals(expenses: seq<Expense>, target: string, field: Field, amountOf: string -> int, key: string)
    ensures SumFor(Pairs(InPeriod(expenses, target), field, amountOf), key)
            == TotalWhere(expenses, target, field, amountOf, key)
    ensures SumAll(Pairs(InPeriod(expenses, target), field, amountOf))
            == PeriodTotal(expenses, target, amountOf)
    decreases |expenses|
  {
    if |expenses| > 0 {
      var e, tail := expenses[0], expenses[1..];
      var rest := Pairs(InPeriod(tail, target), field, amountOf);
      PairsTotals(tail, target, field, amountOf, key);
      if StartsWith(e.date, target) {
        assert InPeriod(expenses, target) == [e] + InPeriod(tail, target);
        var ps := Pairs(InPeriod(expenses, target), field, amountOf);
        assert ps[1..] == rest;
      } else {
        assert InPeriod(expenses, target) == [] + InPeriod(tail, target) == InPeriod(tail, target);
      }
    }
  }

  /** The pairs of the period have exactly the keys that occur in it. */
  lemma PairsKeys(expenses: seq<Expense>, target: string, field: Field, amountOf: string -> int, key: string)
    ensures key in Keys(Pairs(InPeriod(expenses, target), field, amountOf))
            <==> Occurs(expenses, target, field, key)
  {
    var f := InPeriod(expenses, target);
    var ks := Keys(Pairs(f, field, amountOf));
    if key in ks {
      var i :| 0 <= i < |ks| && ks[i] == key;
      InPeriodMembers(expenses, target, f[i]);
      var l :| 0 <= l < |expenses| && expenses[l] == f[i];
      assert StartsWith(expenses[l].date, target) && FieldOf(expenses[l], field) == key;
    }
    if Occurs(expenses, target, field, key) {
      var l :| 0 <= l < |expenses| && StartsWith(expenses[l].date, target) && FieldOf(expenses[l], field) == key;
      InPeriodMembers(expenses, target, expenses[l]);
      var i :| 0 <= i < |f| && f[i] == expenses[l];
      assert ks[i] == key;
    }
  }

  /** The object built from the period: one entry per key occurring in it,
      holding that key's reference total, and nothing lost or added. */
  lemma TotalsSpec(expenses: seq<Expense>, target: string, field: Field, amountOf: string -> int)
    ensures var r := Totals(expenses, target, field, amountOf);
            && (forall k :: k in Keys(r) <==> Occurs(expenses, target, field, k))
            && (forall k :: SumFor(r, k) == TotalWhere(expenses, target, field, amountOf, k))
            && SumAll(r) == PeriodTotal(expenses, target, amountOf)
  {
    var ps := Pairs(InPeriod(expenses, target), field, amountOf);
    AccumulateSums(ps);
    forall k ensures k in Keys(ps) <==> Occurs(expenses, target, field, k) {
      PairsKeys(expenses, target, field, amountOf, k);
    }
    forall k ensures SumFor(ps, k) == TotalWhere(expenses, target, field, amountOf, k) {
      PairsTotals(expenses, target, field, amountOf, k);
    }
    PairsTotals(expenses, target, field, amountOf, "");
  }

  /** A rearrangement of the object's entries keeps those three facts. */
  lemma RearrangedSpec(expenses: seq<Expense>, target: string, field: Field, amountOf: string -> int, r: seq<Group>)
    requires DistinctKeys(r)
    requires multiset(r) == multiset(Totals(expenses, target, field, amountOf))
    requires forall k :: SumFor(r, k) == SumFor(Totals(expenses, target, field, amountOf), k)
    requires SumAll(r) == SumAll(Totals(expenses, target, field, amountOf))
    ensures forall k :: k in Keys(r) <==> Occurs(expenses, target, field, k)
    ensures forall i :: 0 <= i < |r| ==> r[i].1 == TotalWhere(expenses, target, field, amountOf, r[i].0)
    ensures SumAll(r) == PeriodTotal(expenses, target, amountOf)
    ensures |r| == 0 <==> forall i :: 0 <= i < |expenses| ==> !StartsWith(expenses[i].date, target)
  {
    var t := Totals(expenses, target, field, amountOf);
    TotalsSpec(expenses, target, field, amountOf);
    forall k ensures k in Keys(r) <==> Occurs(expenses, target, field, k) {
      PermutationKeys(r, t, k);
    }
    forall i | 0 <= i < |r|
      ensures r[i].1 == TotalWhere(expenses, target, field, amountOf, r[i].0)
    {
      SumForDistinct(r, i);
    }
    if |r| > 0 {
      assert Keys(r)[0] in Keys(r);
      assert Occurs(expenses, target, field, r[0].0);
    }
    if exists i :: 0 <= i < |expenses| && StartsWith(expenses[i].date, target) {
      var i :| 0 <= i < |expenses| && StartsWith(expenses[i].date, target);
      assert Occurs(expenses, target, field, FieldOf(expenses[i], field));
    }
  }

  /** `aggregateExpensesByPeriod`: the expenses whose date starts with the
      target period, added up per date, listed by date in code-point order
      (standing for `localeCompare`). */
  function AggregateExpensesByPeriod(expenses: seq<Expense>, targetPeriod: string, amountOf: string -> int): (r: seq<Group>)
    ensures SortedBy(CodePoint, Keys(r))
  {
    SortBy(CodePoint, ObjectEntries(Totals(expenses, targetPeriod, ByDate, amountOf)))
  }

  /** The period aggregate has one entry per date of the period, each holding
      the total of that date's expenses; the totals add up to the period's,
      and it is empty exactly when no expense falls in the period. */
  lemma AggregateByPeriodSpec(expenses: seq<Expense>, targetPeriod: string, amountOf: string -> int)
    ensures var r := AggregateExpensesByPeriod(expenses, targetPeriod, amountOf);
            && (forall k :: k in Keys(r) <==> Occurs(expenses, targetPeriod, ByDate, k))
            && (forall i :: 0 <= i < |r| ==> r[i].1 == TotalWhere(expenses, targetPeriod, ByDate, amountOf, r[i].0))
            && SumAll(r) == PeriodTotal(expenses, targetPeriod, amountOf)
            && (|r| == 0 <==> forall i :: 0 <= i < |expenses| ==> !StartsWith(expenses[i].date, targetPeriod))
  {
    var r := AggregateExpensesByPeriod(expenses, targetPeriod, amountOf);
    SortedDistinct(CodePoint, r);
    RearrangedSpec(expenses, targetPeriod, ByDate, amountOf, r);
  }

  /** Every key of the period aggregate is a date of the period, so it starts
      with the target period. */
  lemma AggregateByPeriodKeysInPeriod(expenses: seq<Expense>, targetPeriod: string, amountOf: string -> int)
    ensures var r := AggregateExpensesByPeriod(expenses, targetPeriod, amountOf);
            forall i :: 0 <= i < |r| ==> StartsWith(r[i].0, targetPeriod)
  {
    var r := AggregateExpensesByPeriod(expenses, targetPeriod, amountOf);
    AggregateByPeriodSpec(expenses, targetPeriod, amountOf);
    forall i | 0 <= i < |r| ensures StartsWith(r[i].0, targetPeriod) {
      assert Keys(r)[i] in Keys(r);
      var l :| 0 <= l < |expenses| && StartsWith(expenses[l].date, targetPeriod) && expenses[l].date == r[i].0;
    }
  }

  /** `aggregateExpensesByCategory`: the expenses of the period added up per
      category, in the order `Object.entries` lists the object's keys. */
  function AggregateExpensesByCategory(expenses: seq<Expense>, targetPeriod: string, amountOf: string -> int): (r: seq<Group>)
    ensures DistinctKeys(r)
  {
    ObjectEntries(Totals(expenses, targetPeriod, ByCategory, amountOf))
  }

  /** The category aggregate has one entry per category of the period, each
      holding that category's total; the totals add up to the period's. */
  lemma AggregateByCategorySpec(expenses: seq<Expense>, targetPeriod: string, amountOf: string -> int)
    ensures var r := AggregateExpensesByCategory(expenses, targetPeriod, amountOf);
            && (forall k :: k in Keys(r) <==> Occurs(expenses, targetPeriod, ByCategory, k))
            && (forall i :: 0 <= i < |r| ==> r[i].1 == TotalWhere(expenses, targetPeriod, ByCategory, amountOf, r[i].0))
            && SumAll(r) == PeriodTotal(expenses, targetPeriod, amountOf)
            && (|r| == 0 <==> forall i :: 0 <= i < |expenses| ==> !StartsWith(expenses[i].date, targetPeriod))
  {
    var r := AggregateExpensesByCategory(expenses, targetPeriod, amountOf);
    RearrangedSpec(expenses, targetPeriod, ByCategory, amountOf, r);
  }

  /** The categories of the period's expenses, in order. */
  function CategoriesInPeriod(expenses: seq<Expense>, targetPeriod: string): (cs: seq<string>)
    ensures |cs| == |InPeriod(expenses, targetPeriod)|
  {
    var f := InPeriod(expenses, targetPeriod);
    seq(|f|, i requires 0 <= i < |f| => f[i].category)
  }

  /** The category aggregate lists the categories that are array indices
      first, in increasing numeric order, then the other categories in the
      order they first occur among the period's expenses. */
  lemma AggregateByCategoryOrder(expenses: seq<Expense>, targetPeriod: string, amountOf: string -> int)
    ensures var r := AggregateExpensesByCategory(expenses, targetPeriod, amountOf);
            var cs := CategoriesInPeriod(expenses, targetPeriod);
            && (forall i, j :: 0 <= i < j < |r| && IsArrayIndex(r[j].0) ==> IsArrayIndex(r[i].0))
            && (forall i, j :: 0 <= i < j < |r| && IsArrayIndex(r[i].0) && IsArrayIndex(r[j].0)
                  ==> DecimalValue(r[i].0) < DecimalValue(r[j].0))
            && (forall i, j :: 0 <= i < j < |r| && !IsArrayIndex(r[i].0) && !IsArrayIndex(r[j].0)
                  ==> Precedes(cs, r[i].0, r[j].0))
  {
    var t := Totals(expenses, targetPeriod, ByCategory, amountOf);
    var cs := CategoriesInPeriod(expenses, targetPeriod);
    var ps := Pairs(InPeriod(expenses, targetPeriod), ByCategory, amountOf);
    assert Keys(ps) == cs;
    AccumulateOrder(ps);
    EntriesWhereKeeps(t, false, cs);
    ObjectEntriesIndexFirst(t);
    ObjectEntriesIndexNumeric(t);
    ObjectEntriesOthersInOrder(t, cs);
  }

  /** `Object.entries` lists no array-index key after another key. */
  lemma ObjectEntriesIndexFirst(gs: seq<Group>)
    requires DistinctKeys(gs)
    ensures var r := ObjectEntries(gs);
            forall i, j :: 0 <= i < j < |r| && IsArrayIndex(r[j].0) ==> IsArrayIndex(r[i].0)
  {
    var r := ObjectEntries(gs);
    var n := |EntriesWhere(gs, true)|;
    var back := EntriesWhere(gs, false);
    forall m | n <= m < |r|
      ensures !IsArrayIndex(r[m].0)
    {
      assert r[m] == r[n..][m - n] == back[m - n];
    }
  }

  /** `Object.entries` lists the array-index keys in increasing numeric order. */
  lemma ObjectEntriesIndexNumeric(gs: seq<Group>)
    requires DistinctKeys(gs)
    ensures var r := ObjectEntries(gs);
            forall i, j :: 0 <= i < j < |r| && IsArrayIndex(r[i].0) && IsArrayIndex(r[j].0)
              ==> DecimalValue(r[i].0) < DecimalValue(r[j].0)
  {
    var r := ObjectEntries(gs);
    var n := |EntriesWhere(gs, true)|;
    var back := EntriesWhere(gs, false);
    forall m | n <= m < |r|
      ensures !IsArrayIndex(r[m].0)
    {
      assert r[m] == r[n..][m - n] == back[m - n];
    }
    forall i, j | 0 <= i < j < |r| && IsArrayIndex(r[i].0) && IsArrayIndex(r[j].0)
      ensures DecimalValue(r[i].0) < DecimalValue(r[j].0)
    {
      var front := Keys(r[..n]);
      assert front[i] == r[i].0 && front[j] == r[j].0;
      assert Before(IndexOrder, front[i], front[j]);
      IndexOrderIsNumeric(r[i].0, r[j].0);
    }
  }

  /** `Object.entries` lists the other keys in the order of the object's
      entries. */
  lemma ObjectEntriesOthersInOrder(gs: seq<Group>, ks: seq<string>)
    requires DistinctKeys(gs)
    requires InFirstAppearanceOrder(Keys(EntriesWhere(gs, false)), ks)
    ensures var r := ObjectEntries(gs);
            forall i, j :: 0 <= i < j < |r| && !IsArrayIndex(r[i].0) && !IsArrayIndex(r[j].0)
              ==> Precedes(ks, r[i].0, r[j].0)
  {
    var r := ObjectEntries(gs);
    OthersAfterIndices(r, |EntriesWhere(gs, true)|, ks);
  }

  /** Entries after a prefix of array-index keys keep the order of their
      keys among themselves. */
  lemma OthersAfterIndices(r: seq<Group>, n: nat, ks: seq<string>)
    requires n <= |r| && forall i :: 0 <= i < n ==> IsArrayIndex(r[i].0)
    requires InFirstAppearanceOrder(Keys(r[n..]), ks)
    ensures forall i, j :: 0 <= i < j < |r| && !IsArrayIndex(r[i].0) && !IsArrayIndex(r[j].0)
              ==> Precedes(ks, r[i].0, r[j].0)
  {
    var kb := Keys(r[n..]);
    forall i, j | 0 <= i < j < |r| && !IsArrayIndex(r[i].0) && !IsArrayIndex(r[j].0)
      ensures Precedes(ks, r[i].0, r[j].0)
    {
      assert n <= i;
      assert kb[i - n] == r[i].0 && kb[j - n] == r[j].0;
    }
  }
}
