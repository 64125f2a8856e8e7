/**
 * Dates as the pipeline stores them: `YYYY-MM-DD` strings, the output of
 * `pd.to_datetime(...).dt.strftime("%Y-%m-%d")` (src/run_market_ohlcv.py,
 * lines 64, 79 and 94), compared as Python compares strings when the frames
 * are sorted (lines 67 and 108).
 */
module Dates {
  import opened Cells

  // ---------------------------------------------------------------------
  // String order
  // ---------------------------------------------------------------------

  /** Python's `a < b` on strings: lexicographic by code point, a proper prefix first. */
  predicate LexLess(a: string, b: string) {
    if a == [] then b != []
    else if b == [] then false
    else if a[0] != b[0] then a[0] < b[0]
    else LexLess(a[1..], b[1..])
  }

  lemma {:induction false} LexLessIrreflexive(a: string)
    ensures !LexLess(a, a)
  {
    if a != [] {
      LexLessIrreflexive(a[1..]);
    }
  }

  lemma {:induction false} LexLessAsymmetric(a: string, b: string)
    requires LexLess(a, b)
    ensures !LexLess(b, a)
  {
    if a != [] && b != [] && a[0] == b[0] {
      LexLessAsymmetric(a[1..], b[1..]);
    }
  }

  lemma {:induction false} LexLessTransitive(a: string, b: string, c: string)
    requires LexLess(a, b) && LexLess(b, c)
    ensures LexLess(a, c)
  {
    if a != [] && a[0] == b[0] && b[0] == c[0] {
      LexLessTransitive(a[1..], b[1..], c[1..]);
    }
  }

  /** Two different strings are always ordered one way or the other. */
  lemma {:induction false} LexLessTotal(a: string, b: string)
    requires a != b
    ensures LexLess(a, b) || LexLess(b, a)
  {
    if a != [] && b != [] && a[0] == b[0] {
      assert a == [a[0]] + a[1..] && b == [b[0]] + b[1..];
      LexLessTotal(a[1..], b[1..]);
    }
  }

  /** Comparing two concatenations whose first parts have the same length. */
  lemma {:induction false} LexLessAppend(p: string, q: string, p': string, q': string)
    requires |p| == |p'|
    ensures LexLess(p + q, p' + q') <==> LexLess(p, p') || (p == p' && LexLess(q, q'))
  {
    if p == [] {
      assert p + q == q && p' + q' == q';
    } else {
      assert (p + q)[1..] == p[1..] + q && (p' + q')[1..] == p'[1..] + q';
      assert p == [p[0]] + p[1..] && p' == [p'[0]] + p'[1..];
      LexLessAppend(p[1..], q, p'[1..], q');
    }
  }

  lemma LexLessAt(a: string, b: string, k: nat)
    requires k <= |a| && k <= |b|
    ensures LexLess(a, b) <==> LexLess(a[..k], b[..k]) || (a[..k] == b[..k] && LexLess(a[k..], b[k..]))
  {
    assert a == a[..k] + a[k..] && b == b[..k] + b[k..];
    LexLessAppend(a[..k], a[k..], b[..k], b[k..]);
  }

  // ---------------------------------------------------------------------
  // Digit strings of equal length compare as the numbers they denote
  // ---------------------------------------------------------------------

  lemma LeadingDigitGap(x: nat, y: nat, p: nat, u: nat, v: nat)
    requires x < y && u < p
    ensures x * p + u < y * p + v
  {
    MultiplyMonotone(x + 1, y, p);
    assert (x + 1) * p == x * p + p;
  }

  lemma MultiplyMonotone(a: nat, b: nat, p: nat)
    requires a <= b
    ensures a * p <= b * p
  {
    assert b * p == a * p + (b - a) * p;
  }

  lemma {:induction false} DigitsOrder(x: string, y: string)
    requires AllDigits(x) && AllDigits(y) && |x| == |y|
    ensures LexLess(x, y) <==> DigitsValue(x) < DigitsValue(y)
  {
    if x != [] {
      var x', y' := x[1..], y[1..];
      assert x == [x[0]] + x' && y == [y[0]] + y';
      DigitsValueAppend([x[0]], x');
      DigitsValueAppend([y[0]], y');
      var dx, dy := DigitValue(x[0]), DigitValue(y[0]);
      assert DigitsValue([x[0]]) == dx && DigitsValue([y[0]]) == dy;
      var p := Pow10(|x'|);
      DigitsValueBound(x');
      DigitsValueBound(y');
      if dx < dy {
        LeadingDigitGap(dx, dy, p, DigitsValue(x'), DigitsValue(y'));
      } else if dy < dx {
        LeadingDigitGap(dy, dx, p, DigitsValue(y'), DigitsValue(x'));
      } else {
        DigitsOrder(x', y');
      }
    }
  }

  lemma DigitsInjective(x: string, y: string)
    requires AllDigits(x) && AllDigits(y) && |x| == |y|
    requires DigitsValue(x) == DigitsValue(y)
    ensures x == y
  {
    if x != y {
      LexLessTotal(x, y);
      DigitsOrder(x, y);
      DigitsOrder(y, x);
    }
  }

  // ---------------------------------------------------------------------
  // YYYY-MM-DD
  // ---------------------------------------------------------------------

  /** Four digits, a hyphen, two digits, a hyphen, two digits. */
  predicate DateShape(s: string) {
    && |s| == 10
    && AllDigits(s[..4]) && s[4] == '-'
    && AllDigits(s[5..7]) && s[7] == '-'
    && AllDigits(s[8..])
  }

  function Year(s: string): nat
    requires DateShape(s)
  {
    DigitsValue(s[..4])
  }

  function Month(s: string): nat
    requires DateShape(s)
  {
    DigitsValue(s[5..7])
  }

  function Day(s: string): nat
    requires DateShape(s)
  {
    DigitsValue(s[8..])
  }

  predicate IsLeapYear(y: nat) {
    y % 4 == 0 && (y % 100 != 0 || y % 400 == 0)
  }

  function DaysInMonth(y: nat, m: nat): nat
    requires 1 <= m <= 12
  {
    if m == 2 then (if IsLeapYear(y) then 29 else 28)
    else if m == 4 || m == 6 || m == 9 || m == 11 then 30
    else 31
  }

  /** A calendar date written `YYYY-MM-DD`, as `strftime("%Y-%m-%d")` writes it. */
  predicate IsIsoDate(s: string) {
    && DateShape(s)
    && 1 <= Year(s)
    && 1 <= Month(s) <= 12
    && 1 <= Day(s) <= DaysInMonth(Year(s), Month(s))
  }

  /** Day `(y, m, d)` falls on or before day `(y', m', d')`. */
  predicate OnOrBefore(y: nat, m: nat, d: nat, y': nat, m': nat, d': nat) {
    y < y' || (y == y' && (m < m' || (m == m' && d <= d')))
  }

  /**
   * pandas holds a Timestamp as a signed 64-bit count of nanoseconds since
   * 1970-01-01, which spans 1677-09-21 00:12:43 to 2262-04-11 23:47:16; a
   * date read at midnight parses only from 1677-09-22 to 2262-04-11.
   */
  predicate InTimestampRange(s: string)
    requires DateShape(s)
  {
    OnOrBefore(1677, 9, 22, Year(s), Month(s), Day(s)) && OnOrBefore(Year(s), Month(s), Day(s), 2262, 4, 11)
  }

  /** `a` is a day before `b` on the calendar. */
  predicate Earlier(a: string, b: string)
    requires DateShape(a) && DateShape(b)
  {
    || Year(a) < Year(b)
    || (Year(a) == Year(b) && Month(a) < Month(b))
    || (Year(a) == Year(b) && Month(a) == Month(b) && Day(a) < Day(b))
  }

  lemma FieldOrder(a: string, b: string, i: nat, j: nat)
    requires i <= j <= |a| && |a| == |b|
    requires AllDigits(a[i..j]) && AllDigits(b[i..j])
    ensures LexLess(a[i..j], b[i..j]) <==> DigitsValue(a[i..j]) < DigitsValue(b[i..j])
    ensures a[i..j] == b[i..j] <==> DigitsValue(a[i..j]) == DigitsValue(b[i..j])
  {
    DigitsOrder(a[i..j], b[i..j]);
    if DigitsValue(a[i..j]) == DigitsValue(b[i..j]) {
      DigitsInjective(a[i..j], b[i..j]);
    }
  }

  lemma SkipHyphen(a: string, b: string, k: nat)
    requires k < |a| && k < |b| && a[k] == b[k]
    ensures LexLess(a[k..], b[k..]) <==> LexLess(a[k + 1..], b[k + 1..])
  {
    assert a[k..][1..] == a[k + 1..] && b[k..][1..] == b[k + 1..];
  }

  /** Sorting `YYYY-MM-DD` strings as strings sorts them by calendar date. */
  lemma ChronologicalOrder(a: string, b: string)
    requires DateShape(a) && DateShape(b)
    ensures LexLess(a, b) <==> Earlier(a, b)
  {
    FieldOrder(a, b, 0, 4);
    FieldOrder(a, b, 5, 7);
    FieldOrder(a, b, 8, 10);
    assert a[..4] == a[0..4] && b[..4] == b[0..4];
    assert a[8..] == a[8..10] && b[8..] == b[8..10];
    LexLessAt(a, b, 4);
    SkipHyphen(a, b, 4);
    var a5, b5 := a[5..], b[5..];
    LexLessAt(a5, b5, 2);
    assert a5[..2] == a[5..7] && b5[..2] == b[5..7];
    assert a5[2..] == a[7..] && b5[2..] == b[7..];
    SkipHyphen(a, b, 7);
  }

  /** The dates pandas can parse form one stretch of the string order the sort uses. */
  lemma TimestampRangeConvex(a: string, b: string, c: string)
    requires DateShape(a) && DateShape(b) && DateShape(c)
    requires InTimestampRange(a) && InTimestampRange(c)
    requires !LexLess(b, a) && !LexLess(c, b)
    ensures InTimestampRange(b)
  {
    ChronologicalOrder(b, a);
    ChronologicalOrder(c, b);
  }
}
