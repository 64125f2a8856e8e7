/**
 * Cells of a data frame and the numeric coercion `_to_num`
 * (src/run_market_ohlcv.py, lines 31-39).
 *
 * A cell is missing (NaN, None or NaT), a number, or text.  Numbers are
 * exact reals; the text grammar accepted as a number is the signed decimal
 * numeral (see ParseDecimal).
 */
module Cells {
  import opened Wrappers

  datatype Cell = Missing | Num(value: real) | Text(text: string)

  // ---------------------------------------------------------------------
  // Characters
  // ---------------------------------------------------------------------

  predicate IsDigit(c: char) {
    '0' <= c <= '9'
  }

  function DigitValue(c: char): (d: nat)
    requires IsDigit(c)
    ensures d < 10
  {
    c as int - '0' as int
  }

  function DigitChar(d: nat): (c: char)
    requires d < 10
    ensures IsDigit(c) && DigitValue(c) == d
  {
    ('0' as int + d) as char
  }

  /** The characters Python's `str.strip()` removes: those for which `str.isspace()` holds. */
  predicate IsSpace(c: char) {
    || c == '\t' || c == '\n' || c == '\U{000B}' || c == '\U{000C}' || c == '\r'
    || c == '\U{001C}' || c == '\U{001D}' || c == '\U{001E}' || c == '\U{001F}'
    || c == ' ' || c == '\U{0085}' || c == '\U{00A0}' || c == '\U{1680}'
    || ('\U{2000}' <= c <= '\U{200A}')
    || c == '\U{2028}' || c == '\U{2029}' || c == '\U{202F}' || c == '\U{205F}' || c == '\U{3000}'
  }

  predicate AllDigits(s: string) {
    forall i :: 0 <= i < |s| ==> IsDigit(s[i])
  }

  predicate AllSpace(s: string) {
    forall i :: 0 <= i < |s| ==> IsSpace(s[i])
  }

  predicate HasDigit(s: string) {
    exists i :: 0 <= i < |s| && IsDigit(s[i])
  }

  // ---------------------------------------------------------------------
  // Decimal numerals
  // ---------------------------------------------------------------------

  function Pow10(n: nat): (r: nat)
    ensures r >= 1
  {
    if n == 0 then 1 else 10 * Pow10(n - 1)
  }

  /** The value of a digit string read most significant digit first. */
  function DigitsValue(s: string): nat
    requires AllDigits(s)
  {
    if s == [] then 0 else 10 * DigitsValue(s[..|s| - 1]) + DigitValue(s[|s| - 1])
  }

  /** The length of the longest prefix of `s` made of digits. */
  function LeadingDigits(s: string): (n: nat)
    ensures n <= |s|
    ensures AllDigits(s[..n])
    ensures n < |s| ==> !IsDigit(s[n])
  {
    if s == [] || !IsDigit(s[0]) then 0
    else
      var n := 1 + LeadingDigits(s[1..]);
      assert s[..n] == [s[0]] + s[1..][..n - 1];
      n
  }

  /**
   * An unsigned decimal numeral: digits, optionally followed by a point and
   * more digits, with at least one digit in all ("12", "12.", "12.5", ".5").
   */
  function ParseUnsigned(s: string): (r: Option<real>)
    ensures r.Some? ==> HasDigit(s)
    ensures r.Some? ==> r.value >= 0.0
  {
    var n := LeadingDigits(s);
    if n == |s| then
      if n == 0 then None
      else
        assert IsDigit(s[0]);
        Some(DigitsValue(s) as real)
    else if s[n] != '.' then None
    else
      var frac := s[n + 1..];
      if !AllDigits(frac) || (n == 0 && frac == []) then None
      else
        assert n > 0 ==> IsDigit(s[0]);
        assert n == 0 ==> IsDigit(s[n + 1]);
        Some(DecimalValue(s[..n], frac))
  }

  lemma QuotientNonNegative(a: nat, b: nat)
    requires b > 0
    ensures a as real / b as real >= 0.0
  {
    assert (a as real / b as real) * b as real == a as real;
  }

  /** A decimal numeral with an optional leading `+` or `-`. */
  function ParseDecimal(s: string): (r: Option<real>)
    ensures r.Some? ==> HasDigit(s)
  {
    if |s| > 0 && (s[0] == '-' || s[0] == '+') then
      match ParseUnsigned(s[1..])
      case None => None
      case Some(v) =>
        assert HasDigit(s[1..]);
        Some(if s[0] == '-' then -v else v)
    else
      ParseUnsigned(s)
  }

  /**
   * The grammar `float` accepts here, stated without reference to the parser:
   * digits and at most one point, with at least one digit ("12", "12.",
   * "12.5", ".5"; not "1.2.3", "12abc" or ".").
   */
  predicate IsUnsignedNumeral(s: string) {
    && HasDigit(s)
    && (forall i :: 0 <= i < |s| ==> IsDigit(s[i]) || s[i] == '.')
    && multiset(s)['.'] <= 1
  }

  /** An unsigned numeral, with or without one leading `+` or `-` ("-2.35"; not "1-2"). */
  predicate IsNumeral(s: string) {
    || IsUnsignedNumeral(s)
    || (|s| > 0 && (s[0] == '+' || s[0] == '-') && IsUnsignedNumeral(s[1..]))
  }

  /** `ParseUnsigned` reads exactly the unsigned numerals. */
  lemma ParseUnsignedNumeral(s: string)
    ensures ParseUnsigned(s).Some? <==> IsUnsignedNumeral(s)
  {
    var n := LeadingDigits(s);
    if n == |s| {
      assert s[..n] == s;
      DigitsNoPoint(s);
      if n > 0 {
        assert IsDigit(s[0]);
      }
    } else if s[n] == '.' {
      PointNumeral(s[..n], s[n + 1..]);
      assert s == s[..n] + "." + s[n + 1..];
    }
  }

  /** Digits, a point and a tail: a numeral exactly when the tail is digits and some digit is present. */
  lemma PointNumeral(w: string, frac: string)
    requires AllDigits(w)
    ensures IsUnsignedNumeral(w + "." + frac) <==> AllDigits(frac) && (w != [] || frac != [])
  {
    var s := w + "." + frac;
    var n := |w|;
    DigitsNoPoint(w);
    assert multiset(s) == multiset(w) + multiset{'.'} + multiset(frac);
    if AllDigits(frac) {
      DigitsNoPoint(frac);
      forall i | 0 <= i < |s|
        ensures IsDigit(s[i]) || s[i] == '.'
      {
        if i > n {
          assert s[i] == frac[i - n - 1];
        }
      }
      if n > 0 {
        assert IsDigit(s[0]);
      } else if frac != [] {
        assert IsDigit(s[1]);
      } else {
        assert s == ".";
      }
    } else {
      var k :| 0 <= k < |frac| && !IsDigit(frac[k]);
      assert s[n + 1 + k] == frac[k];
      if frac[k] == '.' {
        assert '.' in frac;
      }
    }
  }

  lemma DigitsNoPoint(d: string)
    requires AllDigits(d)
    ensures multiset(d)['.'] == 0
  {
    assert '.' !in d;
  }

  /** `ParseDecimal` reads exactly the numerals: `float` raises on every other text. */
  lemma ParseDecimalNumeral(s: string)
    ensures ParseDecimal(s).Some? <==> IsNumeral(s)
  {
    ParseUnsignedNumeral(s);
    if |s| > 0 && (s[0] == '+' || s[0] == '-') {
      ParseUnsignedNumeral(s[1..]);
    }
  }

  // ---------------------------------------------------------------------
  // Text clean-up: comma removal and whitespace stripping
  // ---------------------------------------------------------------------

  /** `s.replace(",", "")`. */
  function RemoveCommas(s: string): (r: string)
    ensures forall i :: 0 <= i < |r| ==> r[i] != ',' && r[i] in s
  {
    if s == [] then []
    else (if s[0] == ',' then [] else [s[0]]) + RemoveCommas(s[1..])
  }

  /** `s.lstrip()`: the suffix of `s` left after its leading whitespace. */
  function TrimStart(s: string): (r: string)
    ensures |r| <= |s| && r == s[|s| - |r|..]
    ensures AllSpace(s[..|s| - |r|])
    ensures r != [] ==> !IsSpace(r[0])
  {
    if s != [] && IsSpace(s[0]) then TrimStart(s[1..]) else s
  }

  /** `s.rstrip()`: the prefix of `s` left after its trailing whitespace. */
  function TrimEnd(s: string): (r: string)
    ensures |r| <= |s| && r == s[..|r|]
    ensures AllSpace(s[|r|..])
    ensures r != [] ==> !IsSpace(r[|r| - 1])
  {
    if s != [] && IsSpace(s[|s| - 1]) then TrimEnd(s[..|s| - 1]) else s
  }

  /** The number of whitespace characters `s.lstrip()` removes. */
  function Indent(s: string): (n: nat)
    ensures n <= |s| && AllSpace(s[..n])
  {
    |s| - |TrimStart(s)|
  }

  /** `s.strip()`: `s` without its leading and trailing whitespace. */
  function Strip(s: string): (r: string)
    ensures |r| <= |s|
    ensures r != [] ==> !IsSpace(r[0]) && !IsSpace(r[|r| - 1])
  {
    TrimEnd(TrimStart(s))
  }

  /**
   * `strip()` keeps the middle of `s`: what it cuts from the front (`Indent`)
   * and from the back is all whitespace.
   */
  lemma StripSlice(s: string)
    ensures Indent(s) + |Strip(s)| <= |s|
    ensures Strip(s) == s[Indent(s)..Indent(s) + |Strip(s)|]
    ensures AllSpace(s[Indent(s) + |Strip(s)|..])
  {
    var t := TrimStart(s);
    var r := TrimEnd(t);
    SuffixSlices(s, Indent(s), t, |r|);
  }

  /** Slices of a suffix `t == s[n..]` are slices of `s` shifted by `n`. */
  lemma SuffixSlices<T>(s: seq<T>, n: nat, t: seq<T>, m: nat)
    requires n <= |s| && t == s[n..] && m <= |t|
    ensures t[..m] == s[n..n + m] && t[m..] == s[n + m..]
  {
  }

  // ---------------------------------------------------------------------
  // _to_num
  // ---------------------------------------------------------------------

  /**
   * `_to_num`: a missing cell stays missing, a number passes through, and text
   * loses its commas and surrounding whitespace and is read as a decimal
   * numeral; text that is not one becomes missing (never zero, never an error).
   */
  function ToNum(c: Cell): (r: Cell)
    ensures !r.Text?
    ensures c.Missing? ==> r.Missing?
    ensures c.Num? ==> r == c
  {
    match c
    case Missing => Missing
    case Num(_) => c
    case Text(s) =>
      var t := Strip(RemoveCommas(s));
      match ParseDecimal(t)
      case Some(v) => Num(v)
      case None => Missing
  }

  // ---------------------------------------------------------------------
  // What _to_num promises
  // ---------------------------------------------------------------------

  /** The output of `_to_num` is missing or a number, so coercing it again changes nothing. */
  lemma ToNumIdempotent(c: Cell)
    ensures ToNum(ToNum(c)) == ToNum(c)
  {
  }

  /**
   * Text becomes missing exactly when, without its commas and surrounding
   * whitespace, it is not a numeral ("12abc", "1.2.3", "1-2"): never zero.
   */
  lemma NonNumeralIsMissing(s: string)
    ensures ToNum(Text(s)) == Missing <==> !IsNumeral(Strip(RemoveCommas(s)))
  {
    ParseDecimalNumeral(Strip(RemoveCommas(s)));
  }

  /** Text without a single digit, such as the placeholder "-", becomes missing and never zero. */
  lemma NoDigitIsMissing(s: string)
    requires !HasDigit(s)
    ensures ToNum(Text(s)) == Missing
  {
    var u := RemoveCommas(s);
    var t := Strip(u);
    forall i | 0 <= i < |t|
      ensures !IsDigit(t[i])
    {
      var k :| 0 <= k < |u| && u[k] == t[i];
      var j :| 0 <= j < |s| && s[j] == u[k];
      assert !IsDigit(s[j]);
    }
    assert !HasDigit(t);
    assert ParseDecimal(t).None?;
  }

  lemma {:induction false} RemoveCommasAppend(a: string, b: string)
    ensures RemoveCommas(a + b) == RemoveCommas(a) + RemoveCommas(b)
  {
    if a == [] {
      assert a + b == b;
    } else {
      assert (a + b)[1..] == a[1..] + b;
      RemoveCommasAppend(a[1..], b);
    }
  }

  lemma {:induction false} RemoveCommasWithout(s: string)
    requires ',' !in s
    ensures RemoveCommas(s) == s
  {
    if s != [] {
      RemoveCommasWithout(s[1..]);
    }
  }

  lemma DropComma(a: string, b: string)
    ensures RemoveCommas(a + "," + b) == RemoveCommas(a + b)
  {
    RemoveCommasAppend(a + ",", b);
    RemoveCommasAppend(a, ",");
    RemoveCommasAppend(a, b);
    assert RemoveCommas(",") == [];
  }

  /** Every comma is ignored, wherever it stands. */
  lemma CommaIgnored(a: string, b: string)
    ensures ToNum(Text(a + "," + b)) == ToNum(Text(a + b))
  {
    DropComma(a, b);
  }

  lemma {:induction false} TrimStartSpacePrefix(w: string, t: string)
    requires AllSpace(w)
    ensures TrimStart(w + t) == TrimStart(t)
  {
    if w == [] {
      assert w + t == t;
    } else {
      assert (w + t)[1..] == w[1..] + t;
      TrimStartSpacePrefix(w[1..], t);
    }
  }

  lemma {:induction false} TrimEndSpaceSuffix(t: string, w: string)
    requires AllSpace(w)
    ensures TrimEnd(t + w) == TrimEnd(t)
  {
    if w == [] {
      assert t + w == t;
    } else {
      assert (t + w)[..|t + w| - 1] == t + w[..|w| - 1];
      TrimEndSpaceSuffix(t, w[..|w| - 1]);
    }
  }

  lemma {:induction false} TrimStartAppend(t: string, w: string)
    requires !AllSpace(t)
    ensures TrimStart(t + w) == TrimStart(t) + w
  {
    assert (t + w)[0] == t[0];
    if IsSpace(t[0]) {
      assert (t + w)[1..] == t[1..] + w;
      assert !AllSpace(t[1..]) by {
        var i :| 0 <= i < |t| && !IsSpace(t[i]);
        assert t[1..][i - 1] == t[i];
      }
      TrimStartAppend(t[1..], w);
    }
  }

  /** Text that is all whitespace strips to nothing from the front. */
  lemma {:induction false} TrimStartAllSpace(s: string)
    requires AllSpace(s)
    ensures TrimStart(s) == []
  {
    if s != [] {
      TrimStartAllSpace(s[1..]);
    }
  }

  /** `strip()` ignores whitespace added around its argument. */
  lemma StripSurrounding(w1: string, t: string, w2: string)
    requires AllSpace(w1) && AllSpace(w2)
    ensures Strip(w1 + t + w2) == Strip(t)
  {
    ConcatAssoc(w1, t, w2);
    TrimStartSpacePrefix(w1, t + w2);
    TrimBothSpaceSuffix(t, w2);
  }

  lemma ConcatAssoc<T>(a: seq<T>, b: seq<T>, c: seq<T>)
    ensures a + b + c == a + (b + c)
  {
  }

  /** Trimming both ends ignores whitespace added after the text. */
  lemma TrimBothSpaceSuffix(t: string, w: string)
    requires AllSpace(w)
    ensures TrimEnd(TrimStart(t + w)) == TrimEnd(TrimStart(t))
  {
    if AllSpace(t) {
      assert AllSpace(t + w);
      TrimStartAllSpace(t + w);
      TrimStartAllSpace(t);
    } else {
      TrimStartAppend(t, w);
      TrimEndSpaceSuffix(TrimStart(t), w);
    }
  }

  /** Whitespace around the text is ignored. */
  lemma SurroundingSpaceIgnored(w1: string, s: string, w2: string)
    requires AllSpace(w1) && AllSpace(w2)
    ensures ToNum(Text(w1 + s + w2)) == ToNum(Text(s))
  {
    RemoveCommasAppend(w1 + s, w2);
    RemoveCommasAppend(w1, s);
    RemoveCommasWithout(w1);
    RemoveCommasWithout(w2);
    StripSurrounding(w1, RemoveCommas(s), w2);
  }

  // ---------------------------------------------------------------------
  // Round trip: a whole number written with thousands separators
  // ---------------------------------------------------------------------

  /** `n` in decimal, without leading zeros. */
  function Digits(n: nat): (s: string)
    ensures AllDigits(s) && |s| >= 1
  {
    if n < 10 then [DigitChar(n)] else Digits(n / 10) + [DigitChar(n % 10)]
  }

  /** `k` as exactly three digits, with leading zeros. */
  function Pad3(k: nat): (s: string)
    requires k < 1000
    ensures AllDigits(s) && |s| == 3
  {
    [DigitChar(k / 10 / 10), DigitChar(k / 10 % 10), DigitChar(k % 10)]
  }

  /** `n` with a comma between groups of three digits ("1,234,567"). */
  function Grouped(n: nat): (s: string)
    ensures |s| >= 1 && IsDigit(s[0]) && IsDigit(s[|s| - 1])
  {
    if n < 1000 then Digits(n) else Grouped(n / 1000) + "," + Pad3(n % 1000)
  }

  lemma {:induction false} DigitsValueAppend(a: string, b: string)
    requires AllDigits(a) && AllDigits(b)
    ensures DigitsValue(a + b) == DigitsValue(a) * Pow10(|b|) + DigitsValue(b)
  {
    if b == [] {
      assert a + b == a;
    } else {
      var b' := b[..|b| - 1];
      var ab := a + b;
      assert ab[..|ab| - 1] == a + b' && ab[|ab| - 1] == b[|b| - 1];
      DigitsValueAppend(a, b');
      var x: int, y: int, p: int, d: int := DigitsValue(a), DigitsValue(b'), Pow10(|b'|), DigitValue(b[|b| - 1]);
      assert Pow10(|b|) == 10 * p && DigitsValue(b) == 10 * y + d;
      calc {
        DigitsValue(ab);
        10 * DigitsValue(a + b') + d;
        10 * (x * p + y) + d;
        { Regroup(x, p, y, d); }
        x * (10 * p) + (10 * y + d);
      }
    }
  }

  lemma Regroup(x: int, p: int, y: int, d: int)
    ensures 10 * (x * p + y) + d == x * (10 * p) + (10 * y + d)
  {
  }

  lemma {:induction false} DigitsValueOfDigits(n: nat)
    ensures DigitsValue(Digits(n)) == n
  {
    if n >= 10 {
      DigitsValueOfDigits(n / 10);
      var s := Digits(n);
      assert s[..|s| - 1] == Digits(n / 10);
    }
  }

  lemma Pad3Value(k: nat)
    requires k < 1000
    ensures DigitsValue(Pad3(k)) == k
  {
    var s, q := Pad3(k), k / 10;
    assert k == 10 * q + k % 10 && q == 10 * (q / 10) + q % 10;
    assert s[..2][..1] == s[..1];
    assert DigitsValue(s[..1]) == q / 10;
    assert DigitsValue(s[..2]) == 10 * (q / 10) + q % 10;
  }

  lemma GroupedStep(n: nat)
    requires n >= 1000
    ensures RemoveCommas(Grouped(n)) == RemoveCommas(Grouped(n / 1000)) + Pad3(n % 1000)
  {
    var hi, lo := Grouped(n / 1000), Pad3(n % 1000);
    assert Grouped(n) == hi + "," + lo;
    DropComma(hi, lo);
    RemoveCommasAppend(hi, lo);
    RemoveCommasWithout(lo);
  }

  lemma {:induction false} GroupedDigits(n: nat)
    ensures AllDigits(RemoveCommas(Grouped(n)))
    ensures |RemoveCommas(Grouped(n))| >= 1
    ensures DigitsValue(RemoveCommas(Grouped(n))) == n
  {
    if n < 1000 {
      RemoveCommasWithout(Digits(n));
      DigitsValueOfDigits(n);
    } else {
      GroupedDigits(n / 1000);
      GroupedStep(n);
      var d, lo := RemoveCommas(Grouped(n / 1000)), Pad3(n % 1000);
      DigitsValueAppend(d, lo);
      Pad3Value(n % 1000);
      assert Pow10(3) == 1000;
      assert DigitsValue(d + lo) == (n / 1000) * 1000 + n % 1000;
    }
  }

  lemma ParseDigits(d: string)
    requires AllDigits(d) && d != []
    ensures ParseDecimal(d) == Some(DigitsValue(d) as real)
  {
    WholeUnsigned(d);
    assert IsDigit(d[0]);
    UnsignedRead(d, DigitsValue(d) as real);
  }

  /** A digit string is no longer than it takes: its value is below the next power of ten. */
  lemma {:induction false} DigitsValueBound(s: string)
    requires AllDigits(s)
    ensures DigitsValue(s) < Pow10(|s|)
  {
    if s != [] {
      DigitsValueBound(s[..|s| - 1]);
    }
  }

  // ---------------------------------------------------------------------
  // The value of a signed or fractional numeral
  // ---------------------------------------------------------------------

  /** The value of the numeral `whole.frac`: the whole part plus a fraction below 1. */
  function DecimalValue(whole: string, frac: string): (v: real)
    requires AllDigits(whole) && AllDigits(frac)
    ensures DigitsValue(whole) as real <= v < DigitsValue(whole) as real + 1.0
  {
    DigitsValueBound(frac);
    FractionBelowOne(DigitsValue(frac), Pow10(|frac|));
    DigitsValue(whole) as real + DigitsValue(frac) as real / Pow10(|frac|) as real
  }

  lemma FractionBelowOne(a: nat, b: nat)
    requires a < b
    ensures 0.0 <= a as real / b as real < 1.0
  {
    var q := a as real / b as real;
    assert q * b as real == a as real;
    QuotientNonNegative(a, b);
  }

  /** The digits at the front of `d + rest` are exactly `d` when `rest` does not start with a digit. */
  lemma {:induction false} LeadingDigitsPrefix(d: string, rest: string)
    requires AllDigits(d) && (rest == [] || !IsDigit(rest[0]))
    ensures LeadingDigits(d + rest) == |d|
  {
    if d != [] {
      assert (d + rest)[1..] == d[1..] + rest;
      LeadingDigitsPrefix(d[1..], rest);
    }
  }

  /** `float("12.5")`, `float("12.")` and `float(".5")`: the value of the whole and fractional digits. */
  lemma UnsignedDecimal(whole: string, frac: string)
    requires AllDigits(whole) && AllDigits(frac) && (whole != [] || frac != [])
    ensures ParseUnsigned(whole + "." + frac) == Some(DecimalValue(whole, frac))
  {
    var s := whole + "." + frac;
    assert s == whole + ("." + frac);
    LeadingDigitsPrefix(whole, "." + frac);
    assert s[..|whole|] == whole && s[|whole|] == '.' && s[|whole| + 1..] == frac;
  }

  /** With no sign in front, `"w.f"` reads as its value ("12.5"). */
  lemma DecimalRead(whole: string, frac: string)
    requires AllDigits(whole) && AllDigits(frac) && (whole != [] || frac != [])
    ensures ParseDecimal(whole + "." + frac) == Some(DecimalValue(whole, frac))
  {
    UnsignedDecimal(whole, frac);
    DecimalUnsignedHead(whole, frac);
    UnsignedRead(whole + "." + frac, DecimalValue(whole, frac));
  }

  /** A digit string reads unsigned as its value. */
  lemma WholeUnsigned(d: string)
    requires AllDigits(d) && d != []
    ensures ParseUnsigned(d) == Some(DigitsValue(d) as real)
  {
    assert IsDigit(d[0]);
    assert LeadingDigits(d) == |d|;
  }

  /** `"w.f"` does not start with a sign. */
  lemma DecimalUnsignedHead(whole: string, frac: string)
    requires AllDigits(whole)
    ensures whole + "." + frac != []
    ensures (whole + "." + frac)[0] != '+' && (whole + "." + frac)[0] != '-'
  {
    var s := whole + "." + frac;
    assert s[0] == if whole == [] then '.' else whole[0];
  }

  /** A numeral that does not start with a sign is read unsigned. */
  lemma UnsignedRead(s: string, v: real)
    requires ParseUnsigned(s) == Some(v) && s != [] && s[0] != '+' && s[0] != '-'
    ensures ParseDecimal(s) == Some(v)
  {
  }

  /** `+` in front of an unsigned numeral keeps its value ("+150"). */
  lemma PlusRead(s: string, v: real)
    requires ParseUnsigned(s) == Some(v)
    ensures ParseDecimal("+" + s) == Some(v)
  {
    var t := "+" + s;
    assert t[0] == '+' && t[1..] == s;
  }

  /** `-` in front of an unsigned numeral negates its value ("-150", "-2.35"). */
  lemma MinusRead(s: string, v: real)
    requires ParseUnsigned(s) == Some(v)
    ensures ParseDecimal("-" + s) == Some(-v)
  {
    var t := "-" + s;
    assert t[0] == '-' && t[1..] == s;
  }

  lemma StripUnpadded(s: string)
    requires s != [] && !IsSpace(s[0]) && !IsSpace(s[|s| - 1])
    ensures Strip(s) == s
  {
  }

  /** The step from a parsed cleaned text to `_to_num`'s result, used by `GroupedRoundTrip`. */
  lemma ToNumReads(s: string, v: real)
    requires ParseDecimal(Strip(RemoveCommas(s))) == Some(v)
    ensures ToNum(Text(s)) == Num(v)
  {
  }

  /** Reading back a whole number written with thousands separators gives the number. */
  lemma GroupedRoundTrip(n: nat)
    ensures ToNum(Text(Grouped(n))) == Num(n as real)
  {
    GroupedDigits(n);
    var d := RemoveCommas(Grouped(n));
    assert IsDigit(d[0]) && IsDigit(d[|d| - 1]);
    StripUnpadded(d);
    ParseDigits(d);
    ToNumReads(Grouped(n), n as real);
  }

  /** "1,234" reads as 1234. */
  lemma ThousandsExample()
    ensures ToNum(Text("1,234")) == Num(1234.0)
  {
    assert Grouped(1) == "1";
    assert Pad3(234) == "234";
    assert Grouped(1234) == "1,234";
    GroupedRoundTrip(1234);
  }

  /** "12abc" holds digits but is no numeral, so `_to_num` gives missing for it (`NonNumeralIsMissing`). */
  lemma LetterExample()
    ensures !IsNumeral("12abc")
  {
    var a := "12abc";
    assert !IsDigit(a[2]) && a[2] != '.';
  }

  /** Nor is "1-2", a sign inside the digits. */
  lemma InnerSignExample()
    ensures !IsNumeral("1-2")
  {
    var b := "1-2";
    assert !IsDigit(b[1]) && b[1] != '.';
  }

  /** Nor is "1.2.3", with two points. */
  lemma TwoPointsExample()
    ensures !IsNumeral("1.2.3")
  {
    var tail := "2.3";
    assert !IsDigit(tail[1]);
    PointNumeral("1", tail);
    assert "1.2.3" == "1" + "." + tail;
  }

  /** "-", the provider's placeholder for no value, reads as missing and not as zero. */
  lemma PlaceholderExample()
    ensures ToNum(Text("-")) == Missing
  {
    NoDigitIsMissing("-");
  }
}
