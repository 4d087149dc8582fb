/** The JavaScript number operations the monitor relies on: `parseInt` with
    and without an explicit radix, `parseFloat`, `+` with `NaN` propagation,
    and `toFixed(2)`. Numbers are exact: a finite JavaScript number is a
    `real` here, so rounding of binary floating point is not part of the
    model. */
module JsNumber {
  import opened Wrappers
  import opened JsString

  /** A number as the monitor computes it: an exact value or `NaN`. */
  datatype Num = Finite(value: real) | NaN

  /** `a + b`: `NaN` as soon as either operand is `NaN`. */
  function Add(a: Num, b: Num): (r: Num)
    ensures r.NaN? <==> a.NaN? || b.NaN?
    ensures r.Finite? ==> r.value == a.value + b.value
  {
    if a.NaN? || b.NaN? then NaN else Finite(a.value + b.value)
  }

  function Pow10(n: nat): (p: nat)
    ensures p >= 1
  {
    if n == 0 then 1 else 10 * Pow10(n - 1)
  }

  /** Value of `c` as a digit of any radix up to 36, and 36 when it is none. */
  function DigitValue(c: char): (d: nat)
    ensures d <= 36
  {
    if '0' <= c <= '9' then c as int - '0' as int
    else if 'a' <= c <= 'z' then c as int - 'a' as int + 10
    else if 'A' <= c <= 'Z' then c as int - 'A' as int + 10
    else 36
  }

  /** The two bases `parseInt` reads here: 10, and 16 after a `0x` prefix. */
  datatype Radix = Decimal | Hexadecimal

  function Base(radix: Radix): nat {
    if radix.Decimal? then 10 else 16
  }

  predicate IsDigit(c: char, radix: Radix) {
    DigitValue(c) < Base(radix)
  }

  /** Length of the longest prefix of `s` made of digits of `radix`. */
  function DigitRun(s: string, radix: Radix): (n: nat)
    ensures n <= |s|
    ensures forall i :: 0 <= i < n ==> IsDigit(s[i], radix)
    ensures n < |s| ==> !IsDigit(s[n], radix)
  {
    if |s| > 0 && IsDigit(s[0], radix) then 1 + DigitRun(s[1..], radix) else 0
  }

  /** Value of a digit string in base `radix`, most significant digit first. */
  function DigitsValue(ds: string, radix: Radix): nat {
    if |ds| == 0 then 0
    else if radix.Decimal? then DigitsValue(ds[..|ds| - 1], radix) * 10 + DigitValue(ds[|ds| - 1])
    else DigitsValue(ds[..|ds| - 1], radix) * 16 + DigitValue(ds[|ds| - 1])
  }

  /** Whether `s` starts with `-`, and the text after an optional leading
      `-` or `+`. */
  function SplitSign(s: string): (bool, string) {
    if |s| > 0 && s[0] == '-' then (true, s[1..])
    else if |s| > 0 && s[0] == '+' then (false, s[1..])
    else (false, s)
  }

  /** `parseInt(s)` when `autoRadix` (no radix argument: a `0x` or `0X`
      prefix selects base 16) and `parseInt(s, 10)` otherwise. Leading white
      space and one sign are skipped, then the longest run of digits is read;
      `None` is `NaN`, returned when that run is empty. */
  function ParseInt(s: string, autoRadix: bool): Option<int> {
    var (negative, u) := SplitSign(TrimStart(s));
    var hex := autoRadix && |u| >= 2 && u[0] == '0' && (u[1] == 'x' || u[1] == 'X');
    var radix := if hex then Hexadecimal else Decimal;
    var v := if hex then u[2..] else u;
    var n := DigitRun(v, radix);
    if n == 0 then None
    else
      var magnitude: int := DigitsValue(v[..n], radix);
      Some(if negative then -magnitude else magnitude)
  }

  /** `parseInt` applied to a value that may be `undefined`; `parseInt(undefined)`
      is `NaN`. */
  function ParseIntOf(s: Option<string>, autoRadix: bool): Option<int> {
    if s.Some? then ParseInt(s.value, autoRadix) else None
  }

  /** `x` times ten to the power `e`. */
  function Shift(x: real, e: int): real
    decreases if e >= 0 then e else -e
  {
    if e == 0 then x
    else if e > 0 then Shift(x * 10.0, e - 1)
    else Shift(x / 10.0, e + 1)
  }

  /** The exponent part `e[+|-]digits` at the start of `s`; 0 when absent or
      when no digit follows the `e`, in which case the `e` is not part of the
      number. */
  function ExponentOf(s: string): int {
    if |s| > 0 && (s[0] == 'e' || s[0] == 'E') then
      var (negative, u) := SplitSign(s[1..]);
      var n := DigitRun(u, Decimal);
      var magnitude: int := DigitsValue(u[..n], Decimal);
      if n == 0 then 0 else if negative then -magnitude else magnitude
    else 0
  }

  /** The parts of a decimal literal `whole.fraction e exponent` as
      `parseFloat` reads them. */
  datatype DecimalLiteral = Literal(whole: string, fraction: string, exponent: int)

  /** The longest prefix of unsigned text of the form `digits [. digits]
      [exponent]` or `. digits [exponent]`, if there is one. */
  function ScanDecimal(u: string): Option<DecimalLiteral> {
    var n1 := DigitRun(u, Decimal);
    var afterWhole := u[n1..];
    var hasPoint := |afterWhole| > 0 && afterWhole[0] == '.';
    var fraction := if hasPoint then afterWhole[1..] else "";
    var n2 := DigitRun(fraction, Decimal);
    if n1 == 0 && n2 == 0 then None
    else
      var rest := if hasPoint then fraction[n2..] else afterWhole;
      Some(Literal(u[..n1], fraction[..n2], ExponentOf(rest)))
  }

  /** The exact value a decimal literal denotes. */
  function LiteralValue(d: DecimalLiteral): real {
    var mantissa := DigitsValue(d.whole, Decimal) as real
                    + Shift(DigitsValue(d.fraction, Decimal) as real, -|d.fraction|);
    Shift(mantissa, d.exponent)
  }

  /** `parseFloat(s)`: leading white space and one sign are skipped and the
      longest decimal literal after them is read; `NaN` when there is none.
      The text `Infinity` is not recognised. */
  function ParseFloat(s: string): Num {
    var (negative, u) := SplitSign(TrimStart(s));
    var d := ScanDecimal(u);
    if d.None? then NaN
    else if negative then Finite(-LiteralValue(d.value))
    else Finite(LiteralValue(d.value))
  }

  /** `parseFloat` applied to a value that may be `undefined`. */
  function ParseFloatOf(s: Option<string>): Num {
    if s.Some? then ParseFloat(s.value) else NaN
  }

  function DigitChar(d: nat): (c: char)
    requires d < 10
    ensures IsDigit(c, Decimal) && DigitValue(c) == d
  {
    ('0' as int + d) as char
  }

  /** Decimal rendering of a natural number, as `String(n)` gives it. */
  function NatToString(n: nat): (r: string)
    ensures |r| >= 1
    ensures forall i :: 0 <= i < |r| ==> IsDigit(r[i], Decimal)
  {
    if n < 10 then [DigitChar(n)] else NatToString(n / 10) + [DigitChar(n % 10)]
  }

  function Zeros(k: nat): (r: string)
    ensures |r| == k && forall i :: 0 <= i < k ==> r[i] == '0'
  {
    seq(k, _ => '0')
  }

  /** The integer `n` with the nearest hundredths value to a non-negative `x`,
      the larger one on a tie. */
  function Hundredths(x: real): (n: int)
    requires x >= 0.0
    ensures n >= 0
    ensures n as real <= x * 100.0 + 0.5 < n as real + 1.0
  {
    (x * 100.0 + 0.5).Floor
  }

  /** `x.toFixed(2)` for a non-negative `x`. */
  function FixedAbs(x: real): (r: string)
    requires x >= 0.0
    ensures |r| >= 4 && r[|r| - 3] == '.'
    ensures forall i :: 0 <= i < |r| && i != |r| - 3 ==> IsDigit(r[i], Decimal)
  {
    var m := NatToString(Hundredths(x));
    var z := if |m| <= 2 then Zeros(3 - |m|) + m else m;
    z[..|z| - 2] + "." + z[|z| - 2..]
  }

  /** `x.toFixed(2)`: a `-` in front of the rendering of `-x` when `x` is
      negative. */
  function Fixed2(x: real): string {
    if x < 0.0 then "-" + FixedAbs(-x) else FixedAbs(x)
  }

  /** The value `x.toFixed(2)` denotes: `x` rounded to hundredths. */
  function Round2(x: real): real {
    if x < 0.0 then -(Hundredths(-x) as real / 100.0) else Hundredths(x) as real / 100.0
  }

  // ---------------------------------------------------------------------
  // Properties of the digit functions.

  lemma ShiftDigit(x: int, p: int, y: int, d: int)
    ensures (x * p + y) * 10 + d == x * (p * 10) + (y * 10 + d)
  {
  }

  /** Decimal digits to the right of `a` shift its value by a power of ten. */
  lemma {:induction false} DigitsValueAppend(a: string, b: string)
    ensures DigitsValue(a + b, Decimal) == DigitsValue(a, Decimal) * Pow10(|b|) + DigitsValue(b, Decimal)
    decreases |b|
  {
    if |b| == 0 {
      assert a + b == a;
    } else {
      var b' := b[..|b| - 1];
      var d := DigitValue(b[|b| - 1]);
      assert (a + b)[..|a + b| - 1] == a + b';
      assert (a + b)[|a + b| - 1] == b[|b| - 1];
      DigitsValueAppend(a, b');
      var x := DigitsValue(a, Decimal);
      var p := Pow10(|b'|);
      assert Pow10(|b|) == p * 10;
      assert DigitsValue(a + b, Decimal) == DigitsValue(a + b', Decimal) * 10 + d;
      assert DigitsValue(b, Decimal) == DigitsValue(b', Decimal) * 10 + d;
      ShiftDigit(x, p, DigitsValue(b', Decimal), d);
    }
  }

  lemma {:induction false} ZerosValue(k: nat)
    ensures DigitsValue(Zeros(k), Decimal) == 0
  {
    if k > 0 {
      assert Zeros(k)[..k - 1] == Zeros(k - 1);
      ZerosValue(k - 1);
    }
  }

  /** Reading back a rendered natural number gives the number. */
  lemma {:induction false} NatToStringValue(n: nat)
    ensures DigitsValue(NatToString(n), Decimal) == n
  {
    if n >= 10 {
      NatToStringValue(n / 10);
      var r := NatToString(n);
      assert r[..|r| - 1] == NatToString(n / 10);
    } else {
      assert NatToString(n)[..0] == "";
    }
  }

  /** A digit run stops exactly where the digits stop. */
  lemma {:induction false} DigitRunOfDigits(ds: string, rest: string, radix: Radix)
    requires forall i :: 0 <= i < |ds| ==> IsDigit(ds[i], radix)
    requires |rest| == 0 || !IsDigit(rest[0], radix)
    ensures DigitRun(ds + rest, radix) == |ds|
  {
    if |ds| > 0 {
      assert (ds + rest)[1..] == ds[1..] + rest;
      DigitRunOfDigits(ds[1..], rest, radix);
    } else {
      assert ds + rest == rest;
    }
  }

  // ---------------------------------------------------------------------
  // Round trips between rendering and parsing.

  /** Digit strings start with no white space and no sign. */
  lemma DigitsUnsigned(ds: string)
    requires |ds| > 0 && IsDigit(ds[0], Decimal)
    ensures TrimStart(ds) == ds
    ensures SplitSign(ds) == (false, ds)
  {
    assert '0' <= ds[0] <= '9';
    assert !IsSpace(ds[0]);
  }

  lemma NatToStringDigits(s: string, n: nat)
    requires s == NatToString(n)
    ensures |s| > 0 && forall i :: 0 <= i < |s| ==> IsDigit(s[i], Decimal)
    ensures DigitsValue(s, Decimal) == n
  {
    NatToStringValue(n);
  }

  /** Text that starts with a `-` followed by a digit. */
  lemma NegativeText(t: string)
    requires |t| > 0 && IsDigit(t[0], Decimal)
    ensures TrimStart("-" + t) == "-" + t
    ensures SplitSign("-" + t) == (true, t)
  {
    var s := "-" + t;
    assert s[0] == '-' && s[1..] == t;
  }

  /** `parseInt` of text whose sign-stripped start is a run of decimal
      digits reaching to its end. */
  lemma DecimalInt(s: string, autoRadix: bool, negative: bool, u: string)
    requires SplitSign(TrimStart(s)) == (negative, u)
    requires |u| > 0 && forall i :: 0 <= i < |u| ==> IsDigit(u[i], Decimal)
    ensures ParseInt(s, autoRadix)
         == Some(if negative then -(DigitsValue(u, Decimal) as int) else DigitsValue(u, Decimal) as int)
  {
    assert !(|u| >= 2 && (u[1] == 'x' || u[1] == 'X')) by {
      if |u| >= 2 { assert IsDigit(u[1], Decimal); }
    }
    DigitRunOfDigits(u, "", Decimal);
    assert u + "" == u;
    assert u[..|u|] == u;
  }

  lemma ParseIntDigits(ds: string, autoRadix: bool)
    requires |ds| > 0 && forall i :: 0 <= i < |ds| ==> IsDigit(ds[i], Decimal)
    ensures ParseInt(ds, autoRadix) == Some(DigitsValue(ds, Decimal) as int)
  {
    DigitsUnsigned(ds);
    DecimalInt(ds, autoRadix, false, ds);
  }

  lemma ParseIntNegativeDigits(ds: string, autoRadix: bool)
    requires |ds| > 0 && forall i :: 0 <= i < |ds| ==> IsDigit(ds[i], Decimal)
    ensures ParseInt("-" + ds, autoRadix) == Some(-(DigitsValue(ds, Decimal) as int))
  {
    NegativeText(ds);
    DecimalInt("-" + ds, autoRadix, true, ds);
  }

  /** `parseInt` reads back the decimal rendering of any natural number,
      with or without the radix argument. */
  lemma ParseIntRendered(n: nat, autoRadix: bool)
    ensures ParseInt(NatToString(n), autoRadix) == Some(n as int)
  {
    var s := NatToString(n);
    NatToStringDigits(s, n);
    ParseIntDigits(s, autoRadix);
  }

  /** ... and of any negative integer, written with a leading `-`. */
  lemma ParseIntRenderedNegative(n: nat, autoRadix: bool)
    ensures ParseInt("-" + NatToString(n), autoRadix) == Some(-(n as int))
  {
    var s := NatToString(n);
    NatToStringDigits(s, n);
    ParseIntNegativeDigits(s, autoRadix);
  }

  /** `parseFloat` of text whose sign-stripped start scans as a decimal
      literal. */
  lemma DecimalFloat(s: string, negative: bool, u: string, d: DecimalLiteral)
    requires SplitSign(TrimStart(s)) == (negative, u)
    requires ScanDecimal(u) == Some(d)
    ensures ParseFloat(s) == Finite(if negative then -LiteralValue(d) else LiteralValue(d))
  {
  }

  /** A digit string scans as a whole number with no fraction or exponent. */
  lemma ScanDigits(ds: string)
    requires |ds| > 0 && forall i :: 0 <= i < |ds| ==> IsDigit(ds[i], Decimal)
    ensures ScanDecimal(ds) == Some(Literal(ds, "", 0))
    ensures LiteralValue(Literal(ds, "", 0)) == DigitsValue(ds, Decimal) as real
  {
    DigitRunOfDigits(ds, "", Decimal);
    assert ds + "" == ds;
    assert ds[|ds|..] == "" && ds[..|ds|] == ds;
    assert ExponentOf("") == 0;
  }

  /** `parseFloat` reads a plain digit string as its decimal value. */
  lemma ParseFloatDigits(ds: string)
    requires |ds| > 0 && forall i :: 0 <= i < |ds| ==> IsDigit(ds[i], Decimal)
    ensures ParseFloat(ds) == Finite(DigitsValue(ds, Decimal) as real)
  {
    DigitsUnsigned(ds);
    ScanDigits(ds);
    DecimalFloat(ds, false, ds, Literal(ds, "", 0));
  }

  /** `parseFloat` reads back the decimal rendering of any natural number. */
  lemma ParseFloatRendered(n: nat)
    ensures ParseFloat(NatToString(n)) == Finite(n as real)
  {
    var s := NatToString(n);
    NatToStringDigits(s, n);
    ParseFloatDigits(s);
  }

  lemma TwoDigitFraction(a: string, b: string)
    requires |b| == 2
    ensures LiteralValue(Literal(a, b, 0))
         == DigitsValue(a, Decimal) as real + DigitsValue(b, Decimal) as real / 100.0
  {
    var y := DigitsValue(b, Decimal) as real;
    assert Shift(y, -2) == Shift(y / 10.0, -1) == Shift(y / 10.0 / 10.0, 0);
  }

  lemma {:induction false} ScanPoint(a: string, b: string)
    requires |a| > 0 && forall i :: 0 <= i < |a| ==> IsDigit(a[i], Decimal)
    requires forall i :: 0 <= i < |b| ==> IsDigit(b[i], Decimal)
    ensures ScanDecimal(a + "." + b) == Some(Literal(a, b, 0))
  {
    var r := a + "." + b;
    assert r == a + ("." + b);
    DigitRunOfDigits(a, "." + b, Decimal);
    assert r[..|a|] == a;
    assert r[|a|..] == "." + b;
    assert ("." + b)[1..] == b;
    DigitRunOfDigits(b, "", Decimal);
    assert b + "" == b;
    assert b[..|b|] == b && b[|b|..] == "";
    assert ExponentOf("") == 0;
  }

  /** Text of the form `whole.dd` scans as that literal and denotes `n`
      hundredths. */
  lemma FixedShape(r: string, n: int)
    requires |r| >= 4 && r[|r| - 3] == '.'
    requires forall i :: 0 <= i < |r| && i != |r| - 3 ==> IsDigit(r[i], Decimal)
    requires DigitsValue(r[..|r| - 3], Decimal) * 100 + DigitsValue(r[|r| - 2..], Decimal) == n
    ensures ScanDecimal(r) == Some(Literal(r[..|r| - 3], r[|r| - 2..], 0))
    ensures LiteralValue(Literal(r[..|r| - 3], r[|r| - 2..], 0)) == n as real / 100.0
  {
    var a := r[..|r| - 3];
    var b := r[|r| - 2..];
    assert r == a + "." + b;
    assert forall i :: 0 <= i < |a| ==> IsDigit(a[i], Decimal) by {
      forall i | 0 <= i < |a| ensures IsDigit(a[i], Decimal) {
        assert a[i] == r[i];
      }
    }
    assert forall i :: 0 <= i < |b| ==> IsDigit(b[i], Decimal) by {
      forall i | 0 <= i < |b| ensures IsDigit(b[i], Decimal) {
        assert b[i] == r[|r| - 2 + i];
      }
    }
    ScanPoint(a, b);
    TwoDigitFraction(a, b);
  }

  /** Left-padding with zeros keeps the value of a digit string. */
  lemma PaddedValue(m: string)
    ensures var z := if |m| <= 2 then Zeros(3 - |m|) + m else m;
            && |z| >= 3
            && DigitsValue(z[..|z| - 2], Decimal) * 100 + DigitsValue(z[|z| - 2..], Decimal)
               == DigitsValue(m, Decimal)
  {
    var z := if |m| <= 2 then Zeros(3 - |m|) + m else m;
    if |m| <= 2 {
      DigitsValueAppend(Zeros(3 - |m|), m);
      ZerosValue(3 - |m|);
    }
    assert DigitsValue(z, Decimal) == DigitsValue(m, Decimal);
    assert z == z[..|z| - 2] + z[|z| - 2..];
    DigitsValueAppend(z[..|z| - 2], z[|z| - 2..]);
    assert Pow10(2) == 100;
  }

  /** The whole part and the two decimals `FixedAbs` prints denote the
      hundredths count. */
  lemma FixedAbsValue(x: real)
    requires x >= 0.0
    ensures var r := FixedAbs(x);
            DigitsValue(r[..|r| - 3], Decimal) * 100 + DigitsValue(r[|r| - 2..], Decimal) == Hundredths(x)
  {
    var n := Hundredths(x);
    var m := NatToString(n);
    NatToStringDigits(m, n);
    PaddedValue(m);
    var z := if |m| <= 2 then Zeros(3 - |m|) + m else m;
    var r := z[..|z| - 2] + "." + z[|z| - 2..];
    assert r == FixedAbs(x);
    assert r[..|r| - 3] == z[..|z| - 2];
    assert r[|r| - 2..] == z[|z| - 2..];
  }

  /** Reading `whole.dd` back with `parseFloat`. */
  lemma ParseFloatFixed(r: string, n: int)
    requires |r| >= 4 && r[|r| - 3] == '.'
    requires forall i :: 0 <= i < |r| && i != |r| - 3 ==> IsDigit(r[i], Decimal)
    requires DigitsValue(r[..|r| - 3], Decimal) * 100 + DigitsValue(r[|r| - 2..], Decimal) == n
    ensures ParseFloat(r) == Finite(n as real / 100.0)
  {
    FixedShape(r, n);
    DigitsUnsigned(r);
    DecimalFloat(r, false, r, Literal(r[..|r| - 3], r[|r| - 2..], 0));
  }

  /** Reading `-whole.dd` back with `parseFloat`. */
  lemma ParseFloatFixedNegative(r: string, n: int)
    requires |r| >= 4 && r[|r| - 3] == '.'
    requires forall i :: 0 <= i < |r| && i != |r| - 3 ==> IsDigit(r[i], Decimal)
    requires DigitsValue(r[..|r| - 3], Decimal) * 100 + DigitsValue(r[|r| - 2..], Decimal) == n
    ensures ParseFloat("-" + r) == Finite(-(n as real / 100.0))
  {
    FixedShape(r, n);
    NegativeText(r);
    DecimalFloat("-" + r, true, r, Literal(r[..|r| - 3], r[|r| - 2..], 0));
  }

  lemma FixedAbsRoundTrip(x: real)
    requires x >= 0.0
    ensures ParseFloat(FixedAbs(x)) == Finite(Hundredths(x) as real / 100.0)
  {
    FixedAbsValue(x);
    ParseFloatFixed(FixedAbs(x), Hundredths(x));
  }

  lemma Fixed2RoundTripNegative(x: real)
    requires x < 0.0
    ensures ParseFloat(Fixed2(x)) == Finite(Round2(x))
  {
    FixedAbsValue(-x);
    ParseFloatFixedNegative(FixedAbs(-x), Hundredths(-x));
  }

  lemma Fixed2RoundTripNonNegative(x: real)
    requires x >= 0.0
    ensures ParseFloat(Fixed2(x)) == Finite(Round2(x))
  {
    FixedAbsRoundTrip(x);
  }

  /** `x.toFixed(2)` reads back through `parseFloat` as `x` rounded to
      hundredths. */
  lemma Fixed2RoundTrip(x: real)
    ensures ParseFloat(Fixed2(x)) == Finite(Round2(x))
  {
    if x < 0.0 {
      Fixed2RoundTripNegative(x);
    } else {
      Fixed2RoundTripNonNegative(x);
    }
  }

  /** Rounding to hundredths moves a value by at most half a hundredth. */
  lemma Round2Bound(x: real)
    ensures -0.005 <= Round2(x) - x <= 0.005
  {
  }
}
