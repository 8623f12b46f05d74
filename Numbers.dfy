/** Text to number and number to text, as the core uses them:
    QString::toDouble (with its `bool *ok` failure flag), QString::number for
    integers, and QString::number(x, 'f', 6) for coordinates. Numbers are
    exact reals here; binary rounding of doubles is not modelled. */
module Numbers {
  import opened Wrappers
  import opened Text

  predicate IsDigit(c: char) {
    '0' <= c <= '9'
  }

  function DigitVal(c: char): nat
    requires IsDigit(c)
  {
    c as int - '0' as int
  }

  function DigitChar(d: nat): (c: char)
    requires d < 10
    ensures IsDigit(c) && DigitVal(c) == d
  {
    ('0' as int + d) as char
  }

  predicate AllDigits(s: string) {
    forall i :: 0 <= i < |s| ==> IsDigit(s[i])
  }

  /** The value of a string of decimal digits, most significant first. */
  function DigitsValue(s: string): nat
    requires AllDigits(s)
  {
    if s == [] then 0 else DigitsValue(s[..|s| - 1]) * 10 + DigitVal(s[|s| - 1])
  }

  function Pow10(n: nat): (r: nat)
    ensures r >= 1
  {
    if n == 0 then 1 else 10 * Pow10(n - 1)
  }

  lemma {:induction false} DigitsValueBound(s: string)
    requires AllDigits(s)
    ensures DigitsValue(s) < Pow10(|s|)
  {
    if s != [] {
      DigitsValueBound(s[..|s| - 1]);
    }
  }

  lemma AllDigitsAppend(a: string, b: string)
    requires AllDigits(a) && AllDigits(b)
    ensures AllDigits(a + b)
  {
  }

  lemma ShiftDigit(x: int, p: int, y: int, d: int)
    ensures (x * p + y) * 10 + d == x * (10 * p) + (y * 10 + d)
  {
  }

  /** The value of a concatenation of digit strings. */
  lemma {:induction false} DigitsValueAppend(a: string, b: string)
    requires AllDigits(a) && AllDigits(b)
    ensures AllDigits(a + b)
    ensures DigitsValue(a + b) == DigitsValue(a) * Pow10(|b|) + DigitsValue(b)
    decreases |b|
  {
    AllDigitsAppend(a, b);
    if b == [] {
      assert a + b == a;
    } else {
      var b' := b[..|b| - 1];
      var d := DigitVal(b[|b| - 1]);
      assert (a + b)[..|a + b| - 1] == a + b';
      assert (a + b)[|a + b| - 1] == b[|b| - 1];
      DigitsValueAppend(a, b');
      assert DigitsValue(a + b) == DigitsValue(a + b') * 10 + d;
      assert DigitsValue(b) == DigitsValue(b') * 10 + d;
      ShiftDigit(DigitsValue(a), Pow10(|b'|), DigitsValue(b'), d);
    }
  }

  /** Equal-length digit strings compare as text exactly as their values
      compare as numbers. */
  lemma {:induction false} DigitsLexOrder(x: string, y: string)
    requires |x| == |y| && AllDigits(x) && AllDigits(y)
    ensures LexLess(x, y) <==> DigitsValue(x) < DigitsValue(y)
  {
    if x != [] {
      var x', y' := x[1..], y[1..];
      var p := Pow10(|x'|);
      DigitsValueAppend([x[0]], x');
      DigitsValueAppend([y[0]], y');
      assert [x[0]] + x' == x && [y[0]] + y' == y;
      DigitsValueBound(x');
      DigitsValueBound(y');
      var a, b := DigitVal(x[0]), DigitVal(y[0]);
      assert DigitsValue(x) == a * p + DigitsValue(x');
      assert DigitsValue(y) == b * p + DigitsValue(y');
      if a < b {
        MulLess(a, b, p);
      } else if b < a {
        MulLess(b, a, p);
      } else {
        DigitsLexOrder(x', y');
      }
    }
  }

  /** Equal-length digit strings are equal exactly when their values are. */
  lemma DigitsSameValue(x: string, y: string)
    requires |x| == |y| && AllDigits(x) && AllDigits(y)
    ensures x == y <==> DigitsValue(x) == DigitsValue(y)
  {
    if x != y {
      LexLessTotal(x, y);
      DigitsLexOrder(x, y);
      DigitsLexOrder(y, x);
    }
  }

  lemma MulLess(a: nat, b: nat, p: nat)
    requires a < b
    ensures a * p + p <= b * p
  {
    var k: nat := b - a - 1;
    assert b * p == a * p + p + k * p by {
      assert b == a + 1 + k;
    }
  }

  /** The decimal digits of `n`, without leading zeros ("0" for zero). */
  function NatDigits(n: nat): (s: string)
    ensures |s| >= 1 && AllDigits(s)
  {
    if n < 10 then [DigitChar(n)] else NatDigits(n / 10) + [DigitChar(n % 10)]
  }

  /** The digits of `n` spell `n`. */
  lemma {:induction false} NatDigitsValue(n: nat)
    ensures DigitsValue(NatDigits(n)) == n
  {
    if n >= 10 {
      NatDigitsValue(n / 10);
      var s := NatDigits(n);
      assert s[..|s| - 1] == NatDigits(n / 10);
    }
  }

  /** A number below 10^k needs at most k digits. */
  lemma {:induction false} NatDigitsLength(n: nat, k: nat)
    requires 1 <= k && n < Pow10(k)
    ensures |NatDigits(n)| <= k
  {
    if n >= 10 {
      assert k >= 2;
      NatDigitsLength(n / 10, k - 1);
    }
  }

  /** `s` with zeros in front, to at least `width` characters. */
  function PadZeros(s: string, width: nat): (r: string)
    ensures |r| == if |s| >= width then |s| else width
    ensures AllDigits(s) ==> AllDigits(r) && DigitsValue(r) == DigitsValue(s)
    decreases width - |s|
  {
    if |s| >= width then s
    else
      var r := PadZeros(['0'] + s, width);
      if AllDigits(s) then
        DigitsValueAppend(['0'], s);
        r
      else r
  }

  /** QString::number(n) for an integer. */
  function FormatInt(i: int): string {
    if i < 0 then "-" + NatDigits(-i) else NatDigits(i)
  }

  /** `x` divided by ten, `n` times. */
  function ShiftRight(x: real, n: nat): real {
    if n == 0 then x else ShiftRight(x, n - 1) / 10.0
  }

  /** `x` multiplied by ten, `n` times. */
  function ShiftLeft(x: real, n: nat): real {
    if n == 0 then x else ShiftLeft(x, n - 1) * 10.0
  }

  /** Shifting is multiplication and division by a power of ten. */
  lemma {:induction false} ShiftsArePowers(x: real, n: nat)
    ensures ShiftLeft(x, n) == x * Pow10(n) as real
    ensures ShiftRight(x, n) == x / Pow10(n) as real
  {
    if n > 0 {
      ShiftsArePowers(x, n - 1);
    }
  }

  /** `m` times ten to the power `e`. */
  function Scale(m: real, e: int): real {
    if e >= 0 then ShiftLeft(m, e) else ShiftRight(m, -e)
  }

  /** An exponent: an optional sign and at least one digit. */
  function ParseExponent(s: string): Option<int> {
    var neg := |s| > 0 && s[0] == '-';
    var digits := if |s| > 0 && (s[0] == '+' || s[0] == '-') then s[1..] else s;
    if |digits| > 0 && AllDigits(digits) then
      var v: int := DigitsValue(digits);
      Some(if neg then -v else v)
    else None
  }

  /** `ip.fp` as a real. */
  function MantissaValue(ip: string, fp: string): real
    requires AllDigits(ip) && AllDigits(fp)
  {
    DigitsValue(ip) as real + ShiftRight(DigitsValue(fp) as real, |fp|)
  }

  /** The text before the first exponent marker 'e' or 'E'. */
  function MantissaText(s: string): string {
    if s == [] || s[0] == 'e' || s[0] == 'E' then [] else [s[0]] + MantissaText(s[1..])
  }

  /** The text after the first exponent marker, when there is one. */
  function ExponentText(s: string): Option<string> {
    if s == [] then None
    else if s[0] == 'e' || s[0] == 'E' then Some(s[1..])
    else ExponentText(s[1..])
  }

  /** The text before the first decimal point. */
  function IntegerText(m: string): string {
    if m == [] || m[0] == '.' then [] else [m[0]] + IntegerText(m[1..])
  }

  /** The text after the first decimal point ("" when there is none). */
  function FractionText(m: string): string {
    if m == [] then [] else if m[0] == '.' then m[1..] else FractionText(m[1..])
  }

  /** An unsigned decimal: digits, an optional point with more digits (at
      least one digit in all), and an optional exponent. */
  function ParseUnsigned(b: string): Option<real> {
    var m := MantissaText(b);
    var ip := IntegerText(m);
    var fp := FractionText(m);
    if !(AllDigits(ip) && AllDigits(fp) && |ip| + |fp| > 0) then None
    else
      match ExponentText(b)
      case None => Some(MantissaValue(ip, fp))
      case Some(x) =>
        match ParseExponent(x)
        case None => None
        case Some(k) => Some(Scale(MantissaValue(ip, fp), k))
  }

  /** QString::toDouble(&ok) in the C locale: surrounding whitespace is
      ignored, then an optional sign and an unsigned decimal. None is the
      conversion that sets `ok` to false. */
  function ParseNumber(s: string): Option<real> {
    var t := Trim(s);
    var body := if |t| > 0 && (t[0] == '+' || t[0] == '-') then t[1..] else t;
    Negated(|t| > 0 && t[0] == '-', ParseUnsigned(body))
  }

  /** A converted value, negated after a minus sign. */
  function Negated(neg: bool, v: Option<real>): Option<real> {
    match v
    case None => None
    case Some(x) => Some(if neg then -x else x)
  }

  /** True iff the text converts to a number (`ok` is set). */
  predicate IsNumber(s: string) {
    ParseNumber(s).Some?
  }

  /** The empty text, and any blank text, is not a number. */
  lemma {:induction false} BlankIsNotNumber(s: string)
    requires forall i :: 0 <= i < |s| ==> IsSpace(s[i])
    ensures !IsNumber(s)
  {
    TrimEmptyIffBlank(s);
  }

  /** Text without an exponent marker is all mantissa. */
  lemma {:induction false} NoExponentMarker(s: string)
    requires forall i :: 0 <= i < |s| ==> s[i] != 'e' && s[i] != 'E'
    ensures MantissaText(s) == s && ExponentText(s) == None
  {
    if s != [] {
      NoExponentMarker(s[1..]);
    }
  }

  /** A digit string followed by a point: the digits are the integer part and
      everything after the point the fraction. */
  lemma {:induction false} DigitsThenPoint(q: string, f: string)
    requires AllDigits(q)
    ensures IntegerText(q + "." + f) == q && FractionText(q + "." + f) == f
  {
    if q != [] {
      assert (q + "." + f)[1..] == q[1..] + "." + f;
      DigitsThenPoint(q[1..], f);
    }
  }

  /** A digit string without a point is all integer part. */
  lemma {:induction false} DigitsWithoutPoint(q: string)
    requires AllDigits(q)
    ensures IntegerText(q) == q && FractionText(q) == []
  {
    if q != [] {
      DigitsWithoutPoint(q[1..]);
    }
  }

  /** A digit string converts to the value it spells. */
  lemma ParseDigits(q: string)
    requires AllDigits(q) && |q| >= 1
    ensures ParseUnsigned(q) == Some(DigitsValue(q) as real)
  {
    NoExponentMarker(q);
    DigitsWithoutPoint(q);
    assert MantissaValue(q, []) == DigitsValue(q) as real;
  }

  /** Digits, a point and more digits convert to the value they spell. */
  lemma ParseDecimal(q: string, f: string)
    requires AllDigits(q) && AllDigits(f) && |q| >= 1
    ensures ParseUnsigned(q + "." + f) == Some(MantissaValue(q, f))
  {
    NoExponentMarker(q + "." + f);
    DigitsThenPoint(q, f);
  }

  /** A sign followed by text that starts and ends with a digit converts as
      that text does, negated after a minus. */
  lemma ParseSigned(s: string, neg: bool, b: string)
    requires |b| >= 1 && IsDigit(b[0]) && IsDigit(b[|b| - 1])
    requires s == (if neg then "-" else "") + b
    ensures ParseNumber(s) == Negated(neg, ParseUnsigned(b))
  {
    assert s[|s| - 1] == b[|b| - 1];
    assert !IsSpace(s[0]) && !IsSpace(s[|s| - 1]);
    TrimOfTrimmed(s);
    assert Trim(s) == s;
    var body := if |s| > 0 && (s[0] == '+' || s[0] == '-') then s[1..] else s;
    assert body == b by {
      if neg { assert s[1..] == b; } else { assert s == b && s[0] != '+' && s[0] != '-'; }
    }
    assert (|s| > 0 && s[0] == '-') == neg;
  }

  /** The digits of `n` convert back to `n`. */
  lemma ParseNatDigits(n: nat)
    ensures ParseUnsigned(NatDigits(n)) == Some(n as real)
  {
    NatDigitsValue(n);
    ParseDigits(NatDigits(n));
  }

  /** What QString::number(i) writes converts back to i. */
  lemma ParseFormatInt(i: int)
    ensures ParseNumber(FormatInt(i)) == Some(i as real)
  {
    var n: nat := if i < 0 then -i else i;
    ParseNatDigits(n);
    ParseSigned(FormatInt(i), i < 0, NatDigits(n));
  }

  /** Rounding to the nearest integer, halves away from zero. */
  function RoundHalfAway(y: real): (n: int)
    ensures y - 0.5 <= n as real <= y + 0.5
    ensures (y >= 0.0 ==> n >= 0) && (y <= 0.0 ==> n <= 0)
  {
    if y >= 0.0 then (y + 0.5).Floor else -((-y + 0.5).Floor)
  }

  /** The value QString::number(x, 'f', 6) shows: x rounded to six decimals. */
  function Round6(x: real): (r: real)
    ensures x - 0.0000005 <= r <= x + 0.0000005
  {
    RoundHalfAway(x * 1000000.0) as real / 1000000.0
  }

  /** QString::number(x, 'f', 6): sign, integer part, point, exactly six
      decimals. */
  function FormatFixed6(x: real): string {
    var n := RoundHalfAway(x * 1000000.0);
    var m: nat := if n < 0 then -n else n;
    (if x < 0.0 then "-" else "") + NatDigits(m / 1000000) + "." + PadZeros(NatDigits(m % 1000000), 6)
  }

  /** A number written with six decimals is made of digits, a point and
      perhaps a leading minus sign; it starts with a digit or the sign and
      ends with a digit. */
  lemma FormatFixed6Chars(x: real)
    ensures var s := FormatFixed6(x);
            |s| > 0 && (IsDigit(s[0]) || s[0] == '-') && IsDigit(s[|s| - 1]) &&
            forall i :: 0 <= i < |s| ==> IsDigit(s[i]) || s[i] == '.' || s[i] == '-'
  {
    var n := RoundHalfAway(x * 1000000.0);
    var m: nat := if n < 0 then -n else n;
    var sign := if x < 0.0 then "-" else "";
    var a := NatDigits(m / 1000000);
    var b := PadZeros(NatDigits(m % 1000000), 6);
    var s := FormatFixed6(x);
    assert s == sign + a + "." + b;
    assert s[|s| - 1] == b[|b| - 1];
    forall i | 0 <= i < |s| ensures IsDigit(s[i]) || s[i] == '.' || s[i] == '-' {
      if i < |sign| {
      } else if i < |sign| + |a| {
        assert s[i] == a[i - |sign|];
      } else if i > |sign| + |a| {
        assert s[i] == b[i - |sign| - |a| - 1];
      }
    }
  }

  /** The two digit groups written for the count of millionths `m` spell
      m / 10^6. */
  lemma FixedDigitsValue(m: nat)
    ensures MantissaValue(NatDigits(m / 1000000), PadZeros(NatDigits(m % 1000000), 6)) ==
            m as real / 1000000.0
  {
    var q := NatDigits(m / 1000000);
    var f := PadZeros(NatDigits(m % 1000000), 6);
    NatDigitsLength(m % 1000000, 6);
    NatDigitsValue(m / 1000000);
    NatDigitsValue(m % 1000000);
    assert |f| == 6 && DigitsValue(f) == m % 1000000;
    ShiftsArePowers(DigitsValue(f) as real, 6);
    assert MantissaValue(q, f) == (m / 1000000) as real + (m % 1000000) as real / 1000000.0;
    assert m == (m / 1000000) * 1000000 + m % 1000000;
  }

  /** The unsigned text written for the count of millionths `m` converts
      back to m / 10^6. */
  lemma ParseFixedDigits(m: nat)
    ensures ParseUnsigned(NatDigits(m / 1000000) + "." + PadZeros(NatDigits(m % 1000000), 6)) ==
            Some(m as real / 1000000.0)
  {
    FixedDigitsValue(m);
    ParseDecimal(NatDigits(m / 1000000), PadZeros(NatDigits(m % 1000000), 6));
  }

  /** The sign written in front of the millionths restores the rounded
      value. */
  lemma SignedMillionths(x: real, m: nat)
    requires m as int == if RoundHalfAway(x * 1000000.0) < 0 then -RoundHalfAway(x * 1000000.0) else RoundHalfAway(x * 1000000.0)
    ensures Negated(x < 0.0, Some(m as real / 1000000.0)) == Some(Round6(x))
  {
  }

  /** What QString::number(x, 'f', 6) writes converts back to x rounded to
      six decimals, so at most half a millionth away from x. */
  lemma ParseFormatFixed6(x: real)
    ensures ParseNumber(FormatFixed6(x)) == Some(Round6(x))
  {
    var n := RoundHalfAway(x * 1000000.0);
    var m: nat := if n < 0 then -n else n;
    var b := NatDigits(m / 1000000) + "." + PadZeros(NatDigits(m % 1000000), 6);
    ParseFixedDigits(m);
    SignedMillionths(x, m);
    ParseSigned(FormatFixed6(x), x < 0.0, b);
  }

  // ----- 32-bit int ---------------------------------------------------

  const TwoTo31: int := 0x8000_0000
  const TwoTo32: int := 0x1_0000_0000

  predicate IsInt32(x: int) {
    -TwoTo31 <= x < TwoTo31
  }

  /** The value a C++ `int` holds after an operation whose exact result is
      `x`: the two's-complement wrap-around of the compiled code. */
  function Wrap32(x: int): (r: int)
    ensures IsInt32(r)
    ensures (x - r) % TwoTo32 == 0
  {
    var m := x % TwoTo32;
    if m >= TwoTo31 then m - TwoTo32 else m
  }

  /** Results that fit are kept as they are. */
  lemma Wrap32Fits(x: int)
    requires IsInt32(x)
    ensures Wrap32(x) == x
  {
    if x < 0 {
      assert x % TwoTo32 == x + TwoTo32;
    }
  }

  /** Wrapping after every step of a sum is wrapping once at the end. */
  lemma Wrap32Add(a: int, b: int)
    ensures Wrap32(Wrap32(a) + b) == Wrap32(a + b)
  {
    var w := Wrap32(a);
    var k := (a - w) / TwoTo32;
    assert a == w + k * TwoTo32;
    assert (a + b) % TwoTo32 == (w + b) % TwoTo32 by {
      ModShift(w + b, k);
    }
  }

  lemma ModShift(x: int, k: int)
    ensures (x + k * TwoTo32) % TwoTo32 == x % TwoTo32
  {
  }
}
