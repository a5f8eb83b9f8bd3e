/**
 * The numeric conversions the line parser applies to field values:
 * `int(s)`, `float(s)` and `int(x)` on a float (truncation toward zero),
 * over a decimal-digit grammar. Values are exact: a decimal literal denotes
 * the rational number it spells.
 */
module Numerals {
  import opened Wrappers
  import Text

  predicate IsDigit(c: char) {
    '0' <= c <= '9'
  }

  predicate AllDigits(s: string) {
    forall i :: 0 <= i < |s| ==> IsDigit(s[i])
  }

  function Pow10(k: nat): (p: nat)
    ensures p >= 1
  {
    if k == 0 then 1 else 10 * Pow10(k - 1)
  }

  /** The number a string of decimal digits spells, most significant first;
      the empty string spells 0. */
  function DigitsValue(s: string): nat
    requires AllDigits(s)
  {
    if s == [] then 0
    else 10 * DigitsValue(s[..|s| - 1]) + (s[|s| - 1] as int - '0' as int)
  }

  /** An optional leading `+` or `-`: whether it is `-`, and the rest. */
  function SplitSign(s: string): (bool, string) {
    if s != [] && (s[0] == '-' || s[0] == '+') then (s[0] == '-', s[1..]) else (false, s)
  }

  /** `int(s)`: an optional sign followed by one or more decimal digits;
      anything else is rejected. */
  function ParseInt(s: string): Option<int> {
    var (negative, body) := SplitSign(s);
    if body != [] && AllDigits(body) then
      var n: int := DigitsValue(body);
      Some(if negative then -n else n)
    else
      None
  }

  /** `float(s)`: an optional sign followed by digits with at most one
      decimal point and at least one digit (`12`, `12.`, `12.5`, `.5`);
      anything else is rejected. */
  function ParseDecimal(s: string): Option<real> {
    var (negative, body) := SplitSign(s);
    match ParseUnsignedDecimal(body)
    case Some(v) => Some(if negative then -v else v)
    case None => None
  }

  /** The value of the digits `whole` `.` `frac`. */
  function PointValue(whole: string, frac: string): real
    requires AllDigits(whole) && AllDigits(frac)
  {
    DigitsValue(whole) as real + DigitsValue(frac) as real / Pow10(|frac|) as real
  }

  /** The unsigned part of `float(s)`. */
  function ParseUnsignedDecimal(body: string): Option<real> {
    if '.' in body then
      var halves := Text.SplitAtFirst(body, '.');
      var whole, frac := halves.0, halves.1;
      if (whole != [] || frac != []) && AllDigits(whole) && AllDigits(frac) then
        Some(PointValue(whole, frac))
      else
        None
    else if body != [] && AllDigits(body) then
      Some(DigitsValue(body) as real)
    else
      None
  }

  /** `int(x)` for a float `x`: the integer part, dropping the fraction
      toward zero. */
  function TruncateTowardZero(x: real): int
  {
    if x >= 0.0 then x.Floor else -((-x).Floor)
  }

  /** Truncation keeps the integer part: the result is the integer nearest
      to `x` on the side of zero, and never crosses zero. */
  lemma TruncateTowardZeroSpec(x: real)
    ensures var t := TruncateTowardZero(x);
      && (x >= 0.0 ==> 0 <= t && t as real <= x < t as real + 1.0)
      && (x < 0.0 ==> t <= 0 && t as real - 1.0 < x <= t as real)
  {
  }

  /** Every string `int()` accepts is accepted by `float()` with the same
      value. */
  lemma IntLiteralIsDecimal(s: string)
    requires ParseInt(s).Some?
    ensures ParseDecimal(s) == Some(ParseInt(s).value as real)
  {
  }

  // Spellings, used to state what the parsers accept.

  function Digit(d: nat): (c: char)
    requires d < 10
    ensures IsDigit(c) && c as int - '0' as int == d
  {
    ('0' as int + d) as char
  }

  /** The decimal spelling of `n`, without leading zeros. */
  function NatToString(n: nat): (s: string)
    ensures s != [] && AllDigits(s)
  {
    if n < 10 then [Digit(n)] else NatToString(n / 10) + [Digit(n % 10)]
  }

  function Sign(negative: bool): string {
    if negative then "-" else ""
  }

  /** The decimal spelling of `n`, with `-` in front when negative. */
  function IntToString(n: int): string {
    Sign(n < 0) + NatToString(if n < 0 then -n else n)
  }

  lemma {:induction false} NatToStringValue(n: nat)
    ensures DigitsValue(NatToString(n)) == n
  {
    if n >= 10 {
      NatToStringValue(n / 10);
      var s := NatToString(n);
      assert s[..|s| - 1] == NatToString(n / 10);
    }
  }

  /** Appending digits shifts the value left by their count. */
  lemma {:induction false} DigitsValueConcat(a: string, b: string)
    requires AllDigits(a) && AllDigits(b)
    ensures DigitsValue(a + b) == DigitsValue(a) * Pow10(|b|) + DigitsValue(b)
  {
    if b != [] {
      var b' := b[..|b| - 1];
      var d := b[|b| - 1] as int - '0' as int;
      DigitsValueConcat(a, b');
      assert (a + b)[..|a + b| - 1] == a + b';
      assert (a + b)[|a + b| - 1] == b[|b| - 1];
      ShiftDigit(DigitsValue(a), Pow10(|b'|), DigitsValue(b'), d);
    } else {
      assert a + b == a;
    }
  }

  lemma ShiftDigit(x: int, p: int, y: int, d: int)
    ensures 10 * (x * p + y) + d == x * (10 * p) + (10 * y + d)
  {
    assert 10 * (x * p) == x * (10 * p);
  }

  /** A leading `-`, or none, in front of something that does not start
      with a sign. */
  lemma SplitSignOf(negative: bool, body: string)
    requires body == [] || (body[0] != '-' && body[0] != '+')
    ensures SplitSign(Sign(negative) + body) == (negative, body)
  {
    if negative {
      assert (Sign(negative) + body)[1..] == body;
    } else {
      assert Sign(negative) + body == body;
    }
  }

  /** `int()` reads back every integer's decimal spelling. */
  lemma ParseIntRoundTrip(n: int)
    ensures ParseInt(IntToString(n)) == Some(n)
  {
    var body := NatToString(if n < 0 then -n else n);
    NatToStringValue(if n < 0 then -n else n);
    assert IsDigit(body[0]);
    SplitSignOf(n < 0, body);
  }

  lemma NoPointInDigits(s: string)
    requires AllDigits(s)
    ensures '.' !in s
  {
  }

  /** The unsigned value of digits around one decimal point. */
  lemma ParsePointedDigits(whole: string, frac: string)
    requires whole != [] || frac != []
    requires AllDigits(whole) && AllDigits(frac)
    ensures ParseUnsignedDecimal(whole + "." + frac) == Some(PointValue(whole, frac))
  {
    var digits := whole + "." + frac;
    NoPointInDigits(whole);
    Text.SplitAtFirstOf(whole, '.', frac);
    assert digits == whole + ['.'] + frac;
    assert '.' in digits by { assert digits[|whole|] == '.'; }
    var halves := Text.SplitAtFirst(digits, '.');
    assert halves.0 == whole && halves.1 == frac;
  }

  /** The value of `whole.frac` is the number all its digits spell, divided
      by ten to the number of fraction digits. */
  lemma PointValueExact(whole: string, frac: string)
    requires AllDigits(whole) && AllDigits(frac)
    ensures PointValue(whole, frac) == DigitsValue(whole + frac) as real / Pow10(|frac|) as real
  {
    DigitsValueConcat(whole, frac);
    DivideSum(DigitsValue(whole), DigitsValue(frac), Pow10(|frac|));
  }

  /** Division of `q * p + r` by `p`, over the reals. */
  lemma DivideSum(q: nat, r: nat, p: nat)
    requires p >= 1
    ensures q as real + r as real / p as real == (q * p + r) as real / p as real
  {
    assert (q * p) as real == q as real * p as real;
  }

  /** `float()` applies the sign it splits off to the unsigned value. */
  lemma ParseDecimalOfSplit(s: string, negative: bool, body: string, v: real)
    requires SplitSign(s) == (negative, body)
    requires ParseUnsignedDecimal(body) == Some(v)
    ensures ParseDecimal(s) == Some(if negative then -v else v)
  {
  }

  /** `float()` on a signed spelling with a decimal point: the value of the
      digits on either side of the point, with the sign applied. */
  lemma ParseDecimalPointed(negative: bool, whole: string, frac: string)
    requires whole != [] || frac != []
    requires AllDigits(whole) && AllDigits(frac)
    ensures var v := PointValue(whole, frac);
      ParseDecimal(Sign(negative) + (whole + "." + frac)) == Some(if negative then -v else v)
  {
    PointedUnsigned(whole, frac);
    SplitSignOf(negative, whole + "." + frac);
    ParsePointedDigits(whole, frac);
    ParseDecimalOfSplit(Sign(negative) + (whole + "." + frac), negative, whole + "." + frac, PointValue(whole, frac));
  }

  /** A spelling made of digits and a point does not start with a sign. */
  lemma PointedUnsigned(whole: string, frac: string)
    requires AllDigits(whole)
    ensures var body := whole + "." + frac; body[0] != '-' && body[0] != '+'
  {
    var body := whole + "." + frac;
    assert body[0] == if whole != [] then whole[0] else '.';
  }

  /** `int(float("400.7"))` is 400. */
  lemma TruncatedFraction()
    ensures ParseDecimal("400.7") == Some(400.7) && TruncateTowardZero(400.7) == 400
  {
    assert DigitsValue("400") == 400 by {
      assert "400"[..2] == "40";
      assert "40"[..1] == "4";
    }
    assert "400" + "." + "7" == "400.7";
    SpelledDecimal("400.7", false, "400", "7", 400, 7);
  }

  /** `int(float("1.0"))` is 1: a flame value written with a point. */
  lemma TruncatedOne()
    ensures ParseDecimal("1.0") == Some(1.0) && TruncateTowardZero(1.0) == 1
  {
    assert "1" + "." + "0" == "1.0";
    SpelledDecimal("1.0", false, "1", "0", 1, 0);
  }

  /** `int(float("-0.5"))` is 0: truncation goes toward zero. */
  lemma TruncatedNegative()
    ensures ParseDecimal("-0.5") == Some(-0.5) && TruncateTowardZero(-0.5) == 0
  {
    assert "-0.5"[1..] == "0" + "." + "5";
    SpelledDecimal("-0.5", true, "0", "5", 0, 5);
  }

  /** A literal with one fraction digit, given the values of its digits. */
  lemma SpelledDecimal(lit: string, negative: bool, whole: string, frac: string, w: nat, f: nat)
    requires whole != [] && |frac| == 1 && AllDigits(whole) && AllDigits(frac)
    requires SplitSign(lit) == (negative, whole + "." + frac)
    requires DigitsValue(whole) == w && DigitsValue(frac) == f
    ensures ParseDecimal(lit) == Some(if negative then -(w as real + f as real / 10.0) else w as real + f as real / 10.0)
  {
    assert Pow10(|frac|) == 10;
    ParsePointedDigits(whole, frac);
    ParseDecimalOfSplit(lit, negative, whole + "." + frac, PointValue(whole, frac));
  }
}
