/** Python's Decimal as a sign, a coefficient and a power of ten, and its NUMERIC(38, 10) normal form. */
module Decimals {
  import opened Wrappers
  import opened Text

  datatype Decimal =
    | Finite(negative: bool, coefficient: nat, exponent: int)
    | Infinite(negative: bool)
    | NotANumber

  const SCALE: int := 10
  const MAX_INTEGER_DIGITS: int := 28
  const MAX_DIGITS: nat := 38

  function Digits(n: nat): nat {
    |NatText(n)|
  }

  // ----- text -----

  /** str(Decimal): plain notation near the point, scientific notation far from it. */
  function ToText(d: Decimal): string {
    match d
    case Infinite(negative) => (if negative then "-" else "") + "Infinity"
    case NotANumber => "NaN"
    case Finite(negative, coefficient, exponent) =>
      (if negative then "-" else "") + Magnitude(NatText(coefficient), exponent)
  }

  function Magnitude(digits: string, exponent: int): string
    requires |digits| > 0
  {
    var left := exponent + |digits|;
    var point := if exponent <= 0 && left > -6 then left else 1;
    Mantissa(digits, point) + ExponentText(left - point)
  }

  function Mantissa(digits: string, point: int): string {
    if point <= 0 then "0" + ("." + (Zeros(-point) + digits))
    else if point >= |digits| then digits + Zeros(point - |digits|)
    else digits[..point] + ("." + digits[point..])
  }

  function ExponentText(shift: int): string {
    if shift == 0 then "" else "E" + SignedText(shift)
  }

  function SignedText(i: int): string {
    if i < 0 then IntText(i) else "+" + IntText(i)
  }

  /** Decimal(text) for ASCII digits; NaN payloads are not kept. */
  function Parse(s: string): Option<Decimal> {
    ParseClean(Remove(Strip(s), {'_'}))
  }

  function ParseClean(t: string): Option<Decimal> {
    var negative := t != "" && t[0] == '-';
    var body := if t != "" && (t[0] == '-' || t[0] == '+') then t[1..] else t;
    if Lower(body) in {"inf", "infinity"} then Some(Infinite(negative))
    else if |body| >= 3 && Lower(body[..3]) == "nan" && AllDigits(body[3..]) then Some(NotANumber)
    else if |body| >= 4 && Lower(body[..4]) == "snan" && AllDigits(body[4..]) then Some(NotANumber)
    else ParseNumber(negative, body)
  }

  function ParseNumber(negative: bool, body: string): Option<Decimal> {
    var i := DigitSpan(body);
    var whole, rest := body[..i], body[i..];
    if rest != "" && rest[0] == '.' then
      var j := DigitSpan(rest[1..]);
      ParseExponent(negative, whole, rest[1..][..j], rest[1..][j..])
    else ParseExponent(negative, whole, "", rest)
  }

  function ParseExponent(negative: bool, whole: string, fraction: string, tail: string): Option<Decimal>
    requires AllDigits(whole) && AllDigits(fraction)
  {
    DigitsValueConcat(whole, fraction);
    if whole + fraction == "" then None
    else if tail == "" then Some(Finite(negative, DigitsValue(whole + fraction), -|fraction|))
    else if tail[0] == 'E' || tail[0] == 'e' then
      match ParseInt(tail[1..])
      case None => None
      case Some(e) => Some(Finite(negative, DigitsValue(whole + fraction), e - |fraction|))
    else None
  }

  predicate NumberChar(c: char) {
    IsDigit(c) || c == '.' || c == 'E' || c == '+' || c == '-'
  }

  predicate NumberText(s: string) {
    forall i :: 0 <= i < |s| ==> NumberChar(s[i])
  }

  lemma MagnitudeChars(digits: string, exponent: int)
    requires |digits| > 0 && AllDigits(digits)
    ensures NumberText(Magnitude(digits, exponent))
    ensures Magnitude(digits, exponent) != "" && IsDigit(Magnitude(digits, exponent)[0])
    ensures IsDigit(Magnitude(digits, exponent)[|Magnitude(digits, exponent)| - 1])
  {
    hide Mantissa, ExponentText;
    var left := exponent + |digits|;
    var point := if exponent <= 0 && left > -6 then left else 1;
    MantissaChars(digits, point);
    ExponentChars(left - point);
  }

  lemma MantissaChars(digits: string, point: int)
    requires |digits| > 0 && AllDigits(digits)
    ensures NumberText(Mantissa(digits, point)) && Mantissa(digits, point) != ""
    ensures IsDigit(Mantissa(digits, point)[0]) && IsDigit(Mantissa(digits, point)[|Mantissa(digits, point)| - 1])
  {
  }

  lemma ExponentChars(shift: int)
    ensures NumberText(ExponentText(shift))
    ensures shift != 0 ==> ExponentText(shift) != "" && IsDigit(ExponentText(shift)[|ExponentText(shift)| - 1])
    ensures shift == 0 ==> ExponentText(shift) == ""
  {
  }

  lemma {:induction false} MagnitudeParses(negative: bool, digits: string, exponent: int)
    requires |digits| > 0 && AllDigits(digits)
    ensures ParseNumber(negative, Magnitude(digits, exponent)) == Some(Finite(negative, DigitsValue(digits), exponent))
  {
    hide ParseNumber, DigitsValue, Mantissa, ExponentText;
    var left := exponent + |digits|;
    var point := if exponent <= 0 && left > -6 then left else 1;
    if point <= 0 {
      SmallParses(negative, digits, point);
    } else if point >= |digits| {
      WholeParses(negative, digits, left - point);
    } else {
      SplitParses(negative, digits, point, left - point);
    }
  }

  lemma WholeParses(negative: bool, digits: string, shift: int)
    requires |digits| > 0 && AllDigits(digits)
    ensures ParseNumber(negative, Mantissa(digits, |digits|) + ExponentText(shift))
         == Some(Finite(negative, DigitsValue(digits), shift))
  {
    assert digits + Zeros(0) == digits && digits + "" == digits;
    WholeBody(negative, digits, ExponentText(shift));
    TailParses(negative, digits, "", shift);
  }

  lemma SplitParses(negative: bool, digits: string, point: nat, shift: int)
    requires AllDigits(digits) && 0 < point < |digits|
    ensures ParseNumber(negative, Mantissa(digits, point) + ExponentText(shift))
         == Some(Finite(negative, DigitsValue(digits), shift + point - |digits|))
  {
    hide ParseNumber, DigitsValue, ExponentText, AllDigits;
    var whole, fraction := digits[..point], digits[point..];
    assert whole + fraction == digits;
    PointParses(negative, digits, whole, fraction, shift);
  }

  lemma SmallParses(negative: bool, digits: string, point: int)
    requires |digits| > 0 && AllDigits(digits) && point <= 0
    ensures ParseNumber(negative, Mantissa(digits, point) + ExponentText(0))
         == Some(Finite(negative, DigitsValue(digits), point - |digits|))
  {
    hide ParseNumber, DigitsValue, ExponentText;
    PaddedValue(1 - point, digits);
    LeadingZero(-point, digits);
    PointParses(negative, Zeros(1 - point) + digits, "0", Zeros(-point) + digits, 0);
  }

  lemma LeadingZero(n: nat, digits: string)
    ensures "0" + (Zeros(n) + digits) == Zeros(1 + n) + digits
  {
    assert Zeros(1 + n) == "0" + Zeros(n);
  }

  lemma PointParses(negative: bool, digits: string, whole: string, fraction: string, shift: int)
    requires whole + fraction == digits && AllDigits(digits) && digits != ""
    ensures ParseNumber(negative, whole + ("." + fraction) + ExponentText(shift))
         == Some(Finite(negative, DigitsValue(digits), shift - |fraction|))
  {
    forall i | 0 <= i < |fraction| ensures IsDigit(fraction[i]) {
      assert fraction[i] == digits[|whole| + i];
    }
    forall i | 0 <= i < |whole| ensures IsDigit(whole[i]) {
      assert whole[i] == digits[i];
    }
    DecimalBody(negative, whole, fraction, ExponentText(shift));
    TailParses(negative, whole, fraction, shift);
  }

  lemma PaddedValue(n: nat, digits: string)
    requires AllDigits(digits)
    ensures AllDigits(Zeros(n) + digits) && DigitsValue(Zeros(n) + digits) == DigitsValue(digits)
  {
    ZerosValue(n);
    DigitsValueConcat(Zeros(n), digits);
  }

  lemma TailParses(negative: bool, whole: string, fraction: string, shift: int)
    requires AllDigits(whole) && AllDigits(fraction) && whole + fraction != ""
    ensures AllDigits(whole + fraction)
    ensures ParseExponent(negative, whole, fraction, ExponentText(shift))
         == Some(Finite(negative, DigitsValue(whole + fraction), shift - |fraction|))
  {
    hide IntText, DigitsValue;
    SignedTextParses(shift);
    DigitsValueConcat(whole, fraction);
    assert ("E" + SignedText(shift))[1..] == SignedText(shift);
  }

  lemma SignedTextParses(i: int)
    ensures ParseInt(SignedText(i)) == Some(i)
  {
    IntTextParses(i);
  }

  lemma WholeBody(negative: bool, whole: string, tail: string)
    requires AllDigits(whole)
    requires tail != "" ==> tail[0] == 'E'
    ensures ParseNumber(negative, whole + tail) == ParseExponent(negative, whole, "", tail)
  {
    DigitSpanOf(whole, tail);
    assert (whole + tail)[..|whole|] == whole && (whole + tail)[|whole|..] == tail;
  }

  lemma DecimalBody(negative: bool, whole: string, fraction: string, tail: string)
    requires AllDigits(whole) && AllDigits(fraction)
    requires tail != "" ==> tail[0] == 'E'
    ensures ParseNumber(negative, whole + ("." + fraction) + tail) == ParseExponent(negative, whole, fraction, tail)
  {
    var rest := "." + fraction + tail;
    assert whole + ("." + fraction) + tail == whole + rest;
    DigitSpanOf(whole, rest);
    assert (whole + rest)[..|whole|] == whole && (whole + rest)[|whole|..] == rest;
    assert rest[1..] == fraction + tail;
    DigitSpanOf(fraction, tail);
    assert (fraction + tail)[..|fraction|] == fraction && (fraction + tail)[|fraction|..] == tail;
  }

  /** Printing a finite decimal and reading it back gives the same sign, coefficient and exponent. */
  lemma TextRoundTrip(d: Decimal)
    requires d.Finite?
    ensures Parse(ToText(d)) == Some(d)
  {
    var digits := NatText(d.coefficient);
    var body := Magnitude(digits, d.exponent);
    MagnitudeChars(digits, d.exponent);
    MagnitudeParses(d.negative, digits, d.exponent);
    NatTextValue(d.coefficient);
    SignedNumberParses(d.negative, body);
  }

  lemma TextChars(d: Decimal)
    requires d.Finite?
    ensures NumberText(ToText(d)) && ToText(d) != "" && Trimmed(ToText(d))
  {
    MagnitudeChars(NatText(d.coefficient), d.exponent);
  }

  lemma SignedNumberParses(negative: bool, body: string)
    requires NumberText(body) && body != "" && IsDigit(body[0]) && IsDigit(body[|body| - 1])
    ensures Parse((if negative then "-" else "") + body) == ParseNumber(negative, body)
  {
    var t := (if negative then "-" else "") + body;
    hide StripLeft, StripRight, Remove, DigitsValue, DigitSpan, ParseNumber, Lower;
    assert "" + body == body;
    Unchanged(t);
    assert negative ==> t[1..] == body;
    StartsWithDigit(body);
    hide NumberText, Strip;
  }

  lemma Unchanged(t: string)
    requires NumberText(t)
    ensures Strip(t) == t && Remove(t, {'_'}) == t
  {
    StripTrims(t);
    RemoveNothing(t, {'_'});
  }

  lemma StartsWithDigit(body: string)
    requires body != "" && IsDigit(body[0])
    ensures Lower(body) !in {"inf", "infinity"}
    ensures |body| >= 3 ==> Lower(body[..3]) != "nan"
    ensures |body| >= 4 ==> Lower(body[..4]) != "snan"
  {
    assert Lower(body)[0] == body[0];
    assert |body| >= 3 ==> Lower(body[..3])[0] == body[0];
    assert |body| >= 4 ==> Lower(body[..4])[0] == body[0];
  }

  // ----- rounding -----

  /** _round_half_up: the discarded part rounds away from zero when its first digit is 5 or more. */
  function RoundHalfUp(m: nat, dropped: nat): nat
    requires dropped >= 1
  {
    var (q, r) := Divide(m, Pow10(dropped));
    if Divide(r, Pow10(dropped - 1)).0 >= 5 then q + 1 else q
  }

  function Divide(m: nat, divisor: nat): (qr: (nat, nat))
    requires divisor > 0
    ensures m == qr.0 * divisor + qr.1 && qr.1 < divisor
  {
    (m / divisor, m % divisor)
  }

  /** The coefficient quantize gives at exponent -SCALE. */
  function Rescaled(d: Decimal): nat
    requires d.Finite?
  {
    if d.exponent >= -SCALE then d.coefficient * Pow10(d.exponent + SCALE)
    else RoundHalfUp(d.coefficient, -SCALE - d.exponent)
  }

  /** q is m/divisor rounded to the nearest integer, a half going up. */
  predicate Nearest(m: nat, divisor: nat, q: nat) {
    2 * q * divisor <= 2 * m + divisor < 2 * q * divisor + 2 * divisor
  }

  lemma MulMonotone(a: int, b: int, c: nat)
    requires a <= b
    ensures a * c <= b * c
  {
  }

  lemma RoundHalfUpNearest(m: nat, dropped: nat)
    requires dropped >= 1
    ensures Nearest(m, Pow10(dropped), RoundHalfUp(m, dropped))
  {
    hide Nearest, Divide;
    var unit, divisor := Pow10(dropped - 1), Pow10(dropped);
    var (q, r) := Divide(m, divisor);
    var (digit, _) := Divide(r, unit);
    if digit >= 5 {
      MulMonotone(5, digit, unit);
      NearestAbove(m, unit, q, r);
    } else {
      MulMonotone(digit, 4, unit);
      NearestBelow(m, unit, q, r);
    }
  }

  lemma NearestAbove(m: nat, unit: nat, q: nat, r: nat)
    requires m == q * (10 * unit) + r && 5 * unit <= r < 10 * unit
    ensures Nearest(m, 10 * unit, q + 1)
  {
    var d := 10 * unit;
    assert 2 * (q + 1) * d == 2 * (q * d) + 2 * d;
  }

  lemma NearestBelow(m: nat, unit: nat, q: nat, r: nat)
    requires m == q * (10 * unit) + r && r < 5 * unit
    ensures Nearest(m, 10 * unit, q)
  {
    var d := 10 * unit;
    assert 2 * q * d == 2 * (q * d);
  }

  /** The coefficient of d at a common exponent. */
  function ScaledTo(d: Decimal, exponent: int): nat
    requires d.Finite? && exponent <= d.exponent
  {
    d.coefficient * Pow10(d.exponent - exponent)
  }

  /** Rescaling is rounding to the nearest quantum, whichever exponent below it the value is written at. */
  lemma RescaledNearest(d: Decimal, exponent: int)
    requires d.Finite? && exponent <= d.exponent && exponent <= -SCALE
    ensures Nearest(ScaledTo(d, exponent), Pow10(-SCALE - exponent), Rescaled(d))
  {
    if d.exponent >= -SCALE {
      Pow10Add(d.exponent + SCALE, -SCALE - exponent);
      Associate(d.coefficient, Pow10(d.exponent + SCALE), Pow10(-SCALE - exponent));
      NearestExact(ScaledTo(d, exponent), Pow10(-SCALE - exponent), Rescaled(d));
    } else {
      var dropped := -SCALE - d.exponent;
      RoundHalfUpNearest(d.coefficient, dropped);
      Pow10Add(dropped, d.exponent - exponent);
      NearestScaled(d.coefficient, Pow10(dropped), Rescaled(d), Pow10(d.exponent - exponent));
    }
  }

  lemma Associate(a: int, b: int, c: int)
    ensures a * (b * c) == (a * b) * c
  {
  }

  lemma NearestExact(m: nat, divisor: nat, q: nat)
    requires divisor > 0 && m == q * divisor
    ensures Nearest(m, divisor, q)
  {
    Associate(2, q, divisor);
  }

  lemma NearestScaled(m: nat, divisor: nat, q: nat, k: nat)
    requires k > 0 && Nearest(m, divisor, q)
    ensures Nearest(m * k, divisor * k, q)
  {
    var a := q * divisor;
    assert 2 * a <= 2 * m + divisor < 2 * a + 2 * divisor;
    ScaledBounds(a, m, divisor, k);
    Associate(q, divisor, k);
    TwiceScaled(q, divisor * k);
  }

  lemma ScaledBounds(a: nat, m: nat, divisor: nat, k: nat)
    requires k > 0 && 2 * a <= 2 * m + divisor < 2 * a + 2 * divisor
    ensures 2 * (a * k) <= 2 * (m * k) + divisor * k < 2 * (a * k) + 2 * (divisor * k)
  {
    MulMonotone(2 * a, 2 * m + divisor, k);
    MulMonotone(2 * m + divisor + 1, 2 * a + 2 * divisor, k);
    Distribute(a, m, divisor, k);
  }

  lemma TwiceScaled(q: int, d: int)
    ensures 2 * q * d == 2 * (q * d)
  {
  }

  lemma Distribute(a: int, b: int, d: int, k: int)
    ensures (2 * a) * k == 2 * (a * k)
    ensures (2 * b + d) * k == 2 * (b * k) + d * k
    ensures (2 * b + d + 1) * k == 2 * (b * k) + d * k + k
    ensures (2 * a + 2 * d) * k == 2 * (a * k) + 2 * (d * k)
  {
  }

  lemma NearestMonotone(m: nat, n: nat, divisor: nat, q: nat, p: nat)
    requires divisor > 0 && m <= n && Nearest(m, divisor, q) && Nearest(n, divisor, p)
    ensures q <= p
  {
    if p < q {
      MulMonotone(p + 1, q, divisor);
      assert false;
    }
  }

  // ----- normalization -----

  /** The precision of the local context in which the value is quantized. */
  function Precision(d: Decimal): nat
    requires d.Finite?
  {
    var wanted := Digits(d.coefficient) + SCALE + 2;
    if wanted > 64 then wanted else 64
  }

  /** The decimal branch of _normalized_value; None where it raises. */
  function Normalize(d: Decimal): Option<Decimal> {
    if !d.Finite? then None
    else
      var c := Rescaled(d);
      if c > 0 && Digits(c) > Precision(d) then None
      else
        var integerDigits := if c > 0 && Digits(c) > SCALE then Digits(c) - SCALE else 0;
        if integerDigits > MAX_INTEGER_DIGITS then None else Some(Finite(d.negative, c, -SCALE))
  }

  function Signed(negative: bool, magnitude: nat): int {
    var m: int := magnitude;
    if negative then -m else m
  }

  /** The numeric order of finite decimals, compared at a common exponent. */
  predicate AtMost(a: Decimal, b: Decimal)
    requires a.Finite? && b.Finite?
  {
    var e := Common(a, b);
    Signed(a.negative, ScaledTo(a, e)) <= Signed(b.negative, ScaledTo(b, e))
  }

  function Common(a: Decimal, b: Decimal): (e: int)
    requires a.Finite? && b.Finite?
    ensures e <= a.exponent && e <= b.exponent
  {
    if a.exponent <= b.exponent then a.exponent else b.exponent
  }

  predicate Equal(a: Decimal, b: Decimal) {
    if a.Finite? && b.Finite? then AtMost(a, b) && AtMost(b, a)
    else a.Infinite? && b.Infinite? && a == b
  }

  /** Acceptance depends only on the rounded value fitting 38 digits: the context precision never rejects one that does. */
  lemma AcceptsExactlyWhatFits(d: Decimal)
    ensures Normalize(d).Some? <==> d.Finite? && Rescaled(d) < Pow10(MAX_DIGITS)
  {
    if d.Finite? {
      NatTextLength(Rescaled(d), MAX_DIGITS);
    }
  }

  /**
   * The stored value is the nearest multiple of the quantum, a tie going away from zero, so it is
   * off by at most half a quantum (both values written in units of any small enough power of ten).
   */
  lemma WithinHalfQuantum(d: Decimal, exponent: int)
    requires Normalize(d).Some? && exponent <= d.exponent && exponent <= -SCALE
    ensures var stored := Normalize(d).value;
            && stored.exponent == -SCALE && stored.negative == d.negative
            && var exact, quantum: int := ScaledTo(d, exponent), Pow10(-SCALE - exponent);
               -quantum < 2 * (ScaledTo(stored, exponent) - exact) <= quantum
  {
    RescaledNearest(d, exponent);
    Associate(2, Rescaled(d), Pow10(-SCALE - exponent));
  }

  lemma NormalizeIdempotent(d: Decimal)
    requires Normalize(d).Some?
    ensures Normalize(Normalize(d).value) == Normalize(d)
  {
    var c := Rescaled(d);
    assert Pow10(0) == 1;
    assert Rescaled(Finite(d.negative, c, -SCALE)) == c;
    AcceptsExactlyWhatFits(d);
    AcceptsExactlyWhatFits(Finite(d.negative, c, -SCALE));
  }

  /** Normalization preserves the numeric order. */
  lemma NormalizeMonotone(a: Decimal, b: Decimal)
    requires Normalize(a).Some? && Normalize(b).Some? && AtMost(a, b)
    ensures AtMost(Normalize(a).value, Normalize(b).value)
  {
    var common := Common(a, b);
    var e := if common <= -SCALE then common else -SCALE;
    RescaledNearest(a, e);
    RescaledNearest(b, e);
    Shift(a, common, e);
    Shift(b, common, e);
    var k := Pow10(common - e);
    var x, y := ScaledTo(a, common), ScaledTo(b, common);
    if !a.negative && !b.negative {
      MulMonotone(x, y, k);
      NearestMonotone(x * k, y * k, Pow10(-SCALE - e), Rescaled(a), Rescaled(b));
    } else if a.negative && b.negative {
      MulMonotone(y, x, k);
      NearestMonotone(y * k, x * k, Pow10(-SCALE - e), Rescaled(b), Rescaled(a));
    } else if !a.negative && b.negative {
      assert x == 0 && y == 0;
      ZeroRounds(Pow10(-SCALE - e), Rescaled(a));
      ZeroRounds(Pow10(-SCALE - e), Rescaled(b));
    }
    assert Pow10(0) == 1;
  }

  lemma ZeroRounds(divisor: nat, q: nat)
    requires divisor > 0 && Nearest(0, divisor, q)
    ensures q == 0
  {
    if q >= 1 {
      MulMonotone(1, q, divisor);
      assert false;
    }
  }

  lemma Shift(d: Decimal, common: int, e: int)
    requires d.Finite? && e <= common <= d.exponent
    ensures ScaledTo(d, e) == ScaledTo(d, common) * Pow10(common - e)
  {
    Pow10Add(d.exponent - common, common - e);
    Associate(d.coefficient, Pow10(d.exponent - common), Pow10(common - e));
  }
}
