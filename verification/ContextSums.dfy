/** Adding decimals in Python's default context of 28 digits, and exactly. */
module ContextSums {
  import opened Text

  const CONTEXT_DIGITS: nat := 28

  function Size(x: int): nat {
    if x < 0 then -x else x
  }

  /** The weight of the last digit that fits: one for numbers of up to 28 digits. */
  function Unit(n: nat): (unit: nat)
    ensures unit > 0
  {
    if |NatText(n)| <= CONTEXT_DIGITS then 1 else Pow10(|NatText(n)| - CONTEXT_DIGITS)
  }

  function RoundedSize(n: nat): nat {
    hide Unit;
    RoundTo(n, Unit(n))
  }

  /** The nearest multiple of the unit, the even one of two. */
  function RoundTo(n: nat, unit: nat): (rounded: nat)
    requires unit > 0
    ensures -(unit as int) <= 2 * (rounded - n) <= unit
    ensures rounded == n <==> n % unit == 0
  {
    var q, r := n / unit, n % unit;
    assert n == q * unit + r;
    assert (q + 1) * unit == q * unit + unit;
    if 2 * r > unit || (2 * r == unit && q % 2 == 1) then n - r + unit else n - r
  }

  /** Rounding to 28 significant digits, a tie going to the even digit. */
  function Rounded(x: int): int {
    var size: int := RoundedSize(Size(x));
    if x < 0 then -size else size
  }

  /** The number needs no more than 28 digits, zeros at its end aside. */
  predicate FitsContext(x: int) {
    Size(x) % Unit(Size(x)) == 0
  }

  lemma RoundedSizeNear(n: nat)
    ensures -(Unit(n) as int) <= 2 * (RoundedSize(n) - n) <= Unit(n)
    ensures RoundedSize(n) == n <==> n % Unit(n) == 0
  {
    hide Unit, RoundTo;
  }

  /** Rounding errs by at most half a unit of the last digit, and by nothing exactly for what fits. */
  lemma RoundedNear(x: int)
    ensures 2 * Size(Rounded(x) - x) <= Unit(Size(x))
    ensures Rounded(x) == x <==> FitsContext(x)
  {
    hide RoundedSize, Unit;
    RoundedSizeNear(Size(x));
  }

  /** Numbers below ten to the 28th fit. */
  lemma SmallFits(x: int)
    requires Size(x) < Pow10(CONTEXT_DIGITS)
    ensures FitsContext(x)
  {
    hide NatText, Pow10;
    NatTextLength(Size(x), CONTEXT_DIGITS);
  }

  // ----- sums -----

  function ExactTotal(units: seq<int>): int {
    if units == [] then 0 else ExactTotal(units[..|units| - 1]) + units[|units| - 1]
  }

  /** sum(values, start=0): every addition, the first one too, rounds to the context. */
  function ContextTotal(units: seq<int>): int {
    if units == [] then 0 else Rounded(ContextTotal(units[..|units| - 1]) + units[|units| - 1])
  }

  /** What the roundings add up to. */
  function Drift(units: seq<int>): int {
    if units == [] then 0
    else
      var next := ContextTotal(units[..|units| - 1]) + units[|units| - 1];
      Drift(units[..|units| - 1]) + (Rounded(next) - next)
  }

  /** The sum in the context is exact if and only if its roundings cancel out. */
  lemma {:induction false} TotalsAgreeWhen(units: seq<int>)
    ensures ContextTotal(units) == ExactTotal(units) + Drift(units)
    ensures ContextTotal(units) == ExactTotal(units) <==> Drift(units) == 0
  {
    hide Rounded;
    if units != [] {
      TotalsAgreeWhen(units[..|units| - 1]);
    }
  }

  predicate RunningExact(units: seq<int>) {
    forall n :: 0 <= n <= |units| ==> ContextTotal(units[..n]) == ExactTotal(units[..n])
  }

  predicate RunningFits(units: seq<int>) {
    forall n :: 0 <= n <= |units| ==> FitsContext(ExactTotal(units[..n]))
  }

  /** Every running sum is exact if and only if no running sum needs more than 28 digits. */
  lemma {:induction false} RunningTotalsAgreeWhen(units: seq<int>)
    ensures RunningExact(units) <==> RunningFits(units)
    ensures RunningFits(units) ==> ContextTotal(units) == ExactTotal(units)
  {
    hide Rounded, FitsContext;
    assert units[..|units|] == units;
    if units == [] {
      ZeroFits();
    } else {
      var init := units[..|units| - 1];
      RunningTotalsAgreeWhen(init);
      assert init[..|init|] == init;
      forall n | 0 <= n <= |init| ensures units[..n] == init[..n] {
      }
      RoundedNear(ExactTotal(units));
      SplitRunning(units);
    }
  }

  lemma SplitRunning(units: seq<int>)
    requires units != []
    ensures var init := units[..|units| - 1];
            && (RunningExact(units) <==> RunningExact(init) && ContextTotal(units) == ExactTotal(units))
            && (RunningFits(units) <==> RunningFits(init) && FitsContext(ExactTotal(units)))
  {
    hide ContextTotal, ExactTotal, FitsContext;
    var init := units[..|units| - 1];
    assert units[..|units|] == units;
    assert forall n :: 0 <= n <= |init| ==> units[..n] == init[..n];
  }

  lemma ZeroFits()
    ensures FitsContext(0)
  {
    assert Pow10(0) == 1;
    Pow10Monotone(0, CONTEXT_DIGITS);
    SmallFits(0);
  }

  // ----- numbers of 29 digits -----

  /** Just above ten to the 28th the last digit no longer fits. */
  lemma JustAbove(d: nat)
    requires d < 10
    ensures var x := Pow10(CONTEXT_DIGITS) + d;
            && Unit(x) == 10 && x % 10 == d
            && Rounded(x) == Pow10(CONTEXT_DIGITS) + (if d > 5 then 10 else 0)
  {
    hide NatText, Pow10;
    var p := Pow10(CONTEXT_DIGITS);
    Tens();
    NatTextLength(p + d, CONTEXT_DIGITS);
    NatTextLength(p + d, CONTEXT_DIGITS + 1);
    assert Unit(p + d) == 10;
    hide Unit;
    RoundsTens(p, d);
  }

  lemma RoundsTens(p: nat, d: nat)
    requires p % 20 == 0 && d < 10
    ensures (p + d) % 10 == d && RoundTo(p + d, 10) == p + if d > 5 then 10 else 0
  {
    var t := p / 20;
    assert p == 20 * t;
    assert (20 * t + d) / 10 == 2 * t && (20 * t + d) % 10 == d;
    assert (2 * t) % 2 == 0;
  }

  lemma Tens()
    ensures Pow10(1) == 10 && Pow10(CONTEXT_DIGITS + 1) == 10 * Pow10(CONTEXT_DIGITS)
    ensures Pow10(CONTEXT_DIGITS) % 20 == 0 && Pow10(CONTEXT_DIGITS) >= 10
  {
    hide Pow10;
    TensOf(CONTEXT_DIGITS);
  }

  lemma TensOf(d: nat)
    requires d >= 2
    ensures Pow10(1) == 10 && Pow10(d + 1) == 10 * Pow10(d)
    ensures Pow10(d) % 20 == 0 && Pow10(d) >= 10
  {
    assert Pow10(0) == 1 && Pow10(1) == 10 && Pow10(2) == 100;
    Pow10Add(1, d);
    Pow10Add(2, d - 2);
    assert Pow10(d) == 20 * (5 * Pow10(d - 2));
  }

  /** One stored value can already be too wide, and later roundings can make up for it. */
  lemma OneValueIsRounded()
    ensures ContextTotal([Pow10(CONTEXT_DIGITS) + 1]) != ExactTotal([Pow10(CONTEXT_DIGITS) + 1])
    ensures ContextTotal([Pow10(CONTEXT_DIGITS) + 1, 9]) == ExactTotal([Pow10(CONTEXT_DIGITS) + 1, 9])
    ensures !RunningFits([Pow10(CONTEXT_DIGITS) + 1, 9])
  {
    hide Pow10, Rounded;
    var p: int := Pow10(CONTEXT_DIGITS);
    JustAbove(1);
    JustAbove(9);
    var one, two: seq<int> := [p + 1], [p + 1, 9];
    assert one[..0] == [] && two[..1] == one;
    RunningTotalsAgreeWhen(two);
    assert ContextTotal(two[..1]) != ExactTotal(two[..1]);
  }
}
