/** Floats that come back from the raw data as another number. */
module FloatExamples {
  import opened Wrappers
  import opened Text
  import opened Calendar
  import opened Values
  import opened Emission
  import opened ImportRuns
  import opened AuditConditions
  import opened AuditExamples
  import D = Decimals

  /** The text Python gives a float that is nearest to ten to the k-th, from k = 16 on. */
  function PowerText(k: nat): (s: FloatText)
    ensures s == "1e+" + NatText(k)
  {
    PowerTextEnds(k);
    "1e+" + NatText(k)
  }

  lemma PowerTextEnds(k: nat)
    ensures Trimmed("1e+" + NatText(k))
  {
    var t := "1e+" + NatText(k);
    assert IsDigit(t[0]) && IsDigit(t[|t| - 1]);
  }

  /** It spells ten to the k-th. */
  lemma PowerTextSpells(k: nat)
    ensures WholeOf(PowerText(k)) == Some(Pow10(k))
  {
    hide NatText, D.Parse, D.ParseNumber, PowerText;
    PowerTextIsClean(k);
    PowerTextNumber(k);
  }

  lemma PowerTextIsClean(k: nat)
    ensures D.Parse(PowerText(k)) == D.ParseNumber(false, PowerText(k))
  {
    hide NatText, D.ParseNumber, StripLeft, StripRight, Remove;
    var t := PowerText(k);
    PowerTextChars(k);
    StripTrims(t);
    RemoveNothing(t, {'_'});
    D.StartsWithDigit(t);
    hide PowerText, Lower, AllDigits;
  }

  lemma PowerTextChars(k: nat)
    ensures forall i :: 0 <= i < |PowerText(k)| ==> PowerText(k)[i] != '_'
    ensures IsDigit(PowerText(k)[0])
  {
    assert AllDigits(NatText(k));
    hide NatText;
  }

  lemma PowerTextNumber(k: nat)
    ensures D.ParseNumber(false, PowerText(k)) == Some(D.Finite(false, 1, k))
  {
    hide NatText, DigitSpan, D.ParseExponent;
    var tail := "e+" + NatText(k);
    assert PowerText(k) == "1" + tail;
    DigitSpanOf("1", tail);
    assert ("1" + tail)[..1] == "1" && ("1" + tail)[1..] == tail;
    PowerTextExponent(k);
  }

  lemma PowerTextExponent(k: nat)
    ensures D.ParseExponent(false, "1", "", "e+" + NatText(k)) == Some(D.Finite(false, 1, k))
  {
    var tail := "e+" + NatText(k);
    IntTextParses(k);
    OneDigit();
    hide NatText, ParseInt, DigitsValue;
    assert tail[1..] == "+" + NatText(k) && "1" + "" == "1";
  }

  lemma OneDigit()
    ensures DigitsValue("1") == 1
  {
    assert "1"[..0] == "" && DigitsValue("") == 0;
  }

  function TwoTo(k: nat): nat {
    if k == 0 then 1 else 2 * TwoTo(k - 1)
  }

  function FiveTo(k: nat): (n: nat)
    ensures n % 2 == 1
  {
    if k == 0 then 1 else 5 * FiveTo(k - 1)
  }

  lemma {:induction false} TenIsTwoFives(k: nat)
    ensures Pow10(k) == FiveTo(k) * TwoTo(k)
  {
    if k > 0 {
      TenIsTwoFives(k - 1);
      Rearranged(FiveTo(k - 1), TwoTo(k - 1));
    }
  }

  lemma Rearranged(a: nat, b: nat)
    ensures 10 * (a * b) == (5 * a) * (2 * b)
  {
  }

  /** An odd factor of more than 53 bits leaves no double. */
  lemma {:induction false} DoubleFactor(odd: nat, k: nat)
    requires odd % 2 == 1
    ensures odd * TwoTo(k) >= odd
    ensures IsDouble(odd * TwoTo(k)) <==> odd <= 0x20_0000_0000_0000
  {
    if k > 0 {
      DoubleFactor(odd, k - 1);
      assert odd * TwoTo(k) == 2 * (odd * TwoTo(k - 1));
    } else {
      assert odd * TwoTo(0) == odd;
    }
  }

  lemma {:induction false} FivesGrow(a: nat, b: nat)
    requires a <= b
    ensures FiveTo(a) <= FiveTo(b)
  {
    if a < b {
      FivesGrow(a, b - 1);
    }
  }

  lemma TwentyTwoFives()
    ensures FiveTo(22) <= 0x20_0000_0000_0000 < FiveTo(23)
  {
    assert FiveTo(5) == 3125;
    assert FiveTo(10) == 9765625;
    assert FiveTo(15) == 30517578125;
    assert FiveTo(20) == 95367431640625;
    assert FiveTo(22) == 2384185791015625;
  }

  /** A power of ten is a double up to the 22nd. */
  lemma TenIsDoubleWhen(k: nat)
    ensures IsDouble(Pow10(k)) <==> k <= 22
  {
    hide FiveTo, TwoTo, Pow10, IsDouble;
    TenIsTwoFives(k);
    DoubleFactor(FiveTo(k), k);
    TwentyTwoFives();
    if k <= 22 {
      FivesGrow(k, 22);
    } else {
      FivesGrow(23, k);
    }
  }

  /** An execution whose one cell holds the float 1e+k in a text field passes the audit exactly up to k = 22. */
  lemma PowerPassesWhen(k: nat, zone: Zone)
    requires Keeps(zone)
    ensures var run := Run("h", FieldsOf(TextType), [OneCellSection("", Float(PowerText(k)))]);
            run.Success? && (AllPass(run.value, zone) <==> k <= 22)
  {
    hide Keeps, Run, AllPass, OneCellSection, FieldsOf, WholeOf, IsDouble, Pow10, PowerText;
    OneFloatPassesWhen(PowerText(k), zone);
    PowerTextSpells(k);
    TenIsDoubleWhen(k);
  }
}
