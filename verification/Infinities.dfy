/** Which cells of an integer field end an import with an OverflowError. */
module Infinities {
  import opened Wrappers
  import opened Text
  import opened Values
  import D = Decimals

  /** "inf" or "infinity" in any case, with or without a sign. */
  predicate SpellsInfinity(core: string) {
    var body := if core != "" && (core[0] == '-' || core[0] == '+') then core[1..] else core;
    Lower(body) == "inf" || Lower(body) == "infinity"
  }

  predicate AllSpace(s: string) {
    forall i :: 0 <= i < |s| ==> IsSpace(s[i])
  }

  /** What normalization takes away around a number: spaces, invisible characters and commas. */
  predicate Filler(s: string) {
    forall i :: 0 <= i < |s| ==> IsSpace(s[i]) || s[i] in INVISIBLE || s[i] == ','
  }

  // ----- stripping and removing -----

  lemma {:induction false} SpaceStripsLeft(s: string, rest: string)
    requires AllSpace(s)
    ensures StripLeft(s + rest) == StripLeft(rest)
  {
    if s == "" {
      assert s + rest == rest;
    } else {
      SpaceStripsLeft(s[1..], rest);
      assert (s + rest)[1..] == s[1..] + rest;
    }
  }

  lemma {:induction false} SpaceStripsRight(core: string, s: string)
    requires AllSpace(s) && core != "" && !IsSpace(core[|core| - 1])
    ensures StripRight(core + s) == core
  {
    if s == "" {
      assert core + s == core;
    } else {
      SpaceStripsRight(core, s[..|s| - 1]);
      assert (core + s)[..|core + s| - 1] == core + s[..|s| - 1];
    }
  }

  lemma StripAround(left: string, core: string, right: string)
    requires AllSpace(left) && AllSpace(right) && core != "" && Trimmed(core)
    ensures Strip(left + core + right) == core
  {
    SpaceStripsLeft(left, core + right);
    assert left + core + right == left + (core + right);
    SpaceStripsRight(core, right);
  }

  lemma RemoveFirst(s: string, unwanted: set<char>)
    requires s != ""
    ensures Remove(s, unwanted) == (if s[0] in unwanted then "" else [s[0]]) + Remove(s[1..], unwanted)
  {
  }

  lemma {:induction false} RemoveAppend(a: string, b: string, unwanted: set<char>)
    ensures Remove(a + b, unwanted) == Remove(a, unwanted) + Remove(b, unwanted)
  {
    if a == "" {
      assert a + b == b;
    } else {
      RemoveAppend(a[1..], b, unwanted);
      hide Remove;
      RemoveFirst(a, unwanted);
      RemoveFirst(a + b, unwanted);
      assert (a + b)[1..] == a[1..] + b && (a + b)[0] == a[0];
      Associates(if a[0] in unwanted then "" else [a[0]], Remove(a[1..], unwanted), Remove(b, unwanted));
    }
  }

  lemma Associates(a: string, b: string, c: string)
    ensures a + (b + c) == a + b + c
  {
  }

  lemma {:induction false} RemoveKeeps(s: string, unwanted: set<char>)
    ensures forall i :: 0 <= i < |Remove(s, unwanted)| ==> Remove(s, unwanted)[i] in s && Remove(s, unwanted)[i] !in unwanted
  {
    if s != "" {
      RemoveKeeps(s[1..], unwanted);
    }
  }

  lemma FillerIsSpace(s: string)
    requires Filler(s)
    ensures AllSpace(Remove(Remove(s, INVISIBLE), {','}))
  {
    RemoveKeeps(s, INVISIBLE);
    RemoveKeeps(Remove(s, INVISIBLE), {','});
  }

  /** A text of nothing but white space is blank, and no other is. */
  lemma BlankIsSpace(s: string)
    ensures Blank(s) <==> AllSpace(s)
  {
    if AllSpace(s) {
      SpaceStripsLeft(s, "");
      assert s + "" == s;
    }
    if Blank(s) {
      StripLeftStarts(s);
      StripsToNothing(StripLeft(s));
      LeftAllSpace(s);
    }
  }

  lemma {:induction false} StripsToNothing(s: string)
    requires StripRight(s) == "" && (s != "" ==> !IsSpace(s[0]))
    ensures s == ""
  {
    if s != "" {
      StripsToNothing(s[..|s| - 1]);
    }
  }

  lemma {:induction false} LeftAllSpace(s: string)
    requires StripLeft(s) == ""
    ensures AllSpace(s)
  {
    if s != "" {
      LeftAllSpace(s[1..]);
      assert s == [s[0]] + s[1..];
    }
  }

  // ----- the letters of infinity -----

  lemma InfinityChars(core: string)
    requires SpellsInfinity(core)
    ensures core != "" && Trimmed(core)
    ensures forall i :: 0 <= i < |core| ==> core[i] !in INVISIBLE && core[i] != ',' && core[i] != '_'
  {
    var body := if core != "" && (core[0] == '-' || core[0] == '+') then core[1..] else core;
    LetterChars(body);
    hide Lower;
    forall i | 0 <= i < |core| ensures core[i] == '-' || core[i] == '+' || ('A' <= core[i] <= 'z' && core[i] != '_') {
      assert core == body || (core == [core[0]] + body);
    }
  }

  lemma LetterChars(body: string)
    requires Lower(body) == "inf" || Lower(body) == "infinity"
    ensures body != "" && forall i :: 0 <= i < |body| ==> 'A' <= body[i] <= 'z' && body[i] != '_'
  {
    forall i | 0 <= i < |body| ensures 'A' <= body[i] <= 'z' && body[i] != '_' {
      assert LowerChar(body[i]) == Lower(body)[i];
    }
  }

  lemma InfinityParses(core: string)
    requires SpellsInfinity(core)
    ensures D.ParseClean(core).Some? && D.ParseClean(core).value.Infinite?
  {
  }

  lemma OnlyInfinityParses(t: string)
    requires D.ParseClean(t).Some? && D.ParseClean(t).value.Infinite?
    ensures SpellsInfinity(t)
  {
  }

  /**
   * An integer cell ends the import with an OverflowError if and only if, spaces, invisible characters,
   * commas and underscores aside, its text spells infinity.
   */
  lemma OverflowsWhenInfinite(v: Scalar)
    ensures Normalize(IntegerType, v) == Overflow <==> SpellsInfinity(Remove(NumericText(v), {'_'}))
  {
    hide NumericText, Remove, Strip, D.ParseClean, SpellsInfinity;
    OnlyInfinityOverflows(IntegerType, v);
    NumericIsStripped(v);
    var t := Remove(NumericText(v), {'_'});
    if SpellsInfinity(t) {
      InfinityParses(t);
      InfiniteIsPresent(v);
    }
    if D.ParseClean(t).Some? && D.ParseClean(t).value.Infinite? {
      OnlyInfinityParses(t);
    }
  }

  lemma NumericIsStripped(v: Scalar)
    ensures Strip(NumericText(v)) == NumericText(v)
  {
    hide StripLeft, StripRight, Remove;
    StripTrims(Remove(Remove(PyText(v), INVISIBLE), {','}));
    StripTrims(NumericText(v));
  }

  lemma NullIsNot()
    ensures !SpellsInfinity(Remove(NumericText(Null), {'_'}))
  {
    hide Remove, Strip, SpellsInfinity;
    CleanNumeric("None");
    RemoveNothing("None", {'_'});
    NoneIsNot();
  }

  lemma NoneIsNot()
    ensures !SpellsInfinity("None")
  {
    assert |Lower("None")| == 4;
  }

  lemma InfiniteIsPresent(v: Scalar)
    requires SpellsInfinity(Remove(NumericText(v), {'_'}))
    ensures IsPresent(v)
  {
    match v {
      case Null => NullIsNot();
      case Str(s) =>
        if Blank(s) {
          BlankIsSpace(s);
          FillerIsSpace(s);
          BlankIsSpace(Remove(Remove(s, INVISIBLE), {','}));
          InfinityChars(Remove("", {'_'}));
        }
      case _ =>
    }
  }

  /** Every spelling of infinity, however surrounded, does. */
  lemma InfinityOverflows(left: string, core: string, right: string)
    requires Filler(left) && Filler(right) && SpellsInfinity(core)
    ensures Normalize(IntegerType, Str(left + core + right)) == Overflow
  {
    hide SpellsInfinity, Filler;
    InfinityText(left, core, right);
    hide NumericText, Normalize;
    OverflowsWhenInfinite(Str(left + core + right));
  }

  /** What is left of the text once it is stripped of what Python ignores. */
  lemma InfinityText(left: string, core: string, right: string)
    requires Filler(left) && Filler(right) && SpellsInfinity(core)
    ensures NumericText(Str(left + core + right)) == core == Remove(core, {'_'})
  {
    hide SpellsInfinity, StripLeft, StripRight;
    InfinityChars(core);
    var s := left + core + right;
    assert s == left + (core + right);
    RemoveAppend(left, core + right, INVISIBLE);
    RemoveAppend(core, right, INVISIBLE);
    RemoveNothing(core, INVISIBLE);
    var a, b := Remove(left, INVISIBLE), Remove(right, INVISIBLE);
    RemoveAppend(a, core + b, {','});
    RemoveAppend(core, b, {','});
    RemoveNothing(core, {','});
    RemoveNothing(core, {'_'});
    FillerIsSpace(left);
    FillerIsSpace(right);
    StripAround(Remove(a, {','}), core, Remove(b, {','}));
    hide Remove, Strip, AllSpace, Trimmed;
    assert Remove(a, {','}) + (core + Remove(b, {','})) == Remove(a, {','}) + core + Remove(b, {','});
  }
}
