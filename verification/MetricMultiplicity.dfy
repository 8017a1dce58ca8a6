/** What the metric's caller filters do when a filtered field carries roles. */
module MetricMultiplicity {
  import opened Wrappers
  import opened Values
  import opened Records
  import opened Facts
  import opened IndexQueries
  import opened QueryEngines
  import opened MetricQueries

  /** The number of index rows, of any role, that pass the filters: one factor per filter. */
  function Weight(sql: Sql, rows: seq<IndexValue>, id: nat, conditions: seq<Condition>): nat {
    if conditions == [] then 1
    else
      var n := |conditions| - 1;
      Weight(sql, rows, id, conditions[..n]) * |Matches(rows, id, Loose(sql, conditions[n]))|
  }

  function RepeatEach(bag: seq<Measured>, weight: Measured -> nat): seq<Measured> {
    if bag == [] then []
    else
      var last := bag[|bag| - 1];
      RepeatEach(bag[..|bag| - 1], weight) + Repeat(last, weight(last))
  }

  function Weights(sql: Sql, rows: seq<IndexValue>, conditions: seq<Condition>): (w: Measured -> nat)
    ensures forall x :: w(x) == Weight(sql, rows, x.0.id, conditions)
  {
    (x: Measured) => Weight(sql, rows, x.0.id, conditions)
  }

  lemma {:induction false} JoinAppend(a: seq<Measured>, b: seq<Measured>, rows: seq<IndexValue>, p: IndexValue -> bool)
    ensures Join(a + b, PairId, rows, p) == Join(a, PairId, rows, p) + Join(b, PairId, rows, p)
  {
    hide Join, Matches;
    if b == [] {
      assert a + b == a;
      NothingToJoin(rows, p);
    } else {
      var init, last := b[..|b| - 1], b[|b| - 1];
      JoinAppend(a, init, rows, p);
      JoinLast(init, last, rows, p);
      JoinLast(a + init, last, rows, p);
      assert a + b == (a + init) + [last] && b == init + [last];
      Reassociate(Join(a, PairId, rows, p), Join(init, PairId, rows, p), Repeat(last, |Matches(rows, PairId(last), p)|));
    }
  }

  lemma Reassociate(a: seq<Measured>, b: seq<Measured>, c: seq<Measured>)
    ensures a + (b + c) == a + b + c
  {
  }

  lemma NothingToJoin(rows: seq<IndexValue>, p: IndexValue -> bool)
    ensures Join([], PairId, rows, p) == []
  {
  }

  lemma JoinLast(init: seq<Measured>, last: Measured, rows: seq<IndexValue>, p: IndexValue -> bool)
    ensures Join(init + [last], PairId, rows, p) == Join(init, PairId, rows, p) + Repeat(last, |Matches(rows, PairId(last), p)|)
  {
    hide Matches;
    assert (init + [last])[..|init|] == init;
  }

  lemma RepeatMore(x: Measured, n: nat, k: nat)
    ensures Repeat(x, n * k) + Repeat(x, k) == Repeat(x, (n + 1) * k)
  {
    assert (n + 1) * k == n * k + k;
  }

  lemma {:induction false} JoinRepeated(x: Measured, n: nat, rows: seq<IndexValue>, p: IndexValue -> bool)
    ensures Join(Repeat(x, n), PairId, rows, p) == Repeat(x, n * |Matches(rows, x.0.id, p)|)
  {
    if n > 0 {
      JoinRepeated(x, n - 1, rows, p);
      assert Repeat(x, n)[..n - 1] == Repeat(x, n - 1);
      RepeatMore(x, n - 1, |Matches(rows, x.0.id, p)|);
    }
  }

  lemma {:induction false} JoinMultiplies(bag: seq<Measured>, rows: seq<IndexValue>, p: IndexValue -> bool, w: Measured -> nat, product: Measured -> nat)
    requires forall x :: x in bag ==> product(x) == w(x) * |Matches(rows, x.0.id, p)|
    ensures Join(RepeatEach(bag, w), PairId, rows, p) == RepeatEach(bag, product)
  {
    if bag != [] {
      hide Matches, Join, Repeat;
      var init, last := bag[..|bag| - 1], bag[|bag| - 1];
      assert last in bag;
      JoinMultiplies(init, rows, p, w, product);
      JoinAppend(RepeatEach(init, w), Repeat(last, w(last)), rows, p);
      JoinRepeated(last, w(last), rows, p);
    } else {
      assert RepeatEach(bag, w) == [] == RepeatEach(bag, product);
    }
  }

  /** Every row is repeated once for each way of choosing one passing index row per filter. */
  lemma {:induction false} FiltersMultiply(sql: Sql, bag: seq<Measured>, rows: seq<IndexValue>, conditions: seq<Condition>)
    ensures LooseChain(sql, bag, rows, conditions) == RepeatEach(bag, Weights(sql, rows, conditions))
  {
    if conditions == [] {
      RepeatOnce(bag, Weights(sql, rows, conditions));
    } else {
      hide Matches, Join, RepeatEach;
      var n := |conditions| - 1;
      FiltersMultiply(sql, bag, rows, conditions[..n]);
      JoinMultiplies(bag, rows, Loose(sql, conditions[n]), Weights(sql, rows, conditions[..n]), Weights(sql, rows, conditions));
    }
  }

  lemma {:induction false} RepeatOnce(bag: seq<Measured>, w: Measured -> nat)
    requires forall x :: w(x) == 1
    ensures RepeatEach(bag, w) == bag
  {
    if bag != [] {
      RepeatOnce(bag[..|bag| - 1], w);
      assert Repeat(bag[|bag| - 1], 1) == [bag[|bag| - 1]];
    }
  }

  // ----- when nothing is repeated -----

  predicate DistinctRows(bag: seq<Measured>) {
    forall i, j :: 0 <= i < j < |bag| ==> bag[i] != bag[j]
  }

  lemma RepeatCount(x: Measured, n: nat)
    ensures forall y :: multiset(Repeat(x, n))[y] == if y == x then n else 0
  {
    if n > 0 {
      RepeatCount(x, n - 1);
      assert Repeat(x, n) == Repeat(x, n - 1) + [x];
    }
  }

  lemma {:induction false} RowCount(bag: seq<Measured>, w: Measured -> nat, x: Measured)
    requires DistinctRows(bag)
    ensures multiset(RepeatEach(bag, w))[x] == if x in bag then w(x) else 0
  {
    if bag != [] {
      var init, last := bag[..|bag| - 1], bag[|bag| - 1];
      RowCount(init, w, x);
      RepeatCount(last, w(last));
      assert bag == init + [last];
      forall y | y in init ensures y != last {
        var i :| 0 <= i < |init| && init[i] == y;
        assert bag[i] == y;
      }
    }
  }

  function OneIf(p: Measured -> bool): (w: Measured -> nat)
    ensures forall x :: w(x) == if p(x) then 1 else 0
  {
    (x: Measured) => if p(x) then 1 else 0
  }

  lemma {:induction false} KeepIsRepeat(bag: seq<Measured>, p: Measured -> bool)
    ensures Keep(bag, p) == RepeatEach(bag, OneIf(p))
  {
    if bag != [] {
      var last := bag[|bag| - 1];
      KeepIsRepeat(bag[..|bag| - 1], p);
      assert Repeat(last, 1) == [last];
    }
  }

  lemma {:induction false} RepeatSame(bag: seq<Measured>, v: Measured -> nat, w: Measured -> nat)
    requires forall x :: x in bag ==> v(x) == w(x)
    ensures RepeatEach(bag, v) == RepeatEach(bag, w)
  {
    if bag != [] {
      assert bag[|bag| - 1] in bag;
      RepeatSame(bag[..|bag| - 1], v, w);
    }
  }

  /**
   * The caller's filters read the rows SafeQuery's filters read, each exactly once, if and only if for
   * every measured record the passing rows of any role multiply to one where the role-free value passes
   * every filter, and to none elsewhere.
   */
  lemma LooseFiltersExactWhen(sql: Sql, bag: seq<Measured>, rows: seq<IndexValue>, conditions: seq<Condition>)
    requires UniqueRows(rows) && DistinctRows(bag)
    ensures LooseChain(sql, bag, rows, conditions) == Chain(sql, bag, PairId, rows, conditions)
       <==> forall x :: x in bag ==>
              Weight(sql, rows, x.0.id, conditions) == if SatisfiesAll(sql, rows, x.0.id, conditions) then 1 else 0
  {
    hide Chain, LooseChain, SatisfiesAll, Weight, RepeatEach, Keep;
    FiltersMultiply(sql, bag, rows, conditions);
    ChainIsConjunction(sql, bag, PairId, rows, conditions);
    var p := AllHold(sql, PairId, rows, conditions);
    KeepIsRepeat(bag, p);
    var w, one := Weights(sql, rows, conditions), OneIf(p);
    if RepeatEach(bag, w) == RepeatEach(bag, one) {
      forall x | x in bag ensures w(x) == one(x) {
        RowCount(bag, w, x);
        RowCount(bag, one, x);
      }
    } else if forall x :: x in bag ==> w(x) == one(x) {
      RepeatSame(bag, w, one);
    }
  }

  // ----- why the hypothesis is needed -----

  const FACT := Fact(1, "t", "u", "i", true, "r", 0, None, None, None, None, "p")
  const AMOUNT := IndexValue(1, 1, "amount", 1, "", IntegerType, map[IntegerType := TInteger(100)])
  const PLAIN := IndexValue(2, 1, "status", 1, "", TextType, map[TextType := TText("ok")])
  const ROLE := IndexValue(3, 1, "status", 1, "spouse", TextType, map[TextType := TText("ok")])

  const IS_OK := Condition("status", TextType, Eq, [Some(TText("ok"))])

  /** One record whose status holds in two roles is summed twice by the metric and once by SafeQuery. */
  lemma RoleDoublesTheSum(sql: Sql)
    ensures var bag, rows := [(FACT, AMOUNT)], [AMOUNT, PLAIN, ROLE];
            UniqueRows(rows)
            && NonNull(LooseChain(sql, bag, rows, [IS_OK]), IntegerType) == [TInteger(100), TInteger(100)]
            && NonNull(Chain(sql, bag, PairId, rows, [IS_OK]), IntegerType) == [TInteger(100)]
  {
    hide Matches, Holds, NonNull, LooseChain, Chain;
    StatusMatches(sql);
    OneFilter(sql, (FACT, AMOUNT), [AMOUNT, PLAIN, ROLE], IS_OK);
    NonNullOfTwo((FACT, AMOUNT), IntegerType);
  }

  lemma StatusMatches(sql: Sql)
    ensures |Matches([AMOUNT, PLAIN, ROLE], 1, Loose(sql, IS_OK))| == 2
    ensures |Matches([AMOUNT, PLAIN, ROLE], 1, Passing(sql, IS_OK))| == 1
  {
    OkHolds(sql);
    hide Matches, Holds;
    ThreeMatches(AMOUNT, PLAIN, ROLE, 1, Loose(sql, IS_OK));
    ThreeMatches(AMOUNT, PLAIN, ROLE, 1, Passing(sql, IS_OK));
  }

  lemma OkHolds(sql: Sql)
    ensures Holds(sql, IS_OK, Some(TText("ok")))
  {
  }

  lemma ThreeMatches(a: IndexValue, b: IndexValue, c: IndexValue, id: nat, p: IndexValue -> bool)
    ensures Matches([a, b, c], id, p)
         == (if Owned(id, p)(a) then [a] else []) + (if Owned(id, p)(b) then [b] else []) + (if Owned(id, p)(c) then [c] else [])
  {
    var none: seq<IndexValue> := [];
    assert none + [a] == [a] && [a] + [b] == [a, b] && [a, b] + [c] == [a, b, c];
    assert Matches(none, id, p) == [];
    hide Matches, Owned;
    MatchesLast(none, a, id, p);
    MatchesLast([a], b, id, p);
    MatchesLast([a, b], c, id, p);
  }

  lemma OneFilter(sql: Sql, x: Measured, rows: seq<IndexValue>, c: Condition)
    ensures LooseChain(sql, [x], rows, [c]) == Repeat(x, |Matches(rows, x.0.id, Loose(sql, c))|)
    ensures Chain(sql, [x], PairId, rows, [c]) == Repeat(x, |Matches(rows, x.0.id, Passing(sql, c))|)
  {
    assert [c][..0] == [] && [x][..0] == [];
    JoinRepeated(x, 1, rows, Loose(sql, c));
    JoinRepeated(x, 1, rows, Passing(sql, c));
    assert Repeat(x, 1) == [x];
  }

  lemma NonNullOfTwo(x: Measured, dataType: DataType)
    requires Column(x.1.columns, dataType).Some?
    ensures var v := Column(x.1.columns, dataType).value;
            NonNull(Repeat(x, 1), dataType) == [v] && NonNull(Repeat(x, 2), dataType) == [v, v]
  {
    assert Repeat(x, 1)[..0] == [] && Repeat(x, 2)[..1] == Repeat(x, 1);
  }
}
