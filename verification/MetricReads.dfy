/** How often a metric reads each measured record, next to the SafeQuery with the same contract and filters. */
module MetricReads {
  import opened Wrappers
  import opened Values
  import opened Records
  import opened Facts
  import opened IndexQueries
  import opened QueryEngines
  import opened MetricQueries
  import opened MetricMultiplicity

  /** The SafeQuery with the metric's contract and all its filters. */
  function AsSafeQuery(m: Metric, scope: Scope, conditions: seq<Condition>): Selection
    requires m.contract.Some?
  {
    Selection.Selection(m.contract.value.recordType, m.contract.value.provenance, scope, conditions)
  }

  /** Each record in the metric's scope with its row of the metric's field, in whatever version. */
  function MeasuredOf(s: Store, m: Metric, scope: Scope): seq<Measured> {
    JoinRows(Keep(s.facts, MetricScope(m, scope)), FactId, s.rows, Measure(m.fieldCode))
  }

  /** How often the metric reads a measured record. */
  function Times(sql: Sql, rows: seq<IndexValue>, m: Metric, loose: seq<Condition>, status: seq<Condition>): (w: Measured -> nat)
    ensures forall x :: w(x) ==
              if x.1.fieldVersion == m.fieldVersion && SatisfiesAll(sql, rows, x.0.id, status) then Weight(sql, rows, x.0.id, loose) else 0
  {
    (x: Measured) =>
      if x.1.fieldVersion == m.fieldVersion && SatisfiesAll(sql, rows, x.0.id, status) then Weight(sql, rows, x.0.id, loose) else 0
  }

  /**
   * Every measured record is read once if it satisfies all the conditions, and not at all otherwise. Of a
   * record in the metric's version that satisfies the published filters, the index rows of any role that pass
   * the caller's filters must multiply to one or none; one in another version must not satisfy them all.
   */
  predicate ReadsOnce(sql: Sql, s: Store, m: Metric, scope: Scope, loose: seq<Condition>, status: seq<Condition>) {
    forall x :: x in MeasuredOf(s, m, scope) ==>
      Times(sql, s.rows, m, loose, status)(x) == if SatisfiesAll(sql, s.rows, x.0.id, loose + status) then 1 else 0
  }

  // ----- joined rows -----

  lemma {:induction false} WithRowHolds<T(!new)>(t: T, rows: seq<IndexValue>)
    ensures forall u, v :: (u, v) in WithRow(t, rows) <==> u == t && v in rows
  {
    if rows != [] {
      var init, last := rows[..|rows| - 1], rows[|rows| - 1];
      WithRowHolds(t, init);
      assert rows == init + [last];
    }
  }

  lemma {:induction false} JoinedMembers<T(!new)>(bag: seq<T>, id: T -> nat, rows: seq<IndexValue>, p: IndexValue -> bool)
    ensures forall t, v :: (t, v) in JoinRows(bag, id, rows, p) <==> t in bag && v in Matches(rows, id(t), p)
  {
    hide JoinRows, WithRow, Matches;
    if bag == [] {
      NothingJoined(id, rows, p);
    } else {
      var init, last := bag[..|bag| - 1], bag[|bag| - 1];
      JoinedMembers(init, id, rows, p);
      assert bag == init + [last];
      JoinRowsLast(init, last, id, rows, p);
      WithRowHolds(last, Matches(rows, id(last), p));
    }
  }

  lemma NothingJoined<T(!new)>(id: T -> nat, rows: seq<IndexValue>, p: IndexValue -> bool)
    ensures JoinRows([], id, rows, p) == []
  {
  }

  /** With unique rows no record is measured twice. */
  lemma {:induction false} MeasuredOnce(facts: seq<Fact>, rows: seq<IndexValue>, field: string)
    requires DistinctFacts(facts) && UniqueRows(rows)
    ensures DistinctRows(JoinRows(facts, FactId, rows, Measure(field)))
  {
    hide JoinRows, WithRow, Matches, UniqueRows;
    if facts == [] {
      NothingJoined(FactId, rows, Measure(field));
    } else {
      var init, last := facts[..|facts| - 1], facts[|facts| - 1];
      MeasuredOnce(init, rows, field);
      assert facts == init + [last];
      JoinRowsLast(init, last, FactId, rows, Measure(field));
      AtMostOneMatch(rows, last.id, field, Measure(field));
      JoinedMembers(init, FactId, rows, Measure(field));
      var before, own := JoinRows(init, FactId, rows, Measure(field)), WithRow(last, Matches(rows, last.id, Measure(field)));
      WithRowHolds(last, Matches(rows, last.id, Measure(field)));
      WithRowSize(last, Matches(rows, last.id, Measure(field)));
      forall x | x in before ensures x !in own {
        assert (x.0, x.1) == x;
        var i :| 0 <= i < |init| && init[i] == x.0;
        assert facts[i].id != last.id;
      }
      DistinctBoth(before, own);
    }
  }

  lemma {:induction false} WithRowSize<T(!new)>(t: T, rows: seq<IndexValue>)
    ensures |WithRow(t, rows)| == |rows|
  {
    if rows != [] {
      WithRowSize(t, rows[..|rows| - 1]);
    }
  }

  lemma DistinctBoth(a: seq<Measured>, b: seq<Measured>)
    requires DistinctRows(a) && |b| <= 1 && forall x :: x in a ==> x !in b
    ensures DistinctRows(a + b)
  {
    if b != [] {
      assert b[0] in b;
    }
  }

  // ----- filtering and repeating -----

  lemma {:induction false} KeepRepeated(bag: seq<Measured>, w: Measured -> nat, p: Measured -> bool, v: Measured -> nat)
    requires forall x :: x in bag ==> v(x) == if p(x) then w(x) else 0
    ensures Keep(RepeatEach(bag, w), p) == RepeatEach(bag, v)
  {
    hide Keep, RepeatEach;
    if bag == [] {
      NothingRepeated(w, v, p);
    } else {
      var init, last := bag[..|bag| - 1], bag[|bag| - 1];
      assert bag == init + [last] && last in bag;
      KeepRepeated(init, w, p, v);
      RepeatEachLast(init, last, w);
      RepeatEachLast(init, last, v);
      KeepAppend(RepeatEach(init, w), Repeat(last, w(last)), p);
      if p(last) {
        KeepAll(Repeat(last, w(last)), p);
      } else {
        KeepNone(Repeat(last, w(last)), p);
      }
    }
  }

  lemma {:induction false} RepeatKept(bag: seq<Measured>, p: Measured -> bool, w: Measured -> nat, v: Measured -> nat)
    requires forall x :: x in bag ==> v(x) == if p(x) then w(x) else 0
    ensures RepeatEach(Keep(bag, p), w) == RepeatEach(bag, v)
  {
    if bag == [] {
      assert Keep(bag, p) == [];
    } else {
      var init, last := bag[..|bag| - 1], bag[|bag| - 1];
      assert bag == init + [last] && last in bag;
      RepeatKept(init, p, w, v);
      hide Keep, RepeatEach;
      KeepLast(init, last, p);
      RepeatEachLast(init, last, v);
      RepeatEachLast(Keep(init, p), last, w);
    }
  }

  lemma RepeatEachLast(init: seq<Measured>, last: Measured, w: Measured -> nat)
    ensures RepeatEach(init + [last], w) == RepeatEach(init, w) + Repeat(last, w(last))
  {
    assert (init + [last])[..|init|] == init;
  }

  lemma NothingRepeated(w: Measured -> nat, v: Measured -> nat, p: Measured -> bool)
    ensures Keep(RepeatEach([], w), p) == [] == RepeatEach([], v)
  {
  }

  // ----- the version -----

  function OfVersion(m: Metric): (p: IndexValue -> bool)
    ensures forall v :: p(v) <==> v.fieldVersion == m.fieldVersion
  {
    (v: IndexValue) => v.fieldVersion == m.fieldVersion
  }

  function RowOf(q: IndexValue -> bool): (p: Measured -> bool)
    ensures forall x :: p(x) <==> q(x.1)
  {
    (x: Measured) => q(x.1)
  }

  lemma {:induction false} KeepWithRow(f: Fact, rows: seq<IndexValue>, q: IndexValue -> bool)
    ensures Keep(WithRow(f, rows), RowOf(q)) == WithRow(f, Keep(rows, q))
  {
    hide Keep, WithRow;
    if rows == [] {
      NoRow(f);
      KeepNone([], RowOf(q));
      KeepNone([], q);
    } else {
      var init, last := rows[..|rows| - 1], rows[|rows| - 1];
      KeepWithRow(f, init, q);
      assert rows == init + [last];
      WithRowLast(f, init, last);
      KeepLast(WithRow(f, init), (f, last), RowOf(q));
      KeepLast(init, last, q);
      WithRowLast(f, Keep(init, q), last);
    }
  }

  lemma NoRow(f: Fact)
    ensures WithRow(f, []) == []
  {
  }

  lemma WithRowLast(f: Fact, init: seq<IndexValue>, last: IndexValue)
    ensures WithRow(f, init + [last]) == WithRow(f, init) + [(f, last)]
  {
    assert (init + [last])[..|init|] == init;
  }

  /** The metric's own join keeps the measured records of its version. */
  lemma {:induction false} VersionRows(facts: seq<Fact>, rows: seq<IndexValue>, m: Metric)
    ensures JoinRows(facts, FactId, rows, MetricMeasure(m)) == Keep(JoinRows(facts, FactId, rows, Measure(m.fieldCode)), RowOf(OfVersion(m)))
  {
    hide JoinRows, WithRow, Keep, Matches, Pinned;
    if facts == [] {
      NothingJoined(FactId, rows, MetricMeasure(m));
      NothingJoined(FactId, rows, Measure(m.fieldCode));
      KeepNone([], RowOf(OfVersion(m)));
    } else {
      var init, last := facts[..|facts| - 1], facts[|facts| - 1];
      var p := Measure(m.fieldCode);
      VersionRows(init, rows, m);
      assert facts == init + [last];
      JoinRowsLast(init, last, FactId, rows, p);
      JoinRowsLast(init, last, FactId, rows, MetricMeasure(m));
      KeepAppend(JoinRows(init, FactId, rows, p), WithRow(last, Matches(rows, last.id, p)), RowOf(OfVersion(m)));
      KeepWithRow(last, Matches(rows, last.id, p), OfVersion(m));
      VersionMatches(rows, last.id, m);
    }
  }

  lemma VersionMatches(rows: seq<IndexValue>, id: nat, m: Metric)
    ensures Matches(rows, id, MetricMeasure(m)) == Keep(Matches(rows, id, Measure(m.fieldCode)), OfVersion(m))
  {
    hide Pinned;
    KeepKeep(rows, Owned(id, Measure(m.fieldCode)), OfVersion(m), Owned(id, MetricMeasure(m)));
  }

  // ----- what both engines read -----

  /** The metric reads every measured record the number of times given above. */
  lemma MetricRepeats(sql: Sql, s: Store, m: Metric, scope: Scope, loose: seq<Condition>, status: seq<Condition>)
    requires UniqueRows(s.rows)
    ensures MetricRows(sql, s, m, scope, loose, status) == RepeatEach(MeasuredOf(s, m, scope), Times(sql, s.rows, m, loose, status))
  {
    hide Chain, LooseChain, JoinRows, Keep, RepeatEach, Weight, SatisfiesAll;
    var base := Keep(s.facts, MetricScope(m, scope));
    var measured, versioned := MeasuredOf(s, m, scope), JoinRows(base, FactId, s.rows, MetricMeasure(m));
    VersionRows(base, s.rows, m);
    FiltersMultiply(sql, versioned, s.rows, loose);
    var w := Weights(sql, s.rows, loose);
    var read := VersionWeights(m, w);
    RepeatKept(measured, RowOf(OfVersion(m)), w, read);
    ChainIsConjunction(sql, RepeatEach(measured, read), PairId, s.rows, status);
    KeepRepeated(measured, read, AllHold(sql, PairId, s.rows, status), Times(sql, s.rows, m, loose, status));
  }

  function VersionWeights(m: Metric, w: Measured -> nat): (v: Measured -> nat)
    ensures forall x :: v(x) == if x.1.fieldVersion == m.fieldVersion then w(x) else 0
  {
    (x: Measured) => if x.1.fieldVersion == m.fieldVersion then w(x) else 0
  }

  /** The SafeQuery reads every measured record that satisfies all the conditions once. */
  lemma SafeRepeats(sql: Sql, s: Store, m: Metric, scope: Scope, conditions: seq<Condition>)
    requires m.contract.Some? && UniqueRows(s.rows)
    ensures JoinRows(Filtered(sql, s, AsSafeQuery(m, scope, conditions)), FactId, s.rows, Measure(m.fieldCode))
         == RepeatEach(MeasuredOf(s, m, scope), OneIf(AllHold(sql, PairId, s.rows, conditions)))
  {
    hide Chain, JoinRows, Keep, RepeatEach, SatisfiesAll, Filtered, Base;
    var q := AsSafeQuery(m, scope, conditions);
    SameBase(s, m, scope, conditions);
    JoinThenFilter(sql, s, q, Measure(m.fieldCode));
    ChainIsConjunction(sql, MeasuredOf(s, m, scope), PairId, s.rows, conditions);
    KeepIsRepeat(MeasuredOf(s, m, scope), AllHold(sql, PairId, s.rows, conditions));
  }

  lemma SameBase(s: Store, m: Metric, scope: Scope, conditions: seq<Condition>)
    requires m.contract.Some?
    ensures Keep(s.facts, MetricScope(m, scope)) == Base(s, AsSafeQuery(m, scope, conditions))
  {
    hide FactPredicate;
    KeepSame(s.facts, MetricScope(m, scope), WhereFact(AsSafeQuery(m, scope, conditions)));
  }

  /** The metric reads exactly the rows the SafeQuery reads, each once, if and only if it reads every record once. */
  lemma MetricStatement(sql: Sql, s: Store, m: Metric, scope: Scope, loose: seq<Condition>, status: seq<Condition>)
    requires m.contract.Some? && ValidStore(s)
    ensures MetricRows(sql, s, m, scope, loose, status)
         == JoinRows(Filtered(sql, s, AsSafeQuery(m, scope, loose + status)), FactId, s.rows, Measure(m.fieldCode))
       <==> ReadsOnce(sql, s, m, scope, loose, status)
  {
    hide MetricRows, JoinRows, Filtered, RepeatEach, SatisfiesAll, Weight, Keep, DistinctRows;
    MetricRepeats(sql, s, m, scope, loose, status);
    SafeRepeats(sql, s, m, scope, loose + status);
    var bag := MeasuredOf(s, m, scope);
    KeepDistinct(s.facts, MetricScope(m, scope));
    MeasuredOnce(Keep(s.facts, MetricScope(m, scope)), s.rows, m.fieldCode);
    SameRepeats(bag, Times(sql, s.rows, m, loose, status), OneIf(AllHold(sql, PairId, s.rows, loose + status)));
  }

  lemma SameRepeats(bag: seq<Measured>, v: Measured -> nat, w: Measured -> nat)
    requires DistinctRows(bag)
    ensures RepeatEach(bag, v) == RepeatEach(bag, w) <==> forall x :: x in bag ==> v(x) == w(x)
  {
    hide RepeatEach;
    if RepeatEach(bag, v) == RepeatEach(bag, w) {
      forall x | x in bag ensures v(x) == w(x) {
        RowCount(bag, v, x);
        RowCount(bag, w, x);
      }
    } else if forall x :: x in bag ==> v(x) == w(x) {
      RepeatSame(bag, v, w);
    }
  }

  /** The records a metric reads at all. */
  lemma ReadRecords(sql: Sql, s: Store, m: Metric, scope: Scope, loose: seq<Condition>, status: seq<Condition>, id: nat)
    requires UniqueRows(s.rows)
    ensures id in RecordIds(MetricRows(sql, s, m, scope, loose, status))
       <==> exists x :: x in MeasuredOf(s, m, scope) && x.0.id == id && Times(sql, s.rows, m, loose, status)(x) > 0
  {
    hide MetricRows, MeasuredOf, RepeatEach, SatisfiesAll, Weight;
    MetricRepeats(sql, s, m, scope, loose, status);
    RepeatedMembers(MeasuredOf(s, m, scope), Times(sql, s.rows, m, loose, status));
  }

  lemma {:induction false} RepeatedMembers(bag: seq<Measured>, w: Measured -> nat)
    ensures forall x :: x in RepeatEach(bag, w) <==> x in bag && w(x) > 0
  {
    if bag != [] {
      var init, last := bag[..|bag| - 1], bag[|bag| - 1];
      RepeatedMembers(init, w);
      assert bag == init + [last];
      RepeatEachLast(init, last, w);
      hide RepeatEach;
      assert w(last) > 0 ==> Repeat(last, w(last))[0] == last;
    }
  }
}
