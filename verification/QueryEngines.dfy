/** SafeQuery and CatalogQuery over the same filters: evidence counts, aggregates and identity counts. */
module QueryEngines {
  import opened Wrappers
  import opened Values
  import opened Records
  import opened Facts
  import opened IndexQueries

  datatype Store = Store(facts: seq<Fact>, rows: seq<IndexValue>)

  ghost predicate ValidStore(s: Store) {
    DistinctFacts(s.facts) && UniqueRows(s.rows)
  }

  /** The facts a statement starts from and the conditions it joins. */
  datatype Selection = Selection(recordType: string, provenance: Provenance, scope: Scope, conditions: seq<Condition>)

  function FactId(f: Fact): nat {
    f.id
  }

  function WhereFact(q: Selection): (p: Fact -> bool)
    ensures forall f :: p(f) <==> FactPredicate(f, q.recordType, q.provenance, q.scope)
  {
    (f: Fact) => FactPredicate(f, q.recordType, q.provenance, q.scope)
  }

  function Base(s: Store, q: Selection): seq<Fact> {
    Keep(s.facts, WhereFact(q))
  }

  /** The statement `filtered_records`, as a bag. */
  function Filtered(sql: Sql, s: Store, q: Selection): seq<Fact> {
    Chain(sql, Base(s, q), FactId, s.rows, q.conditions)
  }

  /** The record a filter selection means. */
  predicate Selects(sql: Sql, s: Store, q: Selection, f: Fact) {
    FactPredicate(f, q.recordType, q.provenance, q.scope) && SatisfiesAll(sql, s.rows, f.id, q.conditions)
  }

  function Meaning(sql: Sql, s: Store, q: Selection): (p: Fact -> bool)
    ensures forall f :: p(f) <==> Selects(sql, s, q, f)
  {
    (f: Fact) => Selects(sql, s, q, f)
  }

  /** The statement selects each meant record once, and its record count is their number. */
  lemma FilteredRecords(sql: Sql, s: Store, q: Selection)
    requires ValidStore(s)
    ensures Filtered(sql, s, q) == Keep(s.facts, Meaning(sql, s, q))
    ensures DistinctFacts(Filtered(sql, s, q))
    ensures EvidenceCounts(Filtered(sql, s, q)).0 == |Filtered(sql, s, q)|
  {
    hide SatisfiesAll, FactPredicate, Chain, Keep;
    ChainIsConjunction(sql, Base(s, q), FactId, s.rows, q.conditions);
    KeepKeep(s.facts, WhereFact(q), AllHold(sql, FactId, s.rows, q.conditions), Meaning(sql, s, q));
    KeepDistinct(s.facts, Meaning(sql, s, q));
    DistinctIds(Filtered(sql, s, q));
  }

  /** The field's column holds values of its type, as normalization stores them. */
  predicate TypedField(rows: seq<IndexValue>, field: string, dataType: DataType) {
    forall v :: v in rows && v.fieldCode == field && Column(v.columns, dataType).Some? ==>
      Storable(Column(v.columns, dataType).value) && TypeOf(Column(v.columns, dataType).value) == dataType
  }

  // ----- evidence -----

  /** count(distinct ...) of records, items and administrative units. */
  function EvidenceCounts(bag: seq<Fact>): (nat, nat, nat) {
    (|set f | f in bag :: f.id|, |set f | f in bag :: f.item|, |set f | f in bag :: f.unit|)
  }

  function Ids(bag: seq<Fact>): (ids: set<nat>)
    ensures ids == set f | f in bag :: f.id
  {
    set f | f in bag :: f.id
  }

  lemma {:induction false} DistinctIds(bag: seq<Fact>)
    requires DistinctFacts(bag)
    ensures |Ids(bag)| == |bag|
  {
    if bag != [] {
      var init, last := bag[..|bag| - 1], bag[|bag| - 1];
      DistinctIds(init);
      forall f | f in init ensures f.id != last.id {
        var i :| 0 <= i < |init| && init[i] == f;
        assert bag[i] == f;
      }
      assert bag == init + [last];
      IdsAppend(init, last);
    }
  }

  lemma IdsAppend(init: seq<Fact>, last: Fact)
    ensures Ids(init + [last]) == Ids(init) + {last.id}
  {
    assert forall f :: f in init + [last] <==> f in init || f == last;
  }

  // ----- joining a selected column -----

  /** JOIN with an index alias whose row is kept. */
  function JoinRows<T(!new)>(bag: seq<T>, id: T -> nat, rows: seq<IndexValue>, p: IndexValue -> bool): seq<(T, IndexValue)> {
    if bag == [] then []
    else
      var last := bag[|bag| - 1];
      JoinRows(bag[..|bag| - 1], id, rows, p) + WithRow(last, Matches(rows, id(last), p))
  }

  function WithRow<T(!new)>(t: T, rows: seq<IndexValue>): seq<(T, IndexValue)> {
    if rows == [] then [] else WithRow(t, rows[..|rows| - 1]) + [(t, rows[|rows| - 1])]
  }

  lemma {:induction false} KeepAppend<T(!new)>(a: seq<T>, b: seq<T>, p: T -> bool)
    ensures Keep(a + b, p) == Keep(a, p) + Keep(b, p)
  {
    if b == [] {
      assert a + b == a;
    } else {
      var init, last := b[..|b| - 1], b[|b| - 1];
      KeepAppend(a, init, p);
      assert (a + b)[..|a + b| - 1] == a + init && (a + b)[|a + b| - 1] == last;
    }
  }

  lemma {:induction false} WithRowMembers<T(!new)>(t: T, rows: seq<IndexValue>)
    ensures forall x :: x in WithRow(t, rows) ==> x.0 == t
  {
    if rows != [] {
      WithRowMembers(t, rows[..|rows| - 1]);
    }
  }

  function OfRecord<T(!new)>(g: T -> bool): (h: ((T, IndexValue)) -> bool)
    ensures forall x :: h(x) <==> g(x.0)
  {
    (x: (T, IndexValue)) => g(x.0)
  }

  lemma JoinRowsLast<T(!new)>(init: seq<T>, last: T, id: T -> nat, rows: seq<IndexValue>, p: IndexValue -> bool)
    ensures JoinRows(init + [last], id, rows, p) == JoinRows(init, id, rows, p) + WithRow(last, Matches(rows, id(last), p))
  {
    assert (init + [last])[..|init|] == init;
  }

  /** Filtering joined rows by their record is joining the filtered records. */
  lemma {:induction false} KeepJoined<T(!new)>(bag: seq<T>, id: T -> nat, rows: seq<IndexValue>, p: IndexValue -> bool, g: T -> bool)
    ensures Keep(JoinRows(bag, id, rows, p), OfRecord(g)) == JoinRows(Keep(bag, g), id, rows, p)
  {
    if bag != [] {
      var init, last := bag[..|bag| - 1], bag[|bag| - 1];
      var own := WithRow(last, Matches(rows, id(last), p));
      assert bag == init + [last];
      JoinRowsLast(init, last, id, rows, p);
      KeepLast(init, last, g);
      hide JoinRows, Keep, Matches, WithRow;
      KeepJoined(init, id, rows, p, g);
      KeepAppend(JoinRows(init, id, rows, p), own, OfRecord(g));
      WithRowMembers(last, Matches(rows, id(last), p));
      if g(last) {
        KeepAll(own, OfRecord(g));
        JoinRowsLast(Keep(init, g), last, id, rows, p);
      } else {
        KeepNone(own, OfRecord(g));
        assert Keep(bag, g) == Keep(init, g);
        var kept := Keep(JoinRows(init, id, rows, p), OfRecord(g));
        assert kept + [] == kept;
      }
    }
  }

  // ----- aggregates -----

  /** The non-null values an SQL aggregate sees. */
  function NonNull<T(!new)>(pairs: seq<(T, IndexValue)>, dataType: DataType): seq<Typed> {
    if pairs == [] then []
    else
      var column := Column(pairs[|pairs| - 1].1.columns, dataType);
      NonNull(pairs[..|pairs| - 1], dataType) + (if column.Some? then [column.value] else [])
  }

  function Measure(field: string): (p: IndexValue -> bool)
    ensures forall v :: p(v) <==> Pinned(v, field)
  {
    (v: IndexValue) => Pinned(v, field)
  }

  function NonNullMeasure(field: string, dataType: DataType): (p: IndexValue -> bool)
    ensures forall v :: p(v) <==> Pinned(v, field) && Column(v.columns, dataType).Some?
  {
    (v: IndexValue) => Pinned(v, field) && Column(v.columns, dataType).Some?
  }

  function PairId(x: (Fact, IndexValue)): nat {
    x.0.id
  }

  /** SafeQuery: the measure is joined first, NULL measures stay, then the filters are joined. */
  function SafeMeasures(sql: Sql, s: Store, q: Selection, field: string, dataType: DataType): seq<Typed> {
    NonNull(Chain(sql, JoinRows(Base(s, q), FactId, s.rows, Measure(field)), PairId, s.rows, q.conditions), dataType)
  }

  /** SELECT DISTINCT */
  function Deduplicated(bag: seq<Fact>): seq<Fact> {
    if bag == [] then []
    else
      var init, last := Deduplicated(bag[..|bag| - 1]), bag[|bag| - 1];
      if last in init then init else init + [last]
  }

  /** CatalogQuery: the filtered records are made distinct in a subquery, then non-null measures are joined. */
  function CatalogMeasures(sql: Sql, s: Store, q: Selection, field: string, dataType: DataType): seq<Typed> {
    NonNull(JoinRows(Deduplicated(Filtered(sql, s, q)), FactId, s.rows, NonNullMeasure(field, dataType)), dataType)
  }

  lemma {:induction false} DeduplicatedDistinct(bag: seq<Fact>)
    requires DistinctFacts(bag)
    ensures Deduplicated(bag) == bag
  {
    if bag != [] {
      DeduplicatedDistinct(bag[..|bag| - 1]);
    }
  }

  lemma {:induction false} NonNullAppend<T(!new)>(a: seq<(T, IndexValue)>, b: seq<(T, IndexValue)>, dataType: DataType)
    ensures NonNull(a + b, dataType) == NonNull(a, dataType) + NonNull(b, dataType)
  {
    if b == [] {
      assert a + b == a;
    } else {
      NonNullAppend(a, b[..|b| - 1], dataType);
      assert (a + b)[..|a + b| - 1] == a + b[..|b| - 1];
    }
  }

  lemma MatchesLast(init: seq<IndexValue>, last: IndexValue, id: nat, p: IndexValue -> bool)
    ensures Matches(init + [last], id, p)
         == if last.recordId == id && p(last) then Matches(init, id, p) + [last] else Matches(init, id, p)
  {
    KeepLast(init, last, Owned(id, p));
  }

  lemma NonNullLast<T(!new)>(t: T, init: seq<IndexValue>, last: IndexValue, dataType: DataType)
    ensures var column, before := Column(last.columns, dataType), NonNull(WithRow(t, init), dataType);
            NonNull(WithRow(t, init + [last]), dataType) == if column.Some? then before + [column.value] else before
  {
    assert (init + [last])[..|init|] == init;
  }

  /** Dropping NULL measures before or inside the aggregate makes no difference. */
  lemma {:induction false} NullsDoNotCount<T(!new)>(t: T, rows: seq<IndexValue>, id: nat, field: string, dataType: DataType)
    ensures NonNull(WithRow(t, Matches(rows, id, Measure(field))), dataType)
         == NonNull(WithRow(t, Matches(rows, id, NonNullMeasure(field, dataType))), dataType)
  {
    if rows != [] {
      hide NonNull, WithRow, Matches, Column, Pinned;
      var init, last := rows[..|rows| - 1], rows[|rows| - 1];
      assert rows == init + [last];
      NullsDoNotCount(t, init, id, field, dataType);
      MatchesLast(init, last, id, Measure(field));
      MatchesLast(init, last, id, NonNullMeasure(field, dataType));
      NonNullLast(t, Matches(init, id, Measure(field)), last, dataType);
      NonNullLast(t, Matches(init, id, NonNullMeasure(field, dataType)), last, dataType);
    } else {
      assert Matches(rows, id, Measure(field)) == Matches(rows, id, NonNullMeasure(field, dataType));
    }
  }

  lemma {:induction false} NonNullJoin(bag: seq<Fact>, rows: seq<IndexValue>, field: string, dataType: DataType)
    ensures NonNull(JoinRows(bag, FactId, rows, Measure(field)), dataType)
         == NonNull(JoinRows(bag, FactId, rows, NonNullMeasure(field, dataType)), dataType)
  {
    if bag != [] {
      var init, last := bag[..|bag| - 1], bag[|bag| - 1];
      var p, q := Measure(field), NonNullMeasure(field, dataType);
      assert bag == init + [last];
      JoinRowsLast(init, last, FactId, rows, p);
      JoinRowsLast(init, last, FactId, rows, q);
      hide NonNull, JoinRows, WithRow, Matches;
      NonNullJoin(init, rows, field, dataType);
      NullsDoNotCount(last, rows, last.id, field, dataType);
      NonNullAppend(JoinRows(init, FactId, rows, p), WithRow(last, Matches(rows, last.id, p)), dataType);
      NonNullAppend(JoinRows(init, FactId, rows, q), WithRow(last, Matches(rows, last.id, q)), dataType);
    }
  }

  /** Joining a row and then filtering is joining the rows of the filtered records. */
  lemma JoinThenFilter(sql: Sql, s: Store, q: Selection, p: IndexValue -> bool)
    requires UniqueRows(s.rows)
    ensures Chain(sql, JoinRows(Base(s, q), FactId, s.rows, p), PairId, s.rows, q.conditions)
         == JoinRows(Filtered(sql, s, q), FactId, s.rows, p)
  {
    hide Chain, Keep, JoinRows, SatisfiesAll;
    var joined := JoinRows(Base(s, q), FactId, s.rows, p);
    ChainIsConjunction(sql, joined, PairId, s.rows, q.conditions);
    var g := AllHold(sql, FactId, s.rows, q.conditions);
    KeepSame(joined, AllHold(sql, PairId, s.rows, q.conditions), OfRecord(g));
    KeepJoined(Base(s, q), FactId, s.rows, p, g);
    ChainIsConjunction(sql, Base(s, q), FactId, s.rows, q.conditions);
  }

  /**
   * Both engines feed an aggregate the same values in the same order, so every aggregate of non-null
   * values, sum, avg, min and max among them, gives the same answer.
   */
  lemma EnginesAggregateAlike(sql: Sql, s: Store, q: Selection, field: string, dataType: DataType)
    requires ValidStore(s)
    ensures SafeMeasures(sql, s, q, field, dataType) == CatalogMeasures(sql, s, q, field, dataType)
  {
    hide Filtered, Chain, JoinRows, NonNull, Measure, NonNullMeasure;
    JoinThenFilter(sql, s, q, Measure(field));
    FilteredRecords(sql, s, q);
    DeduplicatedDistinct(Filtered(sql, s, q));
    NonNullJoin(Filtered(sql, s, q), s.rows, field, dataType);
  }
}
