/** When a published metric and the SafeQuery with the same filters answer alike, and when they cannot. */
module MetricAgreement {
  import opened Wrappers
  import opened Values
  import opened Records
  import opened Facts
  import opened IndexQueries
  import opened QueryEngines
  import opened IdentityCounts
  import opened MetricQueries
  import opened MetricMultiplicity
  import opened MetricReads
  import opened ContextSums
  import opened Text
  import D = Decimals

  /** The index holds the metric's field in the metric's version only. */
  predicate OneVersion(rows: seq<IndexValue>, m: Metric) {
    forall v :: v in rows && Pinned(v, m.fieldCode) ==> v.fieldVersion == m.fieldVersion
  }

  /** No row of a filtered field carries a role. */
  predicate OneRole(rows: seq<IndexValue>, conditions: seq<Condition>) {
    forall v, c :: v in rows && c in conditions && v.fieldCode == c.fieldCode ==> v.role == ""
  }

  /** Every identity row holds a value, in the column of its field's type. */
  predicate IdentitiesPresent(rows: seq<IndexValue>, fields: seq<string>, types: FieldTypeMap)
    requires forall f :: f in fields ==> f in types
  {
    && (forall f :: f in fields ==> !types[f].Unsupported?)
    && (forall v :: v in rows && v.role == "" && v.fieldCode in fields ==> v.columns.Keys == {types[v.fieldCode]})
  }

  // ----- the metric's statement -----

  lemma {:induction false} JoinSame<T(!new)>(bag: seq<T>, id: T -> nat, rows: seq<IndexValue>, p: IndexValue -> bool, q: IndexValue -> bool)
    requires forall v :: v in rows ==> (p(v) <==> q(v))
    ensures Join(bag, id, rows, p) == Join(bag, id, rows, q)
  {
    if bag != [] {
      JoinSame(bag[..|bag| - 1], id, rows, p, q);
      var last := bag[|bag| - 1];
      KeepSame(rows, Owned(id(last), p), Owned(id(last), q));
    }
  }

  lemma {:induction false} JoinRowsSame<T(!new)>(bag: seq<T>, id: T -> nat, rows: seq<IndexValue>, p: IndexValue -> bool, q: IndexValue -> bool)
    requires forall v :: v in rows ==> (p(v) <==> q(v))
    ensures JoinRows(bag, id, rows, p) == JoinRows(bag, id, rows, q)
  {
    if bag != [] {
      JoinRowsSame(bag[..|bag| - 1], id, rows, p, q);
      var last := bag[|bag| - 1];
      KeepSame(rows, Owned(id(last), p), Owned(id(last), q));
    }
  }

  lemma {:induction false} LooseIsPinned(sql: Sql, bag: seq<Measured>, rows: seq<IndexValue>, conditions: seq<Condition>)
    requires OneRole(rows, conditions)
    ensures LooseChain(sql, bag, rows, conditions) == Chain(sql, bag, PairId, rows, conditions)
  {
    if conditions != [] {
      hide Holds, Column, Join;
      var n := |conditions| - 1;
      assert conditions[n] in conditions;
      LooseIsPinned(sql, bag, rows, conditions[..n]);
      JoinSame(Chain(sql, bag, PairId, rows, conditions[..n]), PairId, rows, Loose(sql, conditions[n]), Passing(sql, conditions[n]));
    }
  }

  lemma {:induction false} ChainAppend<T(!new)>(sql: Sql, bag: seq<T>, id: T -> nat, rows: seq<IndexValue>, a: seq<Condition>, b: seq<Condition>)
    ensures Chain(sql, bag, id, rows, a + b) == Chain(sql, Chain(sql, bag, id, rows, a), id, rows, b)
  {
    if b == [] {
      assert a + b == a;
    } else {
      var n := |b| - 1;
      ChainAppend(sql, bag, id, rows, a, b[..n]);
      assert (a + b)[..|a + b| - 1] == a + b[..n] && (a + b)[|a + b| - 1] == b[n];
    }
  }

  /** An index with one version of the metric's field and no roles in the filtered ones is read once. */
  lemma PlainIndexReadsOnce(sql: Sql, s: Store, m: Metric, scope: Scope, loose: seq<Condition>, status: seq<Condition>)
    requires m.contract.Some? && ValidStore(s) && OneVersion(s.rows, m) && OneRole(s.rows, loose)
    ensures ReadsOnce(sql, s, m, scope, loose, status)
  {
    hide Chain, LooseChain, JoinRows, Pinned, Filtered, ReadsOnce;
    var q := AsSafeQuery(m, scope, loose + status);
    var base := Keep(s.facts, MetricScope(m, scope));
    SameBase(s, m, scope, loose + status);
    JoinRowsSame(base, FactId, s.rows, MetricMeasure(m), Measure(m.fieldCode));
    var joined := JoinRows(base, FactId, s.rows, Measure(m.fieldCode));
    LooseIsPinned(sql, joined, s.rows, loose);
    ChainAppend(sql, joined, PairId, s.rows, loose, status);
    JoinThenFilter(sql, s, q, Measure(m.fieldCode));
    MetricStatement(sql, s, m, scope, loose, status);
  }

  /** All three engines fold the same values in the same order. */
  lemma MetricFoldsAlike(sql: Sql, s: Store, m: Metric, scope: Scope, loose: seq<Condition>, status: seq<Condition>)
    requires m.contract.Some? && ValidStore(s) && ReadsOnce(sql, s, m, scope, loose, status)
    ensures var q := AsSafeQuery(m, scope, loose + status);
            NonNull(MetricRows(sql, s, m, scope, loose, status), m.dataType) == SafeMeasures(sql, s, q, m.fieldCode, m.dataType)
            && NonNull(MetricRows(sql, s, m, scope, loose, status), m.dataType) == CatalogMeasures(sql, s, q, m.fieldCode, m.dataType)
  {
    hide MetricRows, Chain, JoinRows, NonNull, Filtered, CatalogMeasures, Measure;
    var q := AsSafeQuery(m, scope, loose + status);
    MetricStatement(sql, s, m, scope, loose, status);
    JoinThenFilter(sql, s, q, Measure(m.fieldCode));
    EnginesAggregateAlike(sql, s, q, m.fieldCode, m.dataType);
  }

  // ----- sums -----

  /** SUM in SQL: exact, and NULL over no rows. */
  function SqlSum(values: seq<Typed>): Option<int> {
    if values == [] then None else Some(ExactTotal(AllUnits(values)))
  }

  /** What the roundings of a metric's sum add up to; only decimals are rounded. */
  function SumDrift(values: seq<Typed>, dataType: DataType): int {
    if dataType == DecimalType then Drift(AllUnits(values)) else 0
  }

  lemma PythonSumWhen(values: seq<Typed>, dataType: DataType)
    ensures Some(PythonSum(values, dataType)) == SqlSum(values) <==> values != [] && SumDrift(values, dataType) == 0
  {
    hide Rounded;
    TotalsAgreeWhen(AllUnits(values));
  }

  /**
   * A metric's sum equals the SafeQuery's if and only if some selected record has a value and the roundings
   * to 28 digits, which only decimals undergo, cancel out.
   */
  lemma SumsAgreeWhen(sql: Sql, s: Store, m: Metric, scope: Scope, loose: seq<Condition>, status: seq<Condition>)
    requires m.contract.Some? && ValidStore(s) && ReadsOnce(sql, s, m, scope, loose, status)
    ensures var q := AsSafeQuery(m, scope, loose + status);
            var values := SafeMeasures(sql, s, q, m.fieldCode, m.dataType);
            Some(PythonSum(NonNull(MetricRows(sql, s, m, scope, loose, status), m.dataType), m.dataType)) == SqlSum(values)
            <==>
              && (exists f :: f in Filtered(sql, s, q) && ValueOf(s.rows, f.id, m.fieldCode, m.dataType).Some?)
              && SumDrift(values, m.dataType) == 0
  {
    hide MetricRows, SafeMeasures, CatalogMeasures, NonNull, Filtered, PythonSum, SqlSum, SumDrift;
    MetricFoldsAlike(sql, s, m, scope, loose, status);
    var q := AsSafeQuery(m, scope, loose + status);
    MetricStatement(sql, s, m, scope, loose, status);
    AnyValue(Filtered(sql, s, q), s.rows, m.fieldCode, m.dataType);
    NonNullJoin(Filtered(sql, s, q), s.rows, m.fieldCode, m.dataType);
    PythonSumWhen(SafeMeasures(sql, s, q, m.fieldCode, m.dataType), m.dataType);
  }

  /** While no running total of the selected values needs more than 28 digits, having a value is enough. */
  lemma SumsAgreeWhileTheyFit(sql: Sql, s: Store, m: Metric, scope: Scope, loose: seq<Condition>, status: seq<Condition>)
    requires m.contract.Some? && ValidStore(s) && ReadsOnce(sql, s, m, scope, loose, status)
    ensures var values := SafeMeasures(sql, s, AsSafeQuery(m, scope, loose + status), m.fieldCode, m.dataType);
            values != [] && (m.dataType == DecimalType ==> RunningFits(AllUnits(values))) ==>
              Some(PythonSum(NonNull(MetricRows(sql, s, m, scope, loose, status), m.dataType), m.dataType)) == SqlSum(values)
  {
    hide MetricRows, SafeMeasures, CatalogMeasures, NonNull, RunningFits, ContextTotal, ExactTotal;
    MetricFoldsAlike(sql, s, m, scope, loose, status);
    RunningTotalsAgreeWhen(AllUnits(SafeMeasures(sql, s, AsSafeQuery(m, scope, loose + status), m.fieldCode, m.dataType)));
  }

  /** Every sum the metric's loop passes through is SQL's sum of the values so far. */
  predicate RunningSumsAgree(metric: seq<Typed>, values: seq<Typed>, dataType: DataType) {
    |metric| == |values| &&
    forall n :: 0 < n <= |values| ==> Some(PythonSum(metric[..n], dataType)) == SqlSum(values[..n])
  }

  /** So it is if and only if the values are no decimals or no running total needs more than 28 digits. */
  lemma RunningSumsAgreeWhen(sql: Sql, s: Store, m: Metric, scope: Scope, loose: seq<Condition>, status: seq<Condition>)
    requires m.contract.Some? && ValidStore(s) && ReadsOnce(sql, s, m, scope, loose, status)
    ensures var values := SafeMeasures(sql, s, AsSafeQuery(m, scope, loose + status), m.fieldCode, m.dataType);
            RunningSumsAgree(NonNull(MetricRows(sql, s, m, scope, loose, status), m.dataType), values, m.dataType)
            <==> (m.dataType == DecimalType ==> RunningFits(AllUnits(values)))
  {
    hide MetricRows, SafeMeasures, CatalogMeasures, NonNull, RunningFits, RunningSumsAgree, ReadsOnce;
    MetricFoldsAlike(sql, s, m, scope, loose, status);
    RunningSums(SafeMeasures(sql, s, AsSafeQuery(m, scope, loose + status), m.fieldCode, m.dataType), m.dataType);
  }

  lemma RunningSums(values: seq<Typed>, dataType: DataType)
    ensures RunningSumsAgree(values, values, dataType) <==> (dataType == DecimalType ==> RunningFits(AllUnits(values)))
  {
    hide RunningFits, ContextTotal, ExactTotal, UnitsOf;
    var units := AllUnits(values);
    RunningTotalsAgreeWhen(units);
    forall n | 0 <= n <= |values| ensures AllUnits(values[..n]) == units[..n] {
    }
    if dataType == DecimalType {
      NothingToAdd();
      if RunningSumsAgree(values, values, dataType) {
        forall n | 0 <= n <= |units| ensures ContextTotal(units[..n]) == ExactTotal(units[..n]) {
          assert n > 0 ==> Some(PythonSum(values[..n], dataType)) == SqlSum(values[..n]);
          assert n == 0 ==> units[..n] == [];
        }
      }
    }
  }

  lemma NothingToAdd()
    ensures ContextTotal([]) == ExactTotal([])
  {
  }

  /** One stored decimal is enough for a metric's sum to differ from SQL's. */
  lemma WideValueIsRounded()
    ensures var d := D.Finite(false, Pow10(CONTEXT_DIGITS) + 1, -10);
            && D.Normalize(d) == Some(d)
            && Some(PythonSum([TDecimal(d)], DecimalType)) != SqlSum([TDecimal(d)])
  {
    hide NatText, Pow10, Rounded, ContextTotal, ExactTotal;
    var p := Pow10(CONTEXT_DIGITS);
    var d := D.Finite(false, p + 1, -10);
    WideIsStorable();
    OneValueIsRounded();
    assert AllUnits([TDecimal(d)]) == [p + 1];
  }

  lemma WideIsStorable()
    ensures var d := D.Finite(false, Pow10(CONTEXT_DIGITS) + 1, -10); D.Normalize(d) == Some(d)
  {
    hide NatText, Pow10;
    var d := D.Finite(false, Pow10(CONTEXT_DIGITS) + 1, -10);
    assert Pow10(0) == 1 by { ZeroPower(); }
    assert D.Rescaled(d) == d.coefficient;
    Tens();
    Pow10Monotone(CONTEXT_DIGITS + 1, D.MAX_DIGITS);
    D.AcceptsExactlyWhatFits(d);
  }

  lemma ZeroPower()
    ensures Pow10(0) == 1
  {
  }

  lemma {:induction false} AnyValue(bag: seq<Fact>, rows: seq<IndexValue>, field: string, dataType: DataType)
    ensures NonNull(JoinRows(bag, FactId, rows, NonNullMeasure(field, dataType)), dataType) != []
       <==> exists f :: f in bag && ValueOf(rows, f.id, field, dataType).Some?
  {
    hide NonNull, JoinRows, WithRow, Matches, ValueOf, Column, NonNullMeasure;
    var p := NonNullMeasure(field, dataType);
    if bag == [] {
      NothingJoined(rows, p, dataType);
    } else {
      var init, last := bag[..|bag| - 1], bag[|bag| - 1];
      AnyValue(init, rows, field, dataType);
      assert bag == init + [last];
      JoinRowsLast(init, last, FactId, rows, p);
      NonNullAppend(JoinRows(init, FactId, rows, p), WithRow(last, Matches(rows, last.id, p)), dataType);
      HasValue(last, rows, field, dataType);
    }
  }

  lemma NothingJoined(rows: seq<IndexValue>, p: IndexValue -> bool, dataType: DataType)
    ensures NonNull(JoinRows([], FactId, rows, p), dataType) == []
  {
  }

  /** A record's joined rows hold a value exactly if it has one in the field. */
  lemma HasValue(f: Fact, rows: seq<IndexValue>, field: string, dataType: DataType)
    ensures NonNull(WithRow(f, Matches(rows, f.id, NonNullMeasure(field, dataType))), dataType) != []
       <==> ValueOf(rows, f.id, field, dataType).Some?
  {
    var found := Matches(rows, f.id, NonNullMeasure(field, dataType));
    hide NonNull, WithRow;
    assert ValueOf(rows, f.id, field, dataType).Some? <==> found != [];
    AllNonNull(f, found, dataType);
  }

  lemma {:induction false} AllNonNull<T(!new)>(t: T, rows: seq<IndexValue>, dataType: DataType)
    requires forall v :: v in rows ==> Column(v.columns, dataType).Some?
    ensures |NonNull(WithRow(t, rows), dataType)| == |rows|
  {
    if rows != [] {
      var n := |rows| - 1;
      assert rows == rows[..n] + [rows[n]] && rows[n] in rows;
      AllNonNull(t, rows[..n], dataType);
      NonNullLast(t, rows[..n], rows[n], dataType);
    }
  }

  // ----- counts -----

  lemma {:induction false} JoinedIds(bag: seq<Fact>, rows: seq<IndexValue>, p: IndexValue -> bool, id: nat)
    ensures id in RecordIds(JoinRows(bag, FactId, rows, p)) <==> exists f :: f in bag && f.id == id && Matches(rows, id, p) != []
  {
    if bag != [] {
      var init, last := bag[..|bag| - 1], bag[|bag| - 1];
      assert bag == init + [last];
      JoinedIds(init, rows, p, id);
      JoinRowsLast(init, last, FactId, rows, p);
      hide JoinRows, Matches, WithRow;
      var own := WithRow(last, Matches(rows, last.id, p));
      WithRowMembers(last, Matches(rows, last.id, p));
      WithRowLength(last, Matches(rows, last.id, p));
      if own != [] {
        assert own[0] in own;
      }
      assert RecordIds(JoinRows(bag, FactId, rows, p)) == RecordIds(JoinRows(init, FactId, rows, p)) + RecordIds(own);
    }
  }

  lemma {:induction false} WithRowLength<T(!new)>(t: T, rows: seq<IndexValue>)
    ensures |WithRow(t, rows)| == |rows|
  {
    if rows != [] {
      WithRowLength(t, rows[..|rows| - 1]);
    }
  }

  /** The first column that is not NULL is the value the typed engines read. */
  lemma EntryIsValue(rows: seq<IndexValue>, id: nat, field: string, dataType: DataType)
    requires UniqueRows(rows) && !dataType.Unsupported?
    requires forall v :: v in rows && Pinned(v, field) ==> v.columns.Keys == {dataType}
    ensures IdentityEntry(rows, id, field) == match ValueOf(rows, id, field, dataType) case None => None case Some(v) => Some(Some(v))
  {
    KeepSame(rows, Owned(id, Measure(field)), Owned(id, NonNullMeasure(field, dataType)));
    var found := Matches(rows, id, Measure(field));
    if found != [] {
      assert found[0] in found;
      FirstIsOnly(found[0].columns, dataType);
    }
  }

  lemma FirstIsOnly(columns: Columns, dataType: DataType)
    requires columns.Keys == {dataType} && !dataType.Unsupported?
    ensures FirstColumn(columns) == Column(columns, dataType)
  {
    assert dataType in columns && forall t :: t in columns ==> t == dataType;
  }

  lemma EntriesAreValues(rows: seq<IndexValue>, fields: seq<string>, types: FieldTypeMap)
    requires UniqueRows(rows)
    requires forall f :: f in fields ==> f in types
    requires IdentitiesPresent(rows, fields, types)
    ensures forall id, f :: f in fields ==>
              IdentityEntry(rows, id, f) == match ValueOf(rows, id, f, types[f]) case None => None case Some(v) => Some(Some(v))
  {
    forall id: nat, f | f in fields
      ensures IdentityEntry(rows, id, f) == match ValueOf(rows, id, f, types[f]) case None => None case Some(v) => Some(Some(v))
    {
      OneField(rows, fields, types, f);
      EntryIsValue(rows, id, f, types[f]);
    }
  }

  lemma OneField(rows: seq<IndexValue>, fields: seq<string>, types: FieldTypeMap, f: string)
    requires forall f :: f in fields ==> f in types
    requires IdentitiesPresent(rows, fields, types) && f in fields
    ensures !types[f].Unsupported? && forall v :: v in rows && Pinned(v, f) ==> v.columns.Keys == {types[f]}
  {
  }

  lemma SameMetricIdentity(rows: seq<IndexValue>, fields: seq<string>, i: nat, j: nat)
    requires HasEntries(rows, i, fields) && HasEntries(rows, j, fields)
    ensures MetricIdentity(rows, fields)(i) == MetricIdentity(rows, fields)(j)
       <==> forall f :: f in fields ==> IdentityEntry(rows, i, f) == IdentityEntry(rows, j, f)
  {
    hide IdentityEntry;
    var a, b := MetricIdentity(rows, fields)(i), MetricIdentity(rows, fields)(j);
    if a == b {
      forall f | f in fields ensures IdentityEntry(rows, i, f) == IdentityEntry(rows, j, f) {
        var k :| 0 <= k < |fields| && fields[k] == f;
      }
    }
    if forall f :: f in fields ==> IdentityEntry(rows, i, f) == IdentityEntry(rows, j, f) {
      forall k | 0 <= k < |fields| ensures a.value[k] == b.value[k] {
        assert fields[k] in fields;
      }
      assert a.value == b.value;
    }
  }

  lemma SameIdentity(rows: seq<IndexValue>, fields: seq<string>, types: FieldTypeMap, i: nat, j: nat)
    requires forall f :: f in fields ==> f in types
    requires Identifiable(rows, i, fields, types) && Identifiable(rows, j, fields, types)
    ensures Identity(rows, fields, types)(i) == Identity(rows, fields, types)(j)
       <==> forall f :: f in fields ==> ValueOf(rows, i, f, types[f]) == ValueOf(rows, j, f, types[f])
  {
    hide ValueOf;
    var a, b := IdentityOf(rows, i, fields, types), IdentityOf(rows, j, fields, types);
    if a == b {
      forall f | f in fields ensures ValueOf(rows, i, f, types[f]) == ValueOf(rows, j, f, types[f]) {
        var k :| 0 <= k < |fields| && fields[k] == f;
      }
    }
    if forall f :: f in fields ==> ValueOf(rows, i, f, types[f]) == ValueOf(rows, j, f, types[f]) {
      forall k | 0 <= k < |fields| ensures a[k] == b[k] {
        assert fields[k] in fields;
      }
      assert a == b;
    }
  }

  /** The metric reads some row of the record. */
  predicate Reads(sql: Sql, s: Store, m: Metric, scope: Scope, loose: seq<Condition>, status: seq<Condition>, id: nat) {
    exists x :: x in MeasuredOf(s, m, scope) && x.0.id == id && Times(sql, s.rows, m, loose, status)(x) > 0
  }

  /** The metric reads a record in its scope that has every identity value exactly if the record satisfies all the conditions. */
  predicate ReadsWhatCounts(sql: Sql, s: Store, m: Metric, scope: Scope, loose: seq<Condition>, status: seq<Condition>) {
    forall f :: f in Keep(s.facts, MetricScope(m, scope)) && HasEntries(s.rows, f.id, m.identities) ==>
      (Reads(sql, s, m, scope, loose, status, f.id) <==> SatisfiesAll(sql, s.rows, f.id, loose + status))
  }

  /** The records whose identities the metric counts. */
  function MetricIds(sql: Sql, s: Store, m: Metric, scope: Scope, loose: seq<Condition>, status: seq<Condition>): set<nat> {
    Complete(s.rows, RecordIds(MetricRows(sql, s, m, scope, loose, status)), m.identities)
  }

  lemma MetricIdsAre(sql: Sql, s: Store, m: Metric, scope: Scope, loose: seq<Condition>, status: seq<Condition>, id: nat)
    requires ValidStore(s)
    ensures id in MetricIds(sql, s, m, scope, loose, status)
       <==> Reads(sql, s, m, scope, loose, status, id) && HasEntries(s.rows, id, m.identities)
    ensures Reads(sql, s, m, scope, loose, status, id) ==> exists f :: f in Keep(s.facts, MetricScope(m, scope)) && f.id == id
  {
    hide MetricRows, HasEntries, Weight, SatisfiesAll, Matches, Keep, JoinRows;
    ReadRecords(sql, s, m, scope, loose, status, id);
    if Reads(sql, s, m, scope, loose, status, id) {
      var x :| x in MeasuredOf(s, m, scope) && x.0.id == id && Times(sql, s.rows, m, loose, status)(x) > 0;
      JoinedMembers(Keep(s.facts, MetricScope(m, scope)), FactId, s.rows, Measure(m.fieldCode));
      assert (x.0, x.1) == x;
    }
  }

  lemma CountedIdsAre(sql: Sql, s: Store, m: Metric, scope: Scope, conditions: seq<Condition>, fields: seq<string>, types: FieldTypeMap, id: nat)
    requires m.contract.Some? && ValidStore(s)
    requires forall f :: f in fields <==> f in m.identities
    requires forall f :: f in fields ==> f in types
    requires IdentitiesPresent(s.rows, fields, types)
    ensures id in CountedIds(sql, s, AsSafeQuery(m, scope, conditions), fields, types)
       <==> (exists f :: f in Keep(s.facts, MetricScope(m, scope)) && f.id == id)
            && SatisfiesAll(sql, s.rows, id, conditions) && HasEntries(s.rows, id, m.identities)
  {
    hide SatisfiesAll, FactPredicate, ValueOf, IdentityEntry, IdentitiesPresent;
    EntriesAreValues(s.rows, fields, types);
    assert HasEntries(s.rows, id, m.identities) <==> Identifiable(s.rows, id, fields, types);
  }

  /** The two engines count the identities of the same records if and only if the metric reads what counts. */
  lemma SameRecordsCounted(sql: Sql, s: Store, m: Metric, scope: Scope, loose: seq<Condition>, status: seq<Condition>,
                           fields: seq<string>, types: FieldTypeMap)
    requires m.contract.Some? && ValidStore(s)
    requires forall f :: f in fields <==> f in m.identities
    requires forall f :: f in fields ==> f in types
    requires IdentitiesPresent(s.rows, fields, types)
    ensures MetricIds(sql, s, m, scope, loose, status) == CountedIds(sql, s, AsSafeQuery(m, scope, loose + status), fields, types)
       <==> ReadsWhatCounts(sql, s, m, scope, loose, status)
  {
    hide MetricIds, CountedIds, Reads, HasEntries, SatisfiesAll, IdentitiesPresent, ValidStore, Keep;
    var metric, safe := MetricIds(sql, s, m, scope, loose, status), CountedIds(sql, s, AsSafeQuery(m, scope, loose + status), fields, types);
    var base := Keep(s.facts, MetricScope(m, scope));
    forall id: nat
      ensures id in metric <==> Reads(sql, s, m, scope, loose, status, id) && HasEntries(s.rows, id, m.identities)
      ensures Reads(sql, s, m, scope, loose, status, id) ==> exists f :: f in base && f.id == id
      ensures id in safe <==> (exists f :: f in base && f.id == id)
                              && SatisfiesAll(sql, s.rows, id, loose + status) && HasEntries(s.rows, id, m.identities)
    {
      MetricIdsAre(sql, s, m, scope, loose, status, id);
      CountedIdsAre(sql, s, m, scope, loose + status, fields, types, id);
    }
    if ReadsWhatCounts(sql, s, m, scope, loose, status) {
      forall id ensures id in metric <==> id in safe {
        if f :| f in base && f.id == id {
          assert HasEntries(s.rows, id, m.identities) ==>
              (Reads(sql, s, m, scope, loose, status, f.id) <==> SatisfiesAll(sql, s.rows, f.id, loose + status));
        }
      }
      assert metric == safe;
    } else {
      var f :| f in base && HasEntries(s.rows, f.id, m.identities) &&
               !(Reads(sql, s, m, scope, loose, status, f.id) <==> SatisfiesAll(sql, s.rows, f.id, loose + status));
      assert f.id in metric <==> f.id !in safe;
    }
  }

  /** Where the metric's field is an identity field, reading every record once is enough. */
  lemma ReadOnceCounts(sql: Sql, s: Store, m: Metric, scope: Scope, loose: seq<Condition>, status: seq<Condition>)
    requires ValidStore(s) && ReadsOnce(sql, s, m, scope, loose, status) && m.fieldCode in m.identities
    ensures ReadsWhatCounts(sql, s, m, scope, loose, status)
  {
    hide Weight, SatisfiesAll, JoinRows, Keep, Matches;
    var base := Keep(s.facts, MetricScope(m, scope));
    JoinedMembers(base, FactId, s.rows, Measure(m.fieldCode));
    forall f | f in base && HasEntries(s.rows, f.id, m.identities)
      ensures Reads(sql, s, m, scope, loose, status, f.id) <==> SatisfiesAll(sql, s.rows, f.id, loose + status)
    {
      assert IdentityEntry(s.rows, f.id, m.fieldCode).Some?;
      var v := Matches(s.rows, f.id, Measure(m.fieldCode))[0];
      assert v in Matches(s.rows, f.id, Measure(m.fieldCode));
      assert (f, v) in MeasuredOf(s, m, scope);
    }
  }

  /**
   * A published metric that counts identities and a SafeQuery count with the same contract, scope and
   * filters return the same number where the metric reads what counts, in whatever order each contract
   * lists the identity fields.
   */
  lemma MetricCountIsSafeCount(sql: Sql, s: Store, m: Metric, scope: Scope, loose: seq<Condition>, status: seq<Condition>,
                               fields: seq<string>, types: FieldTypeMap)
    requires m.contract.Some? && ValidStore(s) && ReadsWhatCounts(sql, s, m, scope, loose, status)
    requires forall f :: f in fields <==> f in m.identities
    requires forall f :: f in fields ==> f in types
    requires IdentitiesPresent(s.rows, fields, types)
    ensures IdentityCount(s.rows, RecordIds(MetricRows(sql, s, m, scope, loose, status)), m.identities)
         == SafeCount(sql, s, AsSafeQuery(m, scope, loose + status), fields, types)
  {
    hide MetricRows, SafeCount, CountedIds, ValueOf, IdentityEntry, Image, ValidStore, ReadsWhatCounts, IdentitiesPresent, Complete;
    var q := AsSafeQuery(m, scope, loose + status);
    var counted := MetricIds(sql, s, m, scope, loose, status);
    SameRecordsCounted(sql, s, m, scope, loose, status, fields, types);
    ValidUnique(s);
    EntriesAreValues(s.rows, fields, types);
    var f, g := MetricIdentity(s.rows, m.identities), Identity(s.rows, fields, types);
    forall i, j | i in counted && j in counted ensures f(i) == f(j) <==> g(i) == g(j) {
      SameMetricIdentity(s.rows, m.identities, i, j);
      SameIdentity(s.rows, fields, types, i, j);
    }
    SameKernelSameCount(counted, f, g);
    SafeCountMeaning(sql, s, q, fields, types);
  }

  lemma ValidUnique(s: Store)
    requires ValidStore(s)
    ensures UniqueRows(s.rows)
  {
  }
}
