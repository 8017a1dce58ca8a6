/** Published metrics: their joins, their identity-based count, and how they agree with SafeQuery. */
module MetricQueries {
  import opened Wrappers
  import opened Values
  import opened Records
  import opened Facts
  import opened IndexQueries
  import opened QueryEngines
  import opened IdentityCounts
  import opened ContextSums
  import D = Decimals

  datatype Aggregation = Count | Sum | Avg | Min | Max

  /** An equality filter, the caller's or one published with the metric. */
  datatype MetricFilter = MetricFilter(fieldCode: string, value: Scalar)

  /** The fact set of an official metric. */
  datatype FactContract = FactContract(recordType: string, provenance: Provenance)

  /** A published metric; a legacy one has no fact set. */
  datatype Metric = Metric(
    fieldCode: string, fieldVersion: int, dataType: DataType, aggregation: Aggregation,
    identities: seq<string>, allowed: set<string>, statusFilters: seq<MetricFilter>, contract: Option<FactContract>)

  datatype MetricError = FilterNotAllowed | FilterUnavailable | FilterRejected | FilterOverflow | NotSummable

  /** A count, a sum in units of ten to the minus tenth, or the non-null values the other aggregations fold. */
  datatype MetricValue = Counted(number: nat) | Summed(units: int) | Folded(values: seq<Typed>)

  datatype MetricAnswer = MetricAnswer(value: MetricValue, recordCount: nat, sourceFileCount: nat)

  // ----- filters -----

  function CompileMetricFilter(f: MetricFilter, published: FieldTypeMap): Result<Condition, MetricError> {
    if f.fieldCode !in published then Failure(FilterUnavailable)
    else
      match Normalize(published[f.fieldCode], f.value)
      case Normal(_, v) => Success(Condition(f.fieldCode, published[f.fieldCode], Eq, [v]))
      case Rejected => Failure(FilterRejected)
      case Overflow => Failure(FilterOverflow)
  }

  function CompileMetricFilters(filters: seq<MetricFilter>, allowed: Option<set<string>>, published: FieldTypeMap): Result<seq<Condition>, MetricError> {
    if filters == [] then Success([])
    else
      match CompileMetricFilters(filters[..|filters| - 1], allowed, published)
      case Failure(e) => Failure(e)
      case Success(init) =>
        var f := filters[|filters| - 1];
        if allowed.Some? && f.fieldCode !in allowed.value then Failure(FilterNotAllowed)
        else
          match CompileMetricFilter(f, published)
          case Failure(e) => Failure(e)
          case Success(c) => Success(init + [c])
  }

  lemma {:induction false} MetricFiltersFail(filters: seq<MetricFilter>, allowed: Option<set<string>>, published: FieldTypeMap, failed: nat)
    requires failed <= |filters| && CompileMetricFilters(filters[..failed], allowed, published).Failure?
    ensures CompileMetricFilters(filters, allowed, published) == CompileMetricFilters(filters[..failed], allowed, published)
  {
    if failed < |filters| {
      var init := filters[..|filters| - 1];
      assert init[..failed] == filters[..failed];
      MetricFiltersFail(init, allowed, published, failed);
    } else {
      assert filters[..failed] == filters;
    }
  }

  // ----- the statement -----

  type Measured = (Fact, IndexValue)

  /** The metric's own join pins field, version and role. */
  function MetricMeasure(m: Metric): (p: IndexValue -> bool)
    ensures forall v :: p(v) <==> Pinned(v, m.fieldCode) && v.fieldVersion == m.fieldVersion
  {
    (v: IndexValue) => Pinned(v, m.fieldCode) && v.fieldVersion == m.fieldVersion
  }

  /** A caller's filter accepts a row of any role. */
  function Loose(sql: Sql, c: Condition): (p: IndexValue -> bool)
    ensures forall v :: p(v) <==> v.fieldCode == c.fieldCode && Holds(sql, c, Column(v.columns, c.dataType))
  {
    (v: IndexValue) => v.fieldCode == c.fieldCode && Holds(sql, c, Column(v.columns, c.dataType))
  }

  function LooseChain(sql: Sql, bag: seq<Measured>, rows: seq<IndexValue>, conditions: seq<Condition>): seq<Measured> {
    if conditions == [] then bag
    else
      var n := |conditions| - 1;
      Join(LooseChain(sql, bag, rows, conditions[..n]), PairId, rows, Loose(sql, conditions[n]))
  }

  function MetricScope(m: Metric, scope: Scope): (p: Fact -> bool)
    ensures forall f :: p(f) <==>
              if m.contract.Some? then FactPredicate(f, m.contract.value.recordType, m.contract.value.provenance, scope)
              else InScope(f, scope)
  {
    (f: Fact) => if m.contract.Some? then FactPredicate(f, m.contract.value.recordType, m.contract.value.provenance, scope)
                 else InScope(f, scope)
  }

  function MetricRows(sql: Sql, s: Store, m: Metric, scope: Scope, loose: seq<Condition>, status: seq<Condition>): seq<Measured> {
    var base := Keep(s.facts, MetricScope(m, scope));
    Chain(sql, LooseChain(sql, JoinRows(base, FactId, s.rows, MetricMeasure(m)), s.rows, loose), PairId, s.rows, status)
  }

  function RecordIds(rows: seq<Measured>): (ids: set<nat>)
    ensures forall id :: id in ids <==> exists x :: x in rows && x.0.id == id
  {
    set x | x in rows :: x.0.id
  }

  function ItemIds(rows: seq<Measured>): set<string> {
    set x | x in rows :: x.0.item
  }

  // ----- identities by record -----

  /** The first typed column, in the order the columns are selected, that is not NULL. */
  function FirstColumn(columns: Columns): Option<Typed> {
    if TextType in columns then Some(columns[TextType])
    else if IntegerType in columns then Some(columns[IntegerType])
    else if DecimalType in columns then Some(columns[DecimalType])
    else if BooleanType in columns then Some(columns[BooleanType])
    else if DateType in columns then Some(columns[DateType])
    else if DateTimeType in columns then Some(columns[DateTimeType])
    else None
  }

  /** What the identity dictionary holds of a record for a field: nothing, or a value that may be None. */
  function IdentityEntry(rows: seq<IndexValue>, id: nat, field: string): (entry: Option<Option<Typed>>)
  {
    var found := Matches(rows, id, Measure(field));
    if found == [] then None else Some(FirstColumn(found[0].columns))
  }

  predicate HasEntries(rows: seq<IndexValue>, id: nat, fields: seq<string>) {
    forall f :: f in fields ==> IdentityEntry(rows, id, f).Some?
  }

  function MetricIdentity(rows: seq<IndexValue>, fields: seq<string>): (f: nat -> Option<seq<Option<Typed>>>)
    ensures forall id :: f(id).Some? <==> HasEntries(rows, id, fields)
    ensures forall id :: f(id).Some? ==> |f(id).value| == |fields|
    ensures forall id, i :: f(id).Some? && 0 <= i < |fields| ==> IdentityEntry(rows, id, fields[i]) == Some(f(id).value[i])
  {
    (id: nat) => if HasEntries(rows, id, fields)
                 then Some(seq(|fields|, i requires 0 <= i < |fields| && HasEntries(rows, id, fields) => IdentityEntry(rows, id, fields[i]).value))
                 else None
  }

  function Complete(rows: seq<IndexValue>, ids: set<nat>, fields: seq<string>): (complete: set<nat>)
    ensures forall id :: id in complete <==> id in ids && HasEntries(rows, id, fields)
  {
    set id | id in ids && HasEntries(rows, id, fields)
  }

  function IdentityCount(rows: seq<IndexValue>, ids: set<nat>, fields: seq<string>): nat {
    |Image(Complete(rows, ids, fields), MetricIdentity(rows, fields))|
  }

  type Identities = map<nat, map<string, Option<Typed>>>

  function Entry(found: Identities, id: nat, field: string): Option<Option<Typed>> {
    if id in found && field in found[id] then Some(found[id][field]) else None
  }

  function SetDefault(found: Identities, id: nat, field: string, value: Option<Typed>): (r: Identities)
    ensures forall i, f :: Entry(r, i, f) == if i == id && f == field then Some(value) else Entry(found, i, f)
  {
    found[id := (if id in found then found[id] else map[])[field := value]]
  }

  lemma EntryLast(init: seq<IndexValue>, last: IndexValue, id: nat, field: string)
    requires UniqueRows(init + [last])
    ensures IdentityEntry(init + [last], id, field)
         == if last.recordId == id && Pinned(last, field) then Some(FirstColumn(last.columns)) else IdentityEntry(init, id, field)
  {
    hide FirstColumn;
    MatchesLast(init, last, id, Measure(field));
    AtMostOneMatch(init + [last], id, field, Measure(field));
  }

  lemma NothingFound()
    ensures forall id, f :: Entry(map[], id, f) == IdentityEntry([], id, f)
  {
  }

  /** The loop that fills identities_by_record. */
  method CollectIdentities(identityRows: seq<IndexValue>) returns (found: Identities)
    requires UniqueRows(identityRows) && forall v :: v in identityRows ==> v.role == ""
    ensures forall id, f :: Entry(found, id, f) == IdentityEntry(identityRows, id, f)
  {
    hide IdentityEntry, FirstColumn, Entry;
    found := map[];
    NothingFound();
    assert identityRows[..0] == [];
    for i := 0 to |identityRows|
      invariant forall id, f :: Entry(found, id, f) == IdentityEntry(identityRows[..i], id, f)
    {
      var v := identityRows[i];
      found := SetDefault(found, v.recordId, v.fieldCode, FirstColumn(v.columns));
      assert identityRows[..i + 1] == identityRows[..i] + [v] && v in identityRows;
      forall id, f ensures Entry(found, id, f) == IdentityEntry(identityRows[..i + 1], id, f) {
        EntryLast(identityRows[..i], v, id, f);
      }
    }
    assert identityRows[..|identityRows|] == identityRows;
  }

  /** The index rows the identity query reads. */
  function IdentityRows(rows: seq<IndexValue>, ids: set<nat>, fields: seq<string>): seq<IndexValue> {
    Keep(rows, IsIdentityRow(ids, fields))
  }

  function IsIdentityRow(ids: set<nat>, fields: seq<string>): (p: IndexValue -> bool)
    ensures forall v :: p(v) <==> v.recordId in ids && v.fieldCode in fields && v.role == ""
  {
    (v: IndexValue) => v.recordId in ids && v.fieldCode in fields && v.role == ""
  }

  lemma {:induction false} KeepUnique(rows: seq<IndexValue>, p: IndexValue -> bool)
    requires UniqueRows(rows)
    ensures UniqueRows(Keep(rows, p))
  {
    if rows != [] {
      var init, last := rows[..|rows| - 1], rows[|rows| - 1];
      KeepUnique(init, p);
      forall v | v in Keep(init, p)
        ensures v.recordId != last.recordId || v.fieldCode != last.fieldCode || v.role != last.role
      {
        var i :| 0 <= i < |init| && init[i] == v;
        assert rows[i] == v;
      }
    }
  }

  /** The identity query loses no entry of the records and fields it asks for. */
  lemma IdentityRowsSuffice(rows: seq<IndexValue>, ids: set<nat>, fields: seq<string>, id: nat, field: string)
    ensures IdentityEntry(IdentityRows(rows, ids, fields), id, field)
         == if id in ids && field in fields then IdentityEntry(rows, id, field) else None
  {
    var wanted, own := IsIdentityRow(ids, fields), Owned(id, Measure(field));
    if id in ids && field in fields {
      KeepKeep(rows, wanted, own, own);
    } else {
      KeepNone(Keep(rows, wanted), own);
    }
  }

  /** The caller's filters come first, then those published with the metric. */
  function CompileMetric(m: Metric, filters: seq<MetricFilter>, published: FieldTypeMap): Result<(seq<Condition>, seq<Condition>), MetricError> {
    match CompileMetricFilters(filters, Some(m.allowed), published)
    case Failure(e) => Failure(e)
    case Success(loose) =>
      match CompileMetricFilters(m.statusFilters, None, published)
      case Failure(e) => Failure(e)
      case Success(status) => Success((loose, status))
  }

  // ----- sums -----

  predicate IsNumeric(dataType: DataType) {
    dataType == IntegerType || dataType == DecimalType || dataType == BooleanType
  }

  const ONE: int := 10000000000

  /** A stored number in units of the tenth decimal place; a boolean adds as 0 or 1. */
  function UnitsOf(v: Typed): int {
    match v
    case TInteger(n) => n * ONE
    case TDecimal(Finite(negative, c, _)) => D.Signed(negative, c)
    case TBoolean(b) => if b then ONE else 0
    case _ => 0
  }

  function AllUnits(values: seq<Typed>): (units: seq<int>)
    ensures |units| == |values| && forall i :: 0 <= i < |values| ==> units[i] == UnitsOf(values[i])
  {
    seq(|values|, i requires 0 <= i < |values| => UnitsOf(values[i]))
  }

  /** sum(values, start=0): integers add exactly, decimals in the default context. */
  function PythonSum(values: seq<Typed>, dataType: DataType): int {
    if dataType == DecimalType then ContextTotal(AllUnits(values)) else ExactTotal(AllUnits(values))
  }

  method SumValues(values: seq<Typed>, dataType: DataType) returns (total: int)
    ensures total == PythonSum(values, dataType)
  {
    hide Rounded, UnitsOf;
    total := 0;
    var units := AllUnits(values);
    for i := 0 to |units|
      invariant total == if dataType == DecimalType then ContextTotal(units[..i]) else ExactTotal(units[..i])
    {
      assert units[..i + 1][..i] == units[..i];
      total := if dataType == DecimalType then Rounded(total + units[i]) else total + units[i];
    }
    assert units[..|units|] == units;
  }

  /** The value a metric reports on its statement's rows; adding anything but numbers raises a TypeError. */
  function ValueFrom(s: Store, m: Metric, rows: seq<Measured>): Result<MetricValue, MetricError> {
    match m.aggregation
    case Count =>
      Success(Counted(if m.identities != [] then IdentityCount(s.rows, RecordIds(rows), m.identities) else |RecordIds(rows)|))
    case Sum =>
      var values := NonNull(rows, m.dataType);
      if values != [] && !IsNumeric(m.dataType) then Failure(NotSummable) else Success(Summed(PythonSum(values, m.dataType)))
    case _ => Success(Folded(NonNull(rows, m.dataType)))
  }

  /** What a metric makes of its statement's rows. */
  function AnswerOf(s: Store, m: Metric, rows: seq<Measured>): Result<MetricAnswer, MetricError> {
    match ValueFrom(s, m, rows)
    case Failure(e) => Failure(e)
    case Success(value) => Success(MetricAnswer(value, |RecordIds(rows)|, |ItemIds(rows)|))
  }

  /** The loop over the caller's filters. */
  method JoinCallerFilters(sql: Sql, measured: seq<Measured>, rows: seq<IndexValue>, filters: seq<MetricFilter>, allowed: set<string>,
                           published: FieldTypeMap)
    returns (r: Result<seq<Measured>, MetricError>)
    ensures CompileMetricFilters(filters, Some(allowed), published).Failure? ==>
              r == Failure(CompileMetricFilters(filters, Some(allowed), published).error)
    ensures CompileMetricFilters(filters, Some(allowed), published).Success? ==>
              r == Success(LooseChain(sql, measured, rows, CompileMetricFilters(filters, Some(allowed), published).value))
  {
    hide Normalize, Join;
    var statement := measured;
    ghost var loose: seq<Condition> := [];
    assert filters[..|filters|] == filters;
    for i := 0 to |filters|
      invariant CompileMetricFilters(filters[..i], Some(allowed), published) == Success(loose)
      invariant statement == LooseChain(sql, measured, rows, loose)
    {
      assert filters[..i + 1][..i] == filters[..i];
      if filters[i].fieldCode !in allowed {
        MetricFiltersFail(filters, Some(allowed), published, i + 1);
        return Failure(FilterNotAllowed);
      }
      var compiled := CompileMetricFilter(filters[i], published);
      if compiled.Failure? {
        MetricFiltersFail(filters, Some(allowed), published, i + 1);
        return Failure(compiled.error);
      }
      statement := Join(statement, PairId, rows, Loose(sql, compiled.value));
      assert (loose + [compiled.value])[..|loose|] == loose;
      loose := loose + [compiled.value];
    }
    r := Success(statement);
  }

  /** The loop over the filters published with the metric. */
  method JoinStatusFilters(sql: Sql, joined: seq<Measured>, rows: seq<IndexValue>, filters: seq<MetricFilter>, published: FieldTypeMap)
    returns (r: Result<seq<Measured>, MetricError>)
    ensures CompileMetricFilters(filters, None, published).Failure? ==>
              r == Failure(CompileMetricFilters(filters, None, published).error)
    ensures CompileMetricFilters(filters, None, published).Success? ==>
              r == Success(Chain(sql, joined, PairId, rows, CompileMetricFilters(filters, None, published).value))
  {
    hide Normalize, Join;
    var statement := joined;
    ghost var status: seq<Condition> := [];
    assert filters[..|filters|] == filters;
    for i := 0 to |filters|
      invariant CompileMetricFilters(filters[..i], None, published) == Success(status)
      invariant statement == Chain(sql, joined, PairId, rows, status)
    {
      assert filters[..i + 1][..i] == filters[..i];
      var compiled := CompileMetricFilter(filters[i], published);
      if compiled.Failure? {
        MetricFiltersFail(filters, None, published, i + 1);
        return Failure(compiled.error);
      }
      statement := Join(statement, PairId, rows, Passing(sql, compiled.value));
      assert (status + [compiled.value])[..|status|] == status;
      status := status + [compiled.value];
    }
    r := Success(statement);
  }

  /** execute_metric_query, after the metric and its contracts have been looked up. */
  method ExecuteMetric(sql: Sql, s: Store, m: Metric, filters: seq<MetricFilter>, published: FieldTypeMap, scope: Scope)
    returns (r: Result<MetricAnswer, MetricError>)
    requires ValidStore(s)
    ensures CompileMetric(m, filters, published).Failure? ==> r == Failure(CompileMetric(m, filters, published).error)
    ensures CompileMetric(m, filters, published).Success? ==>
              var (loose, status) := CompileMetric(m, filters, published).value;
              r == AnswerOf(s, m, MetricRows(sql, s, m, scope, loose, status))
  {
    hide CompileMetricFilters, Keep, ValidStore, LooseChain, Chain, JoinRows, NonNull, IdentityCount, PythonSum;
    var base := Keep(s.facts, MetricScope(m, scope));
    var measured := JoinRows(base, FactId, s.rows, MetricMeasure(m));
    var joined := JoinCallerFilters(sql, measured, s.rows, filters, m.allowed, published);
    if joined.Failure? {
      return Failure(joined.error);
    }
    var filtered := JoinStatusFilters(sql, joined.value, s.rows, m.statusFilters, published);
    if filtered.Failure? {
      return Failure(filtered.error);
    }
    var statement := filtered.value;
    var ids := RecordIds(statement);
    var value;
    match m.aggregation {
      case Count =>
        var number := |ids|;
        if m.identities != [] {
          number := CountIdentities(s, ids, m.identities);
        }
        value := Counted(number);
      case Sum =>
        var values := NonNull(statement, m.dataType);
        if values != [] && !IsNumeric(m.dataType) {
          return Failure(NotSummable);
        }
        var total := SumValues(values, m.dataType);
        value := Summed(total);
      case _ =>
        value := Folded(NonNull(statement, m.dataType));
    }
    r := Success(MetricAnswer(value, |ids|, |ItemIds(statement)|));
  }

  function TupleOf(entries: map<string, Option<Typed>>, fields: seq<string>): (tuple: seq<Option<Typed>>)
    requires forall f :: f in fields ==> f in entries
    ensures |tuple| == |fields| && forall i :: 0 <= i < |fields| ==> tuple[i] == entries[fields[i]]
  {
    seq(|fields|, i requires 0 <= i < |fields| => entries[fields[i]])
  }

  /** len(identity_tuples) */
  method CountIdentities(s: Store, ids: set<nat>, fields: seq<string>) returns (number: nat)
    requires ValidStore(s) && fields != []
    ensures number == IdentityCount(s.rows, ids, fields)
  {
    hide IdentityEntry, Keep;
    var identityRows := IdentityRows(s.rows, ids, fields);
    KeepUnique(s.rows, IsIdentityRow(ids, fields));
    var found := CollectIdentities(identityRows);
    var tuples := set id | id in found && forall f :: f in fields ==> f in found[id] :: Some(TupleOf(found[id], fields));
    forall id, f ensures Entry(found, id, f) == if id in ids && f in fields then IdentityEntry(s.rows, id, f) else None {
      IdentityRowsSuffice(s.rows, ids, fields, id, f);
    }
    TuplesAreImage(s.rows, ids, fields, found, tuples);
    number := |tuples|;
  }

  lemma TuplesAreImage(rows: seq<IndexValue>, ids: set<nat>, fields: seq<string>, found: Identities, tuples: set<Option<seq<Option<Typed>>>>)
    requires fields != []
    requires forall id, f :: Entry(found, id, f) == if id in ids && f in fields then IdentityEntry(rows, id, f) else None
    requires tuples == set id | id in found && forall f :: f in fields ==> f in found[id] :: Some(TupleOf(found[id], fields))
    ensures tuples == Image(Complete(rows, ids, fields), MetricIdentity(rows, fields))
  {
    hide IdentityEntry, Image, MetricIdentity;
    var complete, identity := Complete(rows, ids, fields), MetricIdentity(rows, fields);
    forall id ensures id in complete <==> id in found && forall f :: f in fields ==> f in found[id] {
      CompleteInFound(rows, ids, fields, found, id);
    }
    forall id | id in complete ensures identity(id) == Some(TupleOf(found[id], fields)) {
      forall i | 0 <= i < |fields| ensures identity(id).value[i] == TupleOf(found[id], fields)[i] {
        assert Entry(found, id, fields[i]) == IdentityEntry(rows, id, fields[i]);
      }
      assert identity(id).value == TupleOf(found[id], fields);
    }
  }

  lemma CompleteInFound(rows: seq<IndexValue>, ids: set<nat>, fields: seq<string>, found: Identities, id: nat)
    requires fields != []
    requires forall id, f :: Entry(found, id, f) == if id in ids && f in fields then IdentityEntry(rows, id, f) else None
    ensures id in Complete(rows, ids, fields) <==> id in found && forall f :: f in fields ==> f in found[id]
  {
    hide IdentityEntry;
    assert fields[0] in fields;
    if id in Complete(rows, ids, fields) {
      assert Entry(found, id, fields[0]).Some?;
      forall f | f in fields ensures f in found[id] {
        assert Entry(found, id, f).Some?;
      }
    }
    if id in found && forall f :: f in fields ==> f in found[id] {
      assert Entry(found, id, fields[0]).Some?;
      forall f | f in fields ensures IdentityEntry(rows, id, f).Some? {
        assert Entry(found, id, f).Some?;
      }
    }
  }
}
