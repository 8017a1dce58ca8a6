/** A published metric and the SafeQuery written with the same filters, from their filters on. */
module MetricCompilation {
  import opened Wrappers
  import opened Values
  import opened Facts
  import opened IndexQueries
  import opened QueryEngines
  import opened IdentityCounts
  import opened MetricQueries
  import opened MetricReads
  import opened MetricAgreement

  /** The metric's equality filters as a SafeQuery caller writes them. */
  function AsFilters(filters: seq<MetricFilter>): (r: seq<Filter>)
    ensures |r| == |filters| && forall i :: 0 <= i < |r| ==> r[i] == Filter(filters[i].fieldCode, Eq, [filters[i].value])
  {
    seq(|filters|, i requires 0 <= i < |filters| => Filter(filters[i].fieldCode, Eq, [filters[i].value]))
  }

  /** The frozen catalogue gives the filtered fields the types they are published with. */
  predicate TypesAgree(filters: seq<MetricFilter>, published: FieldTypeMap, types: FieldTypeMap) {
    forall f :: f in filters && f.fieldCode in published ==> f.fieldCode in types && types[f.fieldCode] == published[f.fieldCode]
  }

  lemma FilterCompilesAlike(f: MetricFilter, published: FieldTypeMap, types: FieldTypeMap)
    requires f.fieldCode in published && f.fieldCode in types && types[f.fieldCode] == published[f.fieldCode]
    requires CompileMetricFilter(f, published).Success?
    ensures CompileFilter(Filter(f.fieldCode, Eq, [f.value]), types) == CompileMetricFilterAs(f, published)
  {
    hide Normalize;
    NormalizeSingle(types[f.fieldCode], f.value);
  }

  function CompileMetricFilterAs(f: MetricFilter, published: FieldTypeMap): Result<Condition, QueryError>
    requires CompileMetricFilter(f, published).Success?
  {
    Success(CompileMetricFilter(f, published).value)
  }

  /** What the metric's filters compile to, the SafeQuery's do too. */
  lemma {:induction false} FiltersCompileAlike(filters: seq<MetricFilter>, allowed: Option<set<string>>, published: FieldTypeMap, types: FieldTypeMap)
    requires CompileMetricFilters(filters, allowed, published).Success? && TypesAgree(filters, published, types)
    ensures CompileAll(AsFilters(filters), types) == Success(CompileMetricFilters(filters, allowed, published).value)
  {
    hide CompileMetricFilter, CompileFilter;
    if filters == [] {
      assert AsFilters(filters) == [];
    } else {
      var n := |filters| - 1;
      assert filters == filters[..n] + [filters[n]];
      FiltersCompileAlike(filters[..n], allowed, published, types);
      assert AsFilters(filters)[..n] == AsFilters(filters[..n]);
      CompiledIsPublished(filters[n], published);
      FilterCompilesAlike(filters[n], published, types);
    }
  }

  lemma CompiledIsPublished(f: MetricFilter, published: FieldTypeMap)
    requires CompileMetricFilter(f, published).Success?
    ensures f.fieldCode in published
  {
  }

  lemma {:induction false} CompileAllAppends(a: seq<Filter>, b: seq<Filter>, types: FieldTypeMap)
    requires CompileAll(a, types).Success? && CompileAll(b, types).Success?
    ensures CompileAll(a + b, types) == Success(CompileAll(a, types).value + CompileAll(b, types).value)
  {
    hide CompileFilter;
    if b == [] {
      assert a + b == a && CompileAll(a, types).value + [] == CompileAll(a, types).value;
    } else {
      var n := |b| - 1;
      CompileAllAppends(a, b[..n], types);
      var c := CompileFilter(b[n], types).value;
      assert CompileAll(b, types).value == CompileAll(b[..n], types).value + [c];
      assert CompileAll(a, types).value + CompileAll(b, types).value
          == CompileAll(a, types).value + CompileAll(b[..n], types).value + [c];
      assert (a + b)[..|a + b| - 1] == a + b[..n] && (a + b)[|a + b| - 1] == b[n];
    }
  }

  /** The SafeQuery with all the metric's filters compiles to the metric's conditions. */
  lemma MetricCompilesAlike(m: Metric, filters: seq<MetricFilter>, published: FieldTypeMap, types: FieldTypeMap)
    requires CompileMetric(m, filters, published).Success?
    requires TypesAgree(filters, published, types) && TypesAgree(m.statusFilters, published, types)
    ensures var (loose, status) := CompileMetric(m, filters, published).value;
            CompileAll(AsFilters(filters + m.statusFilters), types) == Success(loose + status)
  {
    hide CompileMetricFilters, CompileAll;
    FiltersCompileAlike(filters, Some(m.allowed), published, types);
    FiltersCompileAlike(m.statusFilters, None, published, types);
    assert AsFilters(filters + m.statusFilters) == AsFilters(filters) + AsFilters(m.statusFilters);
    CompileAllAppends(AsFilters(filters), AsFilters(m.statusFilters), types);
  }

  /**
   * execute_metric_query for a metric that counts identities, and the SafeQuery count with the metric's
   * contract and filters: both compile, and the numbers are equal where the metric reads what counts.
   */
  method CompareCounts(sql: Sql, s: Store, m: Metric, filters: seq<MetricFilter>, published: FieldTypeMap, scope: Scope,
                       fields: seq<string>, types: FieldTypeMap)
    returns (metric: Result<MetricAnswer, MetricError>, safe: Result<nat, QueryError>)
    requires ValidStore(s) && m.contract.Some? && m.aggregation == Count && m.identities != []
    requires CompileMetric(m, filters, published).Success?
    requires var (loose, status) := CompileMetric(m, filters, published).value; ReadsWhatCounts(sql, s, m, scope, loose, status)
    requires TypesAgree(filters, published, types) && TypesAgree(m.statusFilters, published, types)
    requires forall f :: f in fields <==> f in m.identities
    requires forall f :: f in fields ==> f in types
    requires IdentitiesPresent(s.rows, fields, types)
    ensures metric.Success? && safe.Success? && metric.value.value == Counted(safe.value)
    ensures CompileAll(AsFilters(filters + m.statusFilters), types).Success?
    ensures safe.value == SafeCount(sql, s, AsSafeQuery(m, scope, CompileAll(AsFilters(filters + m.statusFilters), types).value), fields, types)
  {
    hide CompileMetric, CompileAll, MetricRows, SafeCount, IdentityCount, RecordIds, ReadsWhatCounts, IdentitiesPresent, TypesAgree, ValidStore;
    metric := ExecuteMetric(sql, s, m, filters, published, scope);
    MetricCompilesAlike(m, filters, published, types);
    ghost var conditions := CompileMetric(m, filters, published).value;
    MetricCountIsSafeCount(sql, s, m, scope, conditions.0, conditions.1, fields, types);
    var compiled := CompileAll(AsFilters(filters + m.statusFilters), types);
    safe := Success(SafeCount(sql, s, AsSafeQuery(m, scope, compiled.value), fields, types));
  }
}
