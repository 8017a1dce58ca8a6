/** Dataset records as the query engines see them: scope, provenance and typed index rows. */
module Facts {
  import opened Wrappers

  datatype Fact = Fact(
    id: nat, tenant: string, unit: string, item: string, passed: bool, recordType: string, createdAt: int,
    regionTemplate: Option<string>, regionVersion: Option<int>,
    template: Option<string>, templateVersion: Option<int>, plan: string)

  datatype Scope = Scope(
    tenant: string, units: set<string>, items: set<string>, enforced: bool, createdBefore: Option<int>)

  datatype Provenance =
    | RegionTemplate(id: string, version: Option<int>)
    | DocumentTemplate(id: string, version: Option<int>)
    | ApprovedPlan(id: string)

  predicate InScope(f: Fact, scope: Scope) {
    && f.tenant == scope.tenant && f.unit in scope.units && f.passed
    && (scope.enforced || scope.items != {} ==> f.item in scope.items)
    && (scope.createdBefore.Some? ==> f.createdAt <= scope.createdBefore.value)
  }

  predicate FromProvenance(f: Fact, p: Provenance) {
    match p
    case RegionTemplate(id, version) => f.regionTemplate == Some(id) && f.regionVersion == version
    case DocumentTemplate(id, version) => f.template == Some(id) && f.templateVersion == version
    case ApprovedPlan(id) => f.plan == id
  }

  /** _fact_predicates */
  predicate FactPredicate(f: Fact, recordType: string, p: Provenance, scope: Scope) {
    InScope(f, scope) && f.recordType == recordType && FromProvenance(f, p)
  }

  predicate DistinctFacts(facts: seq<Fact>) {
    forall i, j :: 0 <= i < j < |facts| ==> facts[i].id != facts[j].id
  }

  /** The WHERE clause of a statement over one table. */
  function Keep<T(!new)>(bag: seq<T>, p: T -> bool): (kept: seq<T>)
    ensures forall t :: t in kept <==> t in bag && p(t)
  {
    if bag == [] then []
    else
      var last := bag[|bag| - 1];
      Keep(bag[..|bag| - 1], p) + (if p(last) then [last] else [])
  }

  lemma {:induction false} KeepKeep<T(!new)>(bag: seq<T>, p: T -> bool, q: T -> bool, both: T -> bool)
    requires forall t :: t in bag ==> (both(t) <==> p(t) && q(t))
    ensures Keep(Keep(bag, p), q) == Keep(bag, both)
  {
    if bag != [] {
      var init, last := bag[..|bag| - 1], bag[|bag| - 1];
      KeepKeep(init, p, q, both);
      assert last in bag;
      if p(last) {
        KeepLast(Keep(init, p), last, q);
        assert Keep(bag, p) == Keep(init, p) + [last];
      } else {
        assert Keep(bag, p) == Keep(init, p);
      }
    }
  }

  lemma KeepLast<T(!new)>(init: seq<T>, last: T, p: T -> bool)
    ensures Keep(init + [last], p) == if p(last) then Keep(init, p) + [last] else Keep(init, p)
  {
    assert (init + [last])[..|init|] == init;
  }

  lemma {:induction false} KeepNone<T(!new)>(bag: seq<T>, p: T -> bool)
    requires forall t :: t in bag ==> !p(t)
    ensures Keep(bag, p) == []
  {
    if bag != [] {
      assert bag[|bag| - 1] in bag;
      KeepNone(bag[..|bag| - 1], p);
    }
  }

  lemma {:induction false} KeepSame<T(!new)>(bag: seq<T>, p: T -> bool, q: T -> bool)
    requires forall t :: t in bag ==> (p(t) <==> q(t))
    ensures Keep(bag, p) == Keep(bag, q)
  {
    if bag != [] {
      assert bag[|bag| - 1] in bag;
      KeepSame(bag[..|bag| - 1], p, q);
    }
  }

  lemma {:induction false} KeepDistinct(facts: seq<Fact>, p: Fact -> bool)
    requires DistinctFacts(facts)
    ensures DistinctFacts(Keep(facts, p))
  {
    if facts != [] {
      var init, last := facts[..|facts| - 1], facts[|facts| - 1];
      KeepDistinct(init, p);
      forall f | f in Keep(init, p) ensures f.id != last.id {
        var i :| 0 <= i < |init| && init[i] == f;
      }
    }
  }
}
