/** The question catalogue: which fact set a scoped record is listed under, and what its entry executes. */
module FactCatalog {
  import opened Wrappers
  import opened Dicts
  import opened Facts
  import opened IndexQueries
  import opened QueryEngines

  /** provenance_columns: what the catalogue groups the scoped records by. */
  datatype Key = Key(
    recordType: string, regionTemplate: Option<string>, regionVersion: Option<int>,
    template: Option<string>, templateVersion: Option<int>, plan: string)

  /** A published fact set definition. */
  datatype Definition = Definition(code: string, version: int, recordType: string, provenance: Provenance)

  /** A derived code is a digest of the provenance and the record type, here the two themselves. */
  datatype Code = Named(code: string) | Derived(provenance: Provenance, recordType: string)

  datatype FactSetEntry = FactSetEntry(
    code: Code, version: int, published: bool, recordType: string, recordCount: nat, provenance: Provenance)

  /** A scope frozen for a question run: its sources are listed and its cut is set. */
  predicate Frozen(scope: Scope) {
    scope.enforced && scope.createdBefore.Some?
  }

  /** _scoped_record_predicates: the catalogue always filters by the listed sources and the cut. */
  predicate InCatalogue(f: Fact, scope: Scope) {
    && f.tenant == scope.tenant && f.unit in scope.units && f.item in scope.items && f.passed
    && scope.createdBefore.Some? && f.createdAt <= scope.createdBefore.value
  }

  function KeyOf(f: Fact): Key {
    Key(f.recordType, f.regionTemplate, f.regionVersion, f.template, f.templateVersion, f.plan)
  }

  /** _matches_fact_set */
  predicate MatchesDefinition(k: Key, d: Definition) {
    d.recordType == k.recordType &&
    match d.provenance
    case RegionTemplate(id, version) => k.regionTemplate == Some(id) && k.regionVersion == version
    case DocumentTemplate(id, version) => k.template == Some(id) && k.templateVersion == version
    case ApprovedPlan(id) => k.plan == id
  }

  function Matching(k: Key, definitions: seq<Definition>): (m: seq<Definition>)
    ensures forall d :: d in m <==> d in definitions && MatchesDefinition(k, d)
  {
    Keep(definitions, d => MatchesDefinition(k, d))
  }

  /** The provenance of a row no single definition claims. */
  function OwnProvenance(k: Key): Provenance {
    if k.regionTemplate.Some? then RegionTemplate(k.regionTemplate.value, k.regionVersion)
    else if k.template.Some? then DocumentTemplate(k.template.value, k.templateVersion)
    else ApprovedPlan(k.plan)
  }

  /** _fact_identity */
  function FactIdentity(k: Key, definitions: seq<Definition>): (Code, Option<Definition>) {
    var matches := Matching(k, definitions);
    if |matches| == 1 then (Named(matches[0].code), Some(matches[0]))
    else (Derived(OwnProvenance(k), k.recordType), None)
  }

  function CodeOf(k: Key, definitions: seq<Definition>): Code {
    FactIdentity(k, definitions).0
  }

  /** _execution_provenance */
  function ExecutionProvenance(k: Key, definition: Option<Definition>): Provenance {
    if definition.Some? then definition.value.provenance else OwnProvenance(k)
  }

  function ScopedIds(facts: seq<Fact>, scope: Scope, k: Key): (ids: set<nat>)
    ensures forall id :: id in ids <==> exists f :: f in facts && f.id == id && InCatalogue(f, scope) && KeyOf(f) == k
  {
    set f | f in facts && InCatalogue(f, scope) && KeyOf(f) == k :: f.id
  }

  function EntryFor(k: Key, definitions: seq<Definition>, facts: seq<Fact>, scope: Scope): FactSetEntry {
    var (code, definition) := FactIdentity(k, definitions);
    FactSetEntry(code, if definition.Some? then definition.value.version else 1, definition.Some?, k.recordType,
                 |ScopedIds(facts, scope, k)|, ExecutionProvenance(k, definition))
  }

  /** The last grouped row that feeds a code. */
  function LastFeeding(rows: seq<Key>, definitions: seq<Definition>, code: Code): (k: Option<Key>)
    ensures k.Some? ==> k.value in rows && CodeOf(k.value, definitions) == code
    ensures k.None? ==> forall k :: k in rows ==> CodeOf(k, definitions) != code
  {
    if rows == [] then None
    else
      var init, last := rows[..|rows| - 1], rows[|rows| - 1];
      assert rows == init + [last];
      if CodeOf(last, definitions) == code then Some(last) else LastFeeding(init, definitions, code)
  }

  /** The loop that fills fact_sets_by_code: a later row replaces the entry of an earlier one. */
  method BuildFactSets(rows: seq<Key>, definitions: seq<Definition>, facts: seq<Fact>, scope: Scope)
    returns (listed: Dict<Code, FactSetEntry>)
    ensures listed.Valid()
    ensures forall code :: code in listed.at <==> LastFeeding(rows, definitions, code).Some?
    ensures forall code :: code in listed.at ==>
              listed.at[code] == EntryFor(LastFeeding(rows, definitions, code).value, definitions, facts, scope)
  {
    hide FactIdentity, EntryFor;
    listed := Empty();
    for i := 0 to |rows|
      invariant listed.Valid()
      invariant forall code :: code in listed.at <==> LastFeeding(rows[..i], definitions, code).Some?
      invariant forall code :: code in listed.at ==>
                  listed.at[code] == EntryFor(LastFeeding(rows[..i], definitions, code).value, definitions, facts, scope)
    {
      assert rows[..i + 1][..i] == rows[..i];
      var entry := EntryFor(rows[i], definitions, facts, scope);
      listed := Put(listed, CodeOf(rows[i], definitions), entry);
    }
    assert rows[..|rows|] == rows;
  }

  // ----- what an entry executes -----

  /** The record is selected when the entry is executed. */
  predicate Executes(entry: FactSetEntry, scope: Scope, f: Fact) {
    FactPredicate(f, entry.recordType, entry.provenance, scope)
  }

  function AsSelection(entry: FactSetEntry, scope: Scope): Selection {
    Selection.Selection(entry.recordType, entry.provenance, scope, [])
  }

  /** The record count the engines report for the entry, without filters. */
  function ExecutedCount(sql: Sql, s: Store, entry: FactSetEntry, scope: Scope): nat {
    EvidenceCounts(Filtered(sql, s, AsSelection(entry, scope))).0
  }

  lemma IdentityMatches(k: Key, definitions: seq<Definition>)
    ensures var definition := FactIdentity(k, definitions).1;
            definition.Some? ==>
              && definition.value in definitions && MatchesDefinition(k, definition.value)
              && forall d :: d in definitions && MatchesDefinition(k, d) ==> d == definition.value
  {
    var m := Matching(k, definitions);
    if |m| == 1 {
      assert m[0] in m && forall d :: d in m ==> d == m[0];
    }
  }

  /** Every scoped record satisfies the executable predicate of the fact set it is catalogued under. */
  lemma OwnRowIsExecuted(f: Fact, definitions: seq<Definition>, facts: seq<Fact>, scope: Scope)
    requires Frozen(scope) && InCatalogue(f, scope)
    ensures Executes(EntryFor(KeyOf(f), definitions, facts, scope), scope, f)
  {
    IdentityMatches(KeyOf(f), definitions);
  }

  /** An entry executes exactly the scoped records catalogued under its code. */
  predicate Exact(entry: FactSetEntry, definitions: seq<Definition>, facts: seq<Fact>, scope: Scope) {
    forall f :: f in facts && InCatalogue(f, scope) ==> (Executes(entry, scope, f) <==> CodeOf(KeyOf(f), definitions) == entry.code)
  }

  /** Exactly one published rule claims the record. */
  predicate ClaimedBy(f: Fact, definitions: seq<Definition>, d: Definition) {
    FactIdentity(KeyOf(f), definitions).1 == Some(d)
  }

  /**
   * A published entry is exact if and only if no other published rule overlaps its rule on a scoped record,
   * and no scoped record is claimed by another rule that shares its code.
   */
  lemma PublishedEntryExactWhen(k: Key, definitions: seq<Definition>, facts: seq<Fact>, scope: Scope)
    requires Frozen(scope) && FactIdentity(k, definitions).1.Some?
    ensures var d := FactIdentity(k, definitions).1.value;
            Exact(EntryFor(k, definitions, facts, scope), definitions, facts, scope) <==>
              && (forall f :: f in facts && InCatalogue(f, scope) && MatchesDefinition(KeyOf(f), d) ==> |Matching(KeyOf(f), definitions)| == 1)
              && (forall f, e :: f in facts && InCatalogue(f, scope) && e in definitions && e != d && e.code == d.code ==> !ClaimedBy(f, definitions, e))
  {
    hide Matching;
    var d := FactIdentity(k, definitions).1.value;
    var entry := EntryFor(k, definitions, facts, scope);
    IdentityMatches(k, definitions);
    forall f | f in facts && InCatalogue(f, scope)
      ensures Executes(entry, scope, f) <==> MatchesDefinition(KeyOf(f), d)
      ensures |Matching(KeyOf(f), definitions)| == 1 && MatchesDefinition(KeyOf(f), d) ==> ClaimedBy(f, definitions, d)
      ensures forall e :: ClaimedBy(f, definitions, e) ==> e in definitions && (MatchesDefinition(KeyOf(f), d) <==> e == d)
    {
      IdentityMatches(KeyOf(f), definitions);
    }
  }

  /** No region narrows a document template's records, and no template narrows a plan's. */
  predicate Narrowed(f: Fact, p: Provenance) {
    (p.DocumentTemplate? && f.regionTemplate.Some?) || (p.ApprovedPlan? && (f.regionTemplate.Some? || f.template.Some?))
  }

  /**
   * A derived entry is exact if and only if no scoped record of its provenance is claimed by a published
   * rule or carries a narrower provenance.
   */
  lemma DerivedEntryExactWhen(k: Key, definitions: seq<Definition>, facts: seq<Fact>, scope: Scope)
    requires Frozen(scope) && FactIdentity(k, definitions).1.None?
    ensures var p := OwnProvenance(k);
            Exact(EntryFor(k, definitions, facts, scope), definitions, facts, scope) <==>
              forall f :: f in facts && FactPredicate(f, k.recordType, p, scope) ==>
                |Matching(KeyOf(f), definitions)| != 1 && !Narrowed(f, p)
  {
    hide Matching;
  }

  // ----- counts -----

  lemma SubsetSize(a: set<nat>, b: set<nat>)
    requires a <= b
    ensures |a| <= |b| && (|a| == |b| <==> a == b)
  {
    assert b == a + (b - a) && |b| == |a| + |b - a|;
    assert |b - a| == 0 <==> b - a == {};
  }

  /**
   * The listed record count never exceeds the executed one, and equals it if and only if every scoped
   * record the entry selects has the provenance columns of the row that was listed last.
   */
  lemma ListedCountExactWhen(sql: Sql, s: Store, k: Key, definitions: seq<Definition>, scope: Scope)
    requires Frozen(scope) && ValidStore(s)
    ensures var entry := EntryFor(k, definitions, s.facts, scope);
            && entry.recordCount <= ExecutedCount(sql, s, entry, scope)
            && (entry.recordCount == ExecutedCount(sql, s, entry, scope) <==>
                  forall f :: f in s.facts && Executes(entry, scope, f) ==> KeyOf(f) == k)
  {
    hide FactPredicate, Matching;
    var entry := EntryFor(k, definitions, s.facts, scope);
    var listed := ScopedIds(s.facts, scope, k);
    var executed := Ids(Base(s, AsSelection(entry, scope)));
    forall f | f in s.facts && InCatalogue(f, scope) && KeyOf(f) == k ensures Executes(entry, scope, f) {
      OwnRowIsExecuted(f, definitions, s.facts, scope);
    }
    ExecutedInScope(entry, scope);
    assert listed <= executed;
    SubsetSize(listed, executed);
    if listed == executed {
      forall f | f in s.facts && Executes(entry, scope, f) ensures KeyOf(f) == k {
        assert f.id in listed;
        var g :| g in s.facts && g.id == f.id && KeyOf(g) == k;
        SameId(s.facts, f, g);
      }
    }
    assert Ids(Filtered(sql, s, AsSelection(entry, scope))) == executed;
  }

  lemma ExecutedInScope(entry: FactSetEntry, scope: Scope)
    requires Frozen(scope)
    ensures forall f :: Executes(entry, scope, f) ==> InCatalogue(f, scope)
  {
  }

  lemma SameId(facts: seq<Fact>, f: Fact, g: Fact)
    requires DistinctFacts(facts) && f in facts && g in facts && f.id == g.id
    ensures f == g
  {
  }

  /**
   * Where entries are exact, the listed count is the executed count if and only if one grouped row feeds
   * the code: a second row overwrites the first instead of adding to it.
   */
  lemma OneRowPerCode(sql: Sql, s: Store, k: Key, rows: seq<Key>, definitions: seq<Definition>, scope: Scope)
    requires Frozen(scope) && ValidStore(s)
    requires forall r :: r in rows <==> exists f :: f in s.facts && InCatalogue(f, scope) && KeyOf(f) == r
    requires Exact(EntryFor(k, definitions, s.facts, scope), definitions, s.facts, scope)
    ensures var entry := EntryFor(k, definitions, s.facts, scope);
            entry.recordCount == ExecutedCount(sql, s, entry, scope) <==>
              forall r :: r in rows && CodeOf(r, definitions) == entry.code ==> r == k
  {
    hide FactPredicate, FactIdentity, InCatalogue;
    var entry := EntryFor(k, definitions, s.facts, scope);
    ListedCountExactWhen(sql, s, k, definitions, scope);
    ExecutedInScope(entry, scope);
    if forall f :: f in s.facts && Executes(entry, scope, f) ==> KeyOf(f) == k {
      forall r | r in rows && CodeOf(r, definitions) == entry.code ensures r == k {
        var f :| f in s.facts && InCatalogue(f, scope) && KeyOf(f) == r;
        assert Executes(entry, scope, f);
      }
    }
    if forall r :: r in rows && CodeOf(r, definitions) == entry.code ==> r == k {
      forall f | f in s.facts && Executes(entry, scope, f) ensures KeyOf(f) == k {
        assert KeyOf(f) in rows;
      }
    }
  }
}
