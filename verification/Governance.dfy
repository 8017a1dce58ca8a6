/** Publishing query contracts, and compiling a SafeQuery against what is published. */
module Governance {
  import opened Wrappers

  datatype Status = Draft | Published

  /** Codes come with their version; the pair is unique. */
  type Version = (string, int)

  datatype Measure = Measure(fieldCode: string, aggregations: set<string>, additivity: string, groupedDistinct: bool)

  datatype Rule = Rule(kind: string, id: string, version: Option<int>)

  datatype FactSet = FactSet(
    status: Status, recordType: string, grain: string, rule: Rule, identities: seq<string>,
    dimensions: seq<string>, timeDimensions: seq<string>, statusDimensions: seq<string>,
    measures: seq<Measure>, blocked: set<string>, fingerprint: string)

  datatype Manifest = Manifest(
    status: Status, factSet: Version, fingerprint: string, root: string, entities: seq<string>,
    relationships: nat, joinDepth: int, dimensions: seq<string>, measures: seq<Measure>)

  datatype Contract = Contract(factSet: Version, manifest: Version)

  datatype MetricContract = MetricContract(
    status: Status, contract: Option<Contract>, recordType: string, grain: string, fieldCode: string,
    aggregation: string, additivity: string, allowedFilters: seq<string>, statusFilters: seq<string>,
    identities: seq<string>, timePolicy: bool)

  datatype GovernanceError =
    | NotADraft | BadRule | UnpublishedFields | NoIdentity
    | NoFactSet | FingerprintDiffers | UndeclaredRoot | NoJoinDepth
    | NoContract | NoMeasure | AggregationNotAllowed | AdditivityDiffers | FilterNotADimension
    | RecordTypeDiffers | GrainDiffers | IdentityDiffers | TimeAware

  predicate ValidRule(r: Rule) {
    r.kind in {"region_template", "document_template", "approved_plan"} && r.id != "" &&
    (r.kind != "approved_plan" ==> r.version.Some?)
  }

  /** A list's codes, without empty ones. */
  function Codes(codes: seq<string>): (r: set<string>)
    ensures forall c :: c in r <==> c in codes && c != ""
  {
    set c | c in codes && c != ""
  }

  /** The dictionary of measures: a later entry for a field replaces an earlier one. */
  function MeasureOf(measures: seq<Measure>, code: string): Option<Measure> {
    if measures == [] || code == "" then None
    else
      var n := |measures| - 1;
      if measures[n].fieldCode == code then Some(measures[n]) else MeasureOf(measures[..n], code)
  }

  function MeasureCodes(measures: seq<Measure>): set<string> {
    set m | m in measures && m.fieldCode != "" :: m.fieldCode
  }

  function ReferencedFields(f: FactSet): set<string> {
    (set c | c in f.identities) + (set c | c in f.dimensions) + MeasureCodes(f.measures)
    + Codes(f.timeDimensions) + Codes(f.statusDimensions)
  }

  function FilterFields(m: MetricContract): set<string> {
    (set c | c in m.allowedFilters) + Codes(m.statusFilters)
  }

  // ----- what publishing requires -----

  function FactSetError(f: FactSet, fields: set<string>): Option<GovernanceError> {
    if f.status != Draft then Some(NotADraft)
    else if !ValidRule(f.rule) then Some(BadRule)
    else if !(ReferencedFields(f) <= fields) then Some(UnpublishedFields)
    else if f.identities == [] then Some(NoIdentity)
    else None
  }

  function ManifestError(m: Manifest, factSets: map<Version, FactSet>): Option<GovernanceError> {
    if m.status != Draft then Some(NotADraft)
    else if m.factSet !in factSets || factSets[m.factSet].status != Published then Some(NoFactSet)
    else if m.fingerprint != factSets[m.factSet].fingerprint then Some(FingerprintDiffers)
    else if m.root !in Codes(m.entities) then Some(UndeclaredRoot)
    else if m.relationships > 0 && m.joinDepth == 0 then Some(NoJoinDepth)
    else None
  }

  function MetricError(m: MetricContract, factSets: map<Version, FactSet>, manifests: map<Version, Manifest>): Option<GovernanceError> {
    if m.status != Draft then Some(NotADraft)
    else if m.contract.None? then Some(NoContract)
    else
      var c := m.contract.value;
      if c.factSet !in factSets || factSets[c.factSet].status != Published || c.manifest !in manifests
         || manifests[c.manifest].factSet != c.factSet || manifests[c.manifest].status != Published then Some(NoContract)
      else
        var f, manifest := factSets[c.factSet], manifests[c.manifest];
        var measure, factMeasure := MeasureOf(manifest.measures, m.fieldCode), MeasureOf(f.measures, m.fieldCode);
        if manifest.fingerprint != f.fingerprint then Some(FingerprintDiffers)
        else if measure.None? then Some(NoMeasure)
        else if m.aggregation !in measure.value.aggregations then Some(AggregationNotAllowed)
        else if factMeasure.None? || m.additivity != measure.value.additivity || m.additivity != factMeasure.value.additivity
          then Some(AdditivityDiffers)
        else if !(FilterFields(m) <= Codes(manifest.dimensions)) then Some(FilterNotADimension)
        else if m.recordType != f.recordType then Some(RecordTypeDiffers)
        else if m.grain != f.grain then Some(GrainDiffers)
        else if (set c | c in m.identities) != (set c | c in f.identities) then Some(IdentityDiffers)
        else if m.timePolicy then Some(TimeAware)
        else None
  }

  // ----- the invariant -----

  /** Everything published stands on published contracts with equal fingerprints. */
  ghost predicate Sound(factSets: map<Version, FactSet>, manifests: map<Version, Manifest>, metrics: map<Version, MetricContract>) {
    && (forall k :: k in factSets && factSets[k].status == Published ==> factSets[k].identities != [] && ValidRule(factSets[k].rule))
    && (forall k :: k in manifests && manifests[k].status == Published ==>
          manifests[k].factSet in factSets && factSets[manifests[k].factSet].status == Published
          && manifests[k].fingerprint == factSets[manifests[k].factSet].fingerprint)
    && (forall k :: k in metrics && metrics[k].status == Published ==> Official(metrics[k], factSets, manifests))
  }

  /** A metric that stands on published, fingerprint-equal contracts that allow all it uses. */
  ghost predicate Official(m: MetricContract, factSets: map<Version, FactSet>, manifests: map<Version, Manifest>) {
    && m.contract.Some? && m.contract.value.factSet in factSets && m.contract.value.manifest in manifests
    && var f, manifest := factSets[m.contract.value.factSet], manifests[m.contract.value.manifest];
    && f.status == Published && manifest.status == Published
    && manifest.factSet == m.contract.value.factSet && manifest.fingerprint == f.fingerprint
    && MeasureOf(manifest.measures, m.fieldCode).Some?
    && m.aggregation in MeasureOf(manifest.measures, m.fieldCode).value.aggregations
    && FilterFields(m) <= Codes(manifest.dimensions)
    && m.recordType == f.recordType
    && forall c :: c in m.identities <==> c in f.identities
  }

  class Contracts {
    var fields: set<string>
    var factSets: map<Version, FactSet>
    var manifests: map<Version, Manifest>
    var metrics: map<Version, MetricContract>

    ghost predicate Valid()
      reads this
    {
      Sound(factSets, manifests, metrics)
    }

    constructor ()
      ensures Valid() && fields == {} && factSets == map[] && manifests == map[] && metrics == map[]
    {
      fields, factSets, manifests, metrics := {}, map[], map[], map[];
    }

    /** Fields are published and withdrawn independently of the contracts. */
    method SetFields(published: set<string>)
      requires Valid()
      modifies this`fields
      ensures Valid() && fields == published
    {
      fields := published;
    }

    method DraftFactSet(key: Version, f: FactSet)
      requires Valid() && key !in factSets && f.status == Draft
      modifies this`factSets
      ensures Valid() && factSets == old(factSets)[key := f]
    {
      factSets := factSets[key := f];
    }

    method DraftManifest(key: Version, m: Manifest)
      requires Valid() && key !in manifests && m.status == Draft
      modifies this`manifests
      ensures Valid() && manifests == old(manifests)[key := m]
    {
      manifests := manifests[key := m];
    }

    method DraftMetric(key: Version, m: MetricContract)
      requires Valid() && key !in metrics && m.status == Draft
      modifies this`metrics
      ensures Valid() && metrics == old(metrics)[key := m]
    {
      metrics := metrics[key := m];
    }

    method PublishFactSet(key: Version) returns (r: Result<FactSet, GovernanceError>)
      requires Valid() && key in factSets
      modifies this`factSets
      ensures Valid()
      ensures match FactSetError(old(factSets)[key], fields)
              case Some(e) => r == Failure(e) && factSets == old(factSets)
              case None =>
                var f := old(factSets)[key].(status := Published);
                r == Success(f) && factSets == old(factSets)[key := f]
    {
      var error := FactSetError(factSets[key], fields);
      if error.Some? {
        return Failure(error.value);
      }
      var f := factSets[key].(status := Published);
      factSets := factSets[key := f];
      r := Success(f);
    }

    method PublishManifest(key: Version) returns (r: Result<Manifest, GovernanceError>)
      requires Valid() && key in manifests
      modifies this`manifests
      ensures Valid()
      ensures match ManifestError(old(manifests)[key], factSets)
              case Some(e) => r == Failure(e) && manifests == old(manifests)
              case None =>
                var m := old(manifests)[key].(status := Published);
                r == Success(m) && manifests == old(manifests)[key := m]
    {
      var error := ManifestError(manifests[key], factSets);
      if error.Some? {
        return Failure(error.value);
      }
      var m := manifests[key].(status := Published);
      manifests := manifests[key := m];
      r := Success(m);
    }

    method PublishMetric(key: Version) returns (r: Result<MetricContract, GovernanceError>)
      requires Valid() && key in metrics
      modifies this`metrics
      ensures Valid()
      ensures match MetricError(old(metrics)[key], factSets, manifests)
              case Some(e) => r == Failure(e) && metrics == old(metrics)
              case None =>
                var m := old(metrics)[key].(status := Published);
                r == Success(m) && metrics == old(metrics)[key := m]
    {
      var error := MetricError(metrics[key], factSets, manifests);
      if error.Some? {
        return Failure(error.value);
      }
      AcceptedIsOfficial(metrics[key], factSets, manifests);
      var m := metrics[key].(status := Published);
      metrics := metrics[key := m];
      r := Success(m);
    }
  }

  lemma AcceptedIsOfficial(m: MetricContract, factSets: map<Version, FactSet>, manifests: map<Version, Manifest>)
    requires MetricError(m, factSets, manifests).None?
    ensures Official(m.(status := Published), factSets, manifests)
  {
    var f := factSets[m.contract.value.factSet];
    var a, b := set c | c in m.identities, set c | c in f.identities;
    assert a == b;
    forall c ensures c in m.identities <==> c in f.identities {
      assert c in a <==> c in b;
    }
  }

  // ----- compiling a SafeQuery -----

  datatype CatalogFactSet = CatalogFactSet(version: Version, published: bool, recordType: string)

  datatype CatalogField = CatalogField(code: string, dataType: string, factSetCodes: seq<string>)

  datatype Catalog = Catalog(factSets: seq<CatalogFactSet>, fields: seq<CatalogField>)

  datatype Plan = Plan(
    factSet: Version, recordType: string, selected: seq<string>, filters: seq<string>, groupBy: seq<string>,
    orderBy: seq<string>, measure: Option<string>, aggregation: string)

  datatype SafeQueryError =
    | NotInCatalog | OtherRecordType | NoDefinition | NoManifest | OutsideFactSet | NotADimension | Sensitive
    | FilterRefused | GroupRefused | NotAMeasure | AggregationRefused | NotAdditive

  function CatalogEntry(sets: seq<CatalogFactSet>, version: Version): Option<CatalogFactSet> {
    if sets == [] then None
    else if sets[0].version == version then Some(sets[0])
    else CatalogEntry(sets[1..], version)
  }

  function CatalogFields(catalog: Catalog, code: string): set<string> {
    set f | f in catalog.fields && f.code != "" && code in f.factSetCodes :: f.code
  }

  function Elements(codes: seq<string>): (r: set<string>)
    ensures forall c :: c in r <==> c in codes
  {
    set c | c in codes
  }

  function PlanFields(plan: Plan, f: FactSet): set<string> {
    Elements(plan.selected) + Elements(plan.filters) + Elements(plan.groupBy) + Elements(plan.orderBy)
    + (if plan.measure.Some? && plan.measure.value != "" then {plan.measure.value} else {}) + Elements(f.identities)
  }

  function MeasureError(plan: Plan, manifest: Manifest, identities: set<string>): Option<SafeQueryError> {
    if plan.measure.None? || plan.measure.value == "" then None
    else
      var measure := MeasureOf(manifest.measures, plan.measure.value);
      if measure.None? then Some(NotAMeasure)
      else if plan.aggregation !in measure.value.aggregations then Some(AggregationRefused)
      else if measure.value.additivity == "non_additive" && plan.groupBy != []
           && !(plan.aggregation == "count" && measure.value.groupedDistinct && plan.measure.value in identities && |identities| == 1)
        then Some(NotAdditive)
      else None
  }

  /** compile_safe_query; `found` is the manifest the database lookup returns. */
  function Compile(catalog: Catalog, factSets: map<Version, FactSet>, found: Option<Manifest>, plan: Plan, enforce: bool): Result<set<string>, SafeQueryError> {
    var entry := CatalogEntry(catalog.factSets, plan.factSet);
    if entry.None? || !entry.value.published then Failure(NotInCatalog)
    else if entry.value.recordType != plan.recordType then Failure(OtherRecordType)
    else if plan.factSet !in factSets || factSets[plan.factSet].status != Published then Failure(NoDefinition)
    else if found.None? then Failure(NoManifest)
    else
      var f, manifest := factSets[plan.factSet], found.value;
      var fields, referenced := CatalogFields(catalog, plan.factSet.0), PlanFields(plan, f);
      var dimensions, identities := Codes(manifest.dimensions), Elements(f.identities);
      var allowed := dimensions + identities;
      if !(referenced <= fields) then Failure(OutsideFactSet)
      else if !(Elements(plan.selected) + Elements(plan.orderBy) <= allowed) then Failure(NotADimension)
      else if enforce && referenced * f.blocked != {} then Failure(Sensitive)
      else if !(Elements(plan.filters) <= allowed) then Failure(FilterRefused)
      else if !(Elements(plan.groupBy) <= dimensions) then Failure(GroupRefused)
      else
        match MeasureError(plan, manifest, identities)
        case Some(e) => Failure(e)
        case None => Success(fields)
  }

  predicate Candidate(m: Manifest, key: Version, f: FactSet) {
    m.status == Published && m.factSet == key && m.fingerprint == f.fingerprint
  }

  /** The lookup returns some published manifest of the fact set, if there is one. */
  ghost predicate LookedUp(found: Option<Manifest>, manifests: map<Version, Manifest>, key: Version, f: FactSet) {
    match found
    case None => forall k :: k in manifests ==> !Candidate(manifests[k], key, f)
    case Some(m) => exists k :: k in manifests && manifests[k] == m && Candidate(m, key, f)
  }

  ghost predicate OneManifest(manifests: map<Version, Manifest>, key: Version, f: FactSet) {
    forall i, j :: i in manifests && j in manifests && Candidate(manifests[i], key, f) && Candidate(manifests[j], key, f) ==> i == j
  }

  /** The ungrouped SafeQuery that computes a metric. */
  function MetricPlan(m: MetricContract, filters: seq<string>): Plan
    requires m.contract.Some?
  {
    Plan(m.contract.value.factSet, m.recordType, [], filters, [], [], Some(m.fieldCode), m.aggregation)
  }

  /** The frozen catalogue lists the fact set and all the fields the query touches, none of them blocked. */
  predicate CatalogHolds(catalog: Catalog, m: MetricContract, f: FactSet, filters: seq<string>, enforce: bool)
    requires m.contract.Some?
  {
    var entry := CatalogEntry(catalog.factSets, m.contract.value.factSet);
    var touched := Elements(filters) + {m.fieldCode} + Elements(f.identities);
    && entry.Some? && entry.value.published && entry.value.recordType == f.recordType
    && touched <= CatalogFields(catalog, m.contract.value.factSet.0)
    && (enforce ==> touched * f.blocked == {})
  }

  /**
   * In every state the contracts reach, the ungrouped SafeQuery of a published metric over its own
   * filters compiles if and only if the frozen catalogue holds what it touches, provided the fact set
   * has one published manifest.
   */
  lemma PublishedMetricCompiles(factSets: map<Version, FactSet>, manifests: map<Version, Manifest>, metrics: map<Version, MetricContract>,
                                key: Version, catalog: Catalog, filters: seq<string>, enforce: bool, found: Option<Manifest>)
    requires Sound(factSets, manifests, metrics) && key in metrics && metrics[key].status == Published
    requires Elements(filters) <= FilterFields(metrics[key])
    requires var k := metrics[key].contract.value.factSet;
             OneManifest(manifests, k, factSets[k]) && LookedUp(found, manifests, k, factSets[k])
    ensures var m := metrics[key];
            Compile(catalog, factSets, found, MetricPlan(m, filters), enforce).Success?
            <==> CatalogHolds(catalog, m, factSets[m.contract.value.factSet], filters, enforce)
  {
    var m := metrics[key];
    var c := m.contract.value;
    assert Candidate(manifests[c.manifest], c.factSet, factSets[c.factSet]);
    assert found == Some(manifests[c.manifest]);
    MetricCompilesWhen(factSets, manifests, metrics, key, catalog, filters, enforce, found);
    hide Compile, CatalogHolds;
  }

  /** The manifest measures the metric's field, allows its aggregation, and has every filter among its dimensions or the identities. */
  predicate Allows(found: Manifest, m: MetricContract, f: FactSet, filters: seq<string>) {
    var measure := MeasureOf(found.measures, m.fieldCode);
    && measure.Some? && m.aggregation in measure.value.aggregations
    && Elements(filters) <= Codes(found.dimensions) + Elements(f.identities)
  }

  /**
   * Whichever published manifest of the fact set the lookup returns, the ungrouped SafeQuery of a published
   * metric compiles if and only if the catalogue holds what it touches and that manifest allows it.
   */
  lemma MetricCompilesWhen(factSets: map<Version, FactSet>, manifests: map<Version, Manifest>, metrics: map<Version, MetricContract>,
                           key: Version, catalog: Catalog, filters: seq<string>, enforce: bool, found: Option<Manifest>)
    requires Sound(factSets, manifests, metrics) && key in metrics && metrics[key].status == Published
    requires var k := metrics[key].contract.value.factSet; LookedUp(found, manifests, k, factSets[k])
    ensures var m := metrics[key];
            var f := factSets[m.contract.value.factSet];
            found.Some? &&
            (Compile(catalog, factSets, found, MetricPlan(m, filters), enforce).Success?
             <==> CatalogHolds(catalog, m, f, filters, enforce) && Allows(found.value, m, f, filters))
  {
    hide CatalogEntry, CatalogFields;
    var m := metrics[key];
    var c := m.contract.value;
    var f := factSets[c.factSet];
    assert Candidate(manifests[c.manifest], c.factSet, f);
    assert m.fieldCode != "";
    assert PlanFields(MetricPlan(m, filters), f) == Elements(filters) + {m.fieldCode} + Elements(f.identities);
  }

  /** It compiles under every possible lookup if and only if every published manifest of the fact set allows it. */
  lemma MetricAlwaysCompilesWhen(factSets: map<Version, FactSet>, manifests: map<Version, Manifest>, metrics: map<Version, MetricContract>,
                                 key: Version, catalog: Catalog, filters: seq<string>, enforce: bool)
    requires Sound(factSets, manifests, metrics) && key in metrics && metrics[key].status == Published
    ensures var m := metrics[key];
            var k := m.contract.value.factSet;
            (forall found :: LookedUp(found, manifests, k, factSets[k]) ==>
               Compile(catalog, factSets, found, MetricPlan(m, filters), enforce).Success?)
            <==>
              && CatalogHolds(catalog, m, factSets[k], filters, enforce)
              && forall i :: i in manifests && Candidate(manifests[i], k, factSets[k]) ==> Allows(manifests[i], m, factSets[k], filters)
  {
    var m := metrics[key];
    var k := m.contract.value.factSet;
    assert Candidate(manifests[m.contract.value.manifest], k, factSets[k]);
    forall found | LookedUp(found, manifests, k, factSets[k])
      ensures found.Some? && (Compile(catalog, factSets, found, MetricPlan(m, filters), enforce).Success?
                <==> CatalogHolds(catalog, m, factSets[k], filters, enforce) && Allows(found.value, m, factSets[k], filters))
    {
      MetricCompilesWhen(factSets, manifests, metrics, key, catalog, filters, enforce, found);
    }
    hide Compile, CatalogHolds, Allows, Sound;
    forall i | i in manifests && Candidate(manifests[i], k, factSets[k]) ensures LookedUp(Some(manifests[i]), manifests, k, factSets[k]) {
    }
  }

  const AMOUNT := Measure("amount", {"sum"}, "additive", false)
  const FACTS := FactSet(Published, "r", "row", Rule("approved_plan", "p", None), ["id"], [], [], [], [AMOUNT], {}, "x")
  const FIRST := Manifest(Published, ("f", 1), "x", "e", ["e"], 0, 0, [], [AMOUNT])
  const SECOND := FIRST.(measures := [])
  const METRIC := MetricContract(Published, Some(Contract(("f", 1), ("m", 1))), "r", "row", "amount", "sum", "additive", [], [], ["id"], false)
  const FACT_SETS: map<Version, FactSet> := map[("f", 1) := FACTS]
  const MANIFESTS: map<Version, Manifest> := map[("m", 1) := FIRST, ("m", 2) := SECOND]
  const CATALOG := Catalog([CatalogFactSet(("f", 1), true, "r")],
                           [CatalogField("id", "text", ["f"]), CatalogField("amount", "integer", ["f"])])

  /** A second published manifest of the fact set can stop a published metric's query. */
  lemma SecondManifestBreaksTheQuery()
    ensures Sound(FACT_SETS, MANIFESTS, map[("k", 1) := METRIC]) && CatalogHolds(CATALOG, METRIC, FACTS, [], true)
    ensures LookedUp(Some(SECOND), MANIFESTS, ("f", 1), FACTS)
    ensures Compile(CATALOG, FACT_SETS, Some(SECOND), MetricPlan(METRIC, []), true) == Failure(NotAMeasure)
  {
    MetricStandsOnFirst();
    assert ("m", 2) in MANIFESTS;
    hide Sound;
    assert CATALOG.fields[0] in CATALOG.fields && CATALOG.fields[1] in CATALOG.fields;
  }

  lemma MetricStandsOnFirst()
    ensures Sound(FACT_SETS, MANIFESTS, map[("k", 1) := METRIC])
  {
  }
}
