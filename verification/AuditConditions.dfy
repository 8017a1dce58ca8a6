/** What an execution's inputs must be for the audit to accept everything it writes. */
module AuditConditions {
  import opened Calendar
  import opened Dicts
  import opened Values
  import opened RawEvidence
  import opened Layouts
  import opened Emission
  import opened ImportRuns
  import opened ImportProperties

  // ----- conditions on the inputs -----

  /** A selected cell whose value would be kept has a free role and reads back, its value and its own scalars. */
  predicate Fine(fields: FieldTypes, s: Selection) {
    var field := (s.0.fieldCode, s.0.fieldVersion);
    field in fields && CellOutcome(fields[field], s.1.display).Kept? ==>
      s.0.role != "$value" && ReadsBack(CellOutcome(fields[field], s.1.display).value) && CellReturns(s.1)
  }

  predicate FineSelections(fields: FieldTypes, selected: seq<Selection>, n: nat)
    requires n <= |selected|
  {
    forall j :: 0 <= j < n ==> Fine(fields, selected[j])
  }

  predicate FineInputs(fields: FieldTypes, inputs: seq<Input>) {
    forall j :: 0 <= j < |inputs| ==> FineSelections(fields, inputs[j].selected, |inputs[j].selected|)
  }

  predicate FineSection(fields: FieldTypes, s: Section)
    requires s.region.grid.Valid()
  {
    s.materialize && Inputs(SectionMode(s), s.region).Success? ==> FineInputs(fields, Inputs(SectionMode(s), s.region).value)
  }

  /** No cell that any record of the execution selects and keeps would fail the audit. */
  ghost predicate FineSections(fields: FieldTypes, sections: seq<Section>)
    requires Dictionaries(sections)
  {
    forall j :: 0 <= j < |sections| ==> FineSection(fields, sections[j])
  }

  ghost predicate FineKept(kept: seq<KeptValue>) {
    NoDollarRole(kept) && AllReadBack(kept)
  }

  ghost predicate FineLog(log: Log) {
    forall i :: 0 <= i < |log.origins| ==> FineKept(log.origins[i].kept)
  }

  // ----- what is kept is fine exactly if the inputs are -----

  lemma FineKeptMore(kept: seq<KeptValue>, k: KeptValue)
    ensures FineKept(kept + [k]) <==> FineKept(kept) && k.mapping.role != "$value" && KeptReadsBack(k)
  {
    hide KeptReadsBack;
    var all := kept + [k];
    assert forall i :: 0 <= i < |kept| ==> all[i] == kept[i];
    assert all[|kept|] == k;
  }

  lemma {:induction false} ProjectionFine(fields: FieldTypes, selected: seq<Selection>, n: nat)
    requires n <= |selected| && Project(fields, selected, n).Success?
    ensures FineKept(Project(fields, selected, n).value.0) <==> FineSelections(fields, selected, n)
  {
    hide CellOutcome, ReadsBack, CellReturns, SemanticFrom, FineKept;
    if n == 0 {
      NothingKept();
    } else {
      ProjectionFine(fields, selected, n - 1);
      var before := Project(fields, selected, n - 1).value;
      var (mapping, cell) := selected[n - 1];
      var field := (mapping.fieldCode, mapping.fieldVersion);
      match CellOutcome(fields[field], cell.display) {
        case Kept(normalizer, value) =>
          FineKeptMore(before.0, KeptValue(mapping, cell, fields[field], normalizer, value));
        case _ =>
      }
    }
  }

  lemma NothingKept()
    ensures FineKept([])
  {
  }

  lemma AppendFine(log: Log, sha: string, fields: FieldTypes, s: Section, input: Input)
    requires Append(log, sha, fields, s, input).Success?
    ensures FineLog(Append(log, sha, fields, s, input).value)
       <==> FineLog(log) && FineSelections(fields, input.selected, |input.selected|)
  {
    hide Project, FineKept, FineSelections, Merge, Judge, SemanticFrom, IssuesOf, IndexRows, LineageRows;
    ProjectionFine(fields, input.selected, |input.selected|);
    var after := Append(log, sha, fields, s, input).value;
    assert forall i :: 0 <= i < |log.origins| ==> after.origins[i] == log.origins[i];
    assert after.origins[|log.origins|].kept == Project(fields, input.selected, |input.selected|).value.0;
  }

  lemma {:induction false} AppendAllFine(log: Log, sha: string, fields: FieldTypes, s: Section, inputs: seq<Input>)
    requires AppendAll(log, sha, fields, s, inputs).Success?
    ensures FineLog(AppendAll(log, sha, fields, s, inputs).value) <==> FineLog(log) && FineInputs(fields, inputs)
  {
    hide Append, FineLog, FineSelections;
    if inputs != [] {
      var init, last := inputs[..|inputs| - 1], inputs[|inputs| - 1];
      AppendAllFine(log, sha, fields, s, init);
      AppendFine(AppendAll(log, sha, fields, s, init).value, sha, fields, s, last);
      assert forall j :: 0 <= j < |init| ==> init[j] == inputs[j];
    }
  }

  lemma {:induction false} RunFine(sha: string, fields: FieldTypes, sections: seq<Section>)
    requires Dictionaries(sections) && Run(sha, fields, sections).Success?
    ensures FineLog(Run(sha, fields, sections).value) <==> FineSections(fields, sections)
  {
    hide AppendAll, FineLog, FineInputs, Inputs;
    if sections == [] {
      NothingWritten();
    } else {
      var init, s := sections[..|sections| - 1], sections[|sections| - 1];
      RunFine(sha, fields, init);
      if s.materialize {
        AppendAllFine(Run(sha, fields, init).value, sha, fields, s, Inputs(SectionMode(s), s.region).value);
      }
      assert forall j :: 0 <= j < |init| ==> init[j] == sections[j];
    }
  }

  lemma NothingWritten()
    ensures FineLog(EMPTY_LOG)
  {
  }

  // ----- the audit of a whole execution -----

  ghost predicate AllPass(log: Log, zone: Zone) {
    forall i :: 0 <= i < |log.records| ==>
      log.records[i].rawColumns.Valid() && log.records[i].semantic.Valid() && PassesAudit(log, i, zone)
  }

  /**
   * Every record of an execution passes the audit if and only if no cell it selects and keeps is mapped to
   * the role `$value`, is a datetime without an offset, or holds a float that the raw data return as another
   * number.
   */
  lemma AllRecordsPassWhen(sha: string, fields: FieldTypes, sections: seq<Section>, zone: Zone)
    requires PlainSections(sections) && Run(sha, fields, sections).Success? && Keeps(zone)
    ensures AllPass(Run(sha, fields, sections).value, zone) <==> FineSections(fields, sections)
  {
    hide Run, FineSections, PassesAudit, FineKept, Keeps, WroteRecord, PlainIds;
    RunFine(sha, fields, sections);
    var log := Run(sha, fields, sections).value;
    RunIsExplained(sha, fields, sections);
    forall i | 0 <= i < |log.records|
      ensures log.records[i].rawColumns.Valid() && log.records[i].semantic.Valid()
      ensures PassesAudit(log, i, zone) <==> FineKept(log.origins[i].kept)
    {
      EveryRecordPassesAudit(sha, fields, sections, i, zone);
      FineKeptParts(log.origins[i].kept);
    }
  }

  lemma FineKeptParts(kept: seq<KeptValue>)
    ensures FineKept(kept) <==> NoDollarRole(kept) && AllReadBack(kept)
  {
  }

  /** No mapping of the region has the reserved role. */
  predicate FreeRoles(r: Region) {
    forall b :: b in r.bounds ==> b.mapping.role != "$value"
  }

  /** A region whose mappings have no datetime field, or whose datetime texts all carry an offset. */
  ghost predicate ZonedCells(fields: FieldTypes, r: Region) {
    || (forall b :: b in r.bounds && (b.mapping.fieldCode, b.mapping.fieldVersion) in fields ==>
          fields[(b.mapping.fieldCode, b.mapping.fieldVersion)] != DateTimeType)
    || (forall c :: c in r.grid.at.Values && Normalize(DateTimeType, c.display).Normal? ==>
          ReadsBack(Normalize(DateTimeType, c.display).value))
  }

  /** The raw data return every cell of the sheet as it is, as they do without floats from ten to the 16th on. */
  predicate ReturnedCells(r: Region) {
    forall c :: c in r.grid.at.Values ==> CellReturns(c)
  }

  lemma PlainCellIsFine(fields: FieldTypes, r: Region, s: Selection)
    requires FreeRoles(r) && ZonedCells(fields, r) && ReturnedCells(r) && IsMapping(r, s.0) && s.1 in r.grid.at.Values
    ensures Fine(fields, s)
  {
    hide Normalize, IsSpreadsheetError, CellReturns;
    var field := (s.0.fieldCode, s.0.fieldVersion);
    if field in fields && Normalize(fields[field], s.1.display).Normal? {
      NormalizeTyped(fields[field], s.1.display);
    }
  }

  /** If no mapping has the reserved role, no datetime lacks an offset and every cell is returned, every record passes. */
  lemma PlainImportsPass(sha: string, fields: FieldTypes, sections: seq<Section>, zone: Zone)
    requires PlainSections(sections) && Run(sha, fields, sections).Success? && Keeps(zone)
    requires forall s :: s in sections && s.materialize ==> FreeRoles(s.region) && ZonedCells(fields, s.region) && ReturnedCells(s.region)
    ensures AllPass(Run(sha, fields, sections).value, zone)
  {
    hide Run, AllPass, FreeRoles, ZonedCells, ReturnedCells, Fine, OfRegion;
    forall j | 0 <= j < |sections| ensures FineSection(fields, sections[j]) {
      var s := sections[j];
      assert s in sections;
      if s.materialize && Inputs(SectionMode(s), s.region).Success? {
        InputsFromBounds(SectionMode(s), s.region);
        RegionIsFine(fields, s.region, Inputs(SectionMode(s), s.region).value);
      }
    }
    AllRecordsPassWhen(sha, fields, sections, zone);
  }

  lemma RegionIsFine(fields: FieldTypes, r: Region, inputs: seq<Input>)
    requires FreeRoles(r) && ZonedCells(fields, r) && ReturnedCells(r) && forall input :: input in inputs ==> FromBounds(input, r)
    ensures FineInputs(fields, inputs)
  {
    hide FreeRoles, ZonedCells, ReturnedCells, Fine, IsMapping;
    forall j, k | 0 <= j < |inputs| && 0 <= k < |inputs[j].selected| ensures Fine(fields, inputs[j].selected[k]) {
      assert FromBounds(inputs[j], r);
      PlainCellIsFine(fields, r, inputs[j].selected[k]);
    }
  }
}
