/** One execution of an import plan: records, index rows, lineage rows and quality issues are appended. */
module ImportRuns {
  import opened Wrappers
  import opened Text
  import opened Dicts
  import opened Values
  import opened Records
  import opened RawEvidence
  import opened Layouts
  import opened LayoutLoops
  import opened Emission

  /** The template that owns a region's records, and the identity policy of its definition. */
  datatype Owner = Owner(
    regionTemplate: Option<string>, regionVersion: Option<int>,
    template: Option<string>, templateVersion: Option<int>,
    recordType: string, identityFields: seq<string>)

  datatype ScopedIdentity = ScopedIdentity(
    template: Option<string>, version: Option<int>, recordType: string, values: seq<string>)

  /** One approved region: the mode of its layout, if it has one, and the kind its template gives it. */
  datatype Section = Section(
    sheetId: string, layoutMode: string, regionKind: string, region: Region, owner: Owner, materialize: bool)

  function SectionMode(s: Section): Mode {
    ModeOf(s.layoutMode, s.regionKind)
  }

  datatype IssueCode = RequiredValueMissing | DuplicateIdentity | ValueRejected

  datatype QualityIssue = QualityIssue(recordId: nat, code: IssueCode)

  /** The display value of the last selected cell of a field without a role. */
  function FieldValue(selected: seq<Selection>, field: string): Scalar {
    if selected == [] then Str("")
    else
      var (mapping, cell) := selected[|selected| - 1];
      if mapping.role == "" && mapping.fieldCode == field then cell.display
      else FieldValue(selected[..|selected| - 1], field)
  }

  function IdentityOf(owner: Owner, selected: seq<Selection>): ScopedIdentity {
    ScopedIdentity(
      if owner.regionTemplate.Some? then owner.regionTemplate else owner.template,
      if owner.regionVersion.Some? && owner.regionVersion.value != 0 then owner.regionVersion else owner.templateVersion,
      owner.recordType,
      seq(|owner.identityFields|, i requires 0 <= i < |owner.identityFields| =>
        Strip(PyText(FieldValue(selected, owner.identityFields[i])))))
  }

  datatype Verdict = NoPolicy | Incomplete | Duplicate | Accepted(identity: ScopedIdentity)

  function Judge(owner: Owner, selected: seq<Selection>, seen: set<ScopedIdentity>): Verdict {
    var identity := IdentityOf(owner, selected);
    if owner.identityFields == [] then NoPolicy
    else if "" in identity.values then Incomplete
    else if identity in seen then Duplicate
    else Accepted(identity)
  }

  function VerdictIssues(id: nat, v: Verdict): seq<QualityIssue> {
    match v
    case Incomplete => [QualityIssue(id, RequiredValueMissing)]
    case Duplicate => [QualityIssue(id, DuplicateIdentity)]
    case _ => []
  }

  function Repeat(issue: QualityIssue, n: nat): seq<QualityIssue> {
    seq(n, _ => issue)
  }

  function IssuesOf(id: nat, missing: nat, v: Verdict, rejected: nat): seq<QualityIssue> {
    Repeat(QualityIssue(id, RequiredValueMissing), missing) + VerdictIssues(id, v) +
    Repeat(QualityIssue(id, ValueRejected), rejected)
  }

  /** Everything the run has written, with what is known of each record's origin. */
  datatype Log = Log(
    records: seq<Record>, indices: seq<IndexValue>, lineages: seq<Lineage>, issues: seq<QualityIssue>,
    seen: set<ScopedIdentity>, partialInputs: nat, origins: seq<Origin>)

  datatype Origin = Origin(kept: seq<KeptValue>, base: nat, verdict: Verdict, cells: set<Cell>)

  const EMPTY_LOG := Log([], [], [], [], {}, 0, [])

  function RecordOf(id: nat, sha: string, s: Section, input: Input, p: Projection, v: Verdict): Record {
    Record(id, s.sheetId, input.row, sha,
           RAW_CONTRACT, Merge(input.columns, input.selected, |input.selected|).0,
           SEMANTIC_CONTRACT, SemanticFrom(p.0),
           input.complete && p.1 == 0,
           input.missing == [] && (v.NoPolicy? || v.Accepted?) && p.1 == 0)
  }

  function Written(log: Log, sha: string, s: Section, input: Input, p: Projection): Log {
    var id, base := |log.records|, |log.indices|;
    var v := Judge(s.owner, input.selected, log.seen);
    Log(log.records + [RecordOf(id, sha, s, input, p, v)],
        log.indices + IndexRows(p.0, base, id),
        log.lineages + LineageRows(p.0, base, sha, s.sheetId),
        log.issues + IssuesOf(id, |input.missing|, v, p.1),
        if v.Accepted? then log.seen + {v.identity} else log.seen,
        log.partialInputs + (if input.complete then 0 else 1),
        log.origins + [Origin(p.0, base, v, s.region.grid.at.Values)])
  }

  function Append(log: Log, sha: string, fields: FieldTypes, s: Section, input: Input): Result<Log, Abort> {
    match Project(fields, input.selected, |input.selected|)
    case Failure(e) => Failure(e)
    case Success(p) => Success(Written(log, sha, s, input, p))
  }

  function AppendAll(log: Log, sha: string, fields: FieldTypes, s: Section, inputs: seq<Input>): Result<Log, Abort> {
    if inputs == [] then Success(log)
    else
      match AppendAll(log, sha, fields, s, inputs[..|inputs| - 1])
      case Failure(e) => Failure(e)
      case Success(l) => Append(l, sha, fields, s, inputs[|inputs| - 1])
  }

  function RunSection(log: Log, sha: string, fields: FieldTypes, s: Section): Result<Log, Abort>
    requires s.region.grid.Valid()
  {
    if !s.materialize then Success(log)
    else
      match Inputs(SectionMode(s), s.region)
      case Failure(e) => Failure(e)
      case Success(inputs) => AppendAll(log, sha, fields, s, inputs)
  }

  function Run(sha: string, fields: FieldTypes, sections: seq<Section>): Result<Log, Abort>
    requires forall s :: s in sections ==> s.region.grid.Valid()
  {
    if sections == [] then Success(EMPTY_LOG)
    else
      match Run(sha, fields, sections[..|sections| - 1])
      case Failure(e) => Failure(e)
      case Success(log) => RunSection(log, sha, fields, sections[|sections| - 1])
  }

  // ----- the run itself -----

  class ImportRun {
    const sourceSha: string
    const fields: FieldTypes
    var records: seq<Record>
    var indices: seq<IndexValue>
    var lineages: seq<Lineage>
    var issues: seq<QualityIssue>
    var seen: set<ScopedIdentity>
    var recordCount: nat
    var valueCount: nat
    var issueCount: nat
    var incompleteCount: nat
    ghost var origins: seq<Origin>

    ghost function Written(): Log
      reads this
    {
      Log(records, indices, lineages, issues, seen, incompleteCount, origins)
    }

    /** The counters count what was written. */
    ghost predicate Counted()
      reads this
    {
      recordCount == |records| && valueCount == |indices| == |lineages| && issueCount == |issues|
    }

    constructor (sourceSha: string, fields: FieldTypes)
      ensures this.sourceSha == sourceSha && this.fields == fields
      ensures Counted() && Written() == EMPTY_LOG
    {
      this.sourceSha, this.fields := sourceSha, fields;
      records, indices, lineages, issues, seen := [], [], [], [], {};
      recordCount, valueCount, issueCount, incompleteCount := 0, 0, 0, 0;
      origins := [];
    }

    /** The loop over one record's selected cells. */
    method WriteValues(recordId: nat, sheetId: string, selected: seq<Selection>)
      returns (result: Result<Projection, Abort>)
      requires Counted()
      modifies `indices, `lineages, `issues, `valueCount, `issueCount
      ensures result == Project(fields, selected, |selected|)
      ensures result.Success? ==>
                && indices == old(indices) + IndexRows(result.value.0, old(|indices|), recordId)
                && lineages == old(lineages) + LineageRows(result.value.0, old(|indices|), sourceSha, sheetId)
                && issues == old(issues) + Repeat(QualityIssue(recordId, ValueRejected), result.value.1)
                && Counted()
    {
      hide CellOutcome, SemanticFrom, IndexRow, LineageRow, IndexRows, LineageRows, Repeat;
      var kept: seq<KeptValue>, rejected: nat := [], 0;
      var base := |indices|;
      NoRows(base, recordId, sourceSha, sheetId);
      for i := 0 to |selected|
        invariant Project(fields, selected, i) == Success((kept, rejected))
        invariant base == old(|indices|) && recordCount == |records| && Counted()
        invariant indices == old(indices) + IndexRows(kept, base, recordId)
        invariant lineages == old(lineages) + LineageRows(kept, base, sourceSha, sheetId)
        invariant issues == old(issues) + Repeat(QualityIssue(recordId, ValueRejected), rejected)
      {
        var (mapping, cell) := selected[i];
        var field := (mapping.fieldCode, mapping.fieldVersion);
        if field !in fields {
          ProjectFails(fields, selected, i + 1, |selected|);
          return Failure(MaterializationFailed);
        }
        var outcome := CellOutcome(fields[field], cell.display);
        match outcome {
          case Fatal(e) =>
            ProjectFails(fields, selected, i + 1, |selected|);
            return Failure(e);
          case Issue =>
            OneMoreIssue(QualityIssue(recordId, ValueRejected), rejected);
            issues := issues + [QualityIssue(recordId, ValueRejected)];
            issueCount := issueCount + 1;
            rejected := rejected + 1;
          case Kept(normalizer, value) =>
            if KeyOf(mapping) in SemanticFrom(kept).at {
              ProjectFails(fields, selected, i + 1, |selected|);
              return Failure(MaterializationFailed);
            }
            var k := KeptValue(mapping, cell, fields[field], normalizer, value);
            OneMoreRow(kept, k, base, recordId, sourceSha, sheetId);
            indices := indices + [IndexRow(k, |indices|, recordId)];
            lineages := lineages + [LineageRow(k, |lineages|, sourceSha, sheetId)];
            valueCount := valueCount + 1;
            kept := kept + [k];
        }
      }
      result := Success((kept, rejected));
    }

    /** The record is added before its values, with the issues its input and identity raise. */
    method OpenRecord(s: Section, input: Input, columns: RawColumns) returns (verdict: Verdict)
      requires Counted()
      modifies `records, `issues, `seen, `recordCount, `issueCount, `incompleteCount
      ensures verdict == Judge(s.owner, input.selected, old(seen))
      ensures records == old(records) +
                [Record(old(|records|), s.sheetId, input.row, sourceSha, RAW_CONTRACT, columns, SEMANTIC_CONTRACT, Empty(),
                        input.complete, input.missing == [] && (verdict.NoPolicy? || verdict.Accepted?))]
      ensures issues == old(issues) + Repeat(QualityIssue(old(|records|), RequiredValueMissing), |input.missing|)
                          + VerdictIssues(old(|records|), verdict)
      ensures seen == if verdict.Accepted? then old(seen) + {verdict.identity} else old(seen)
      ensures incompleteCount == old(incompleteCount) + (if input.complete then 0 else 1)
      ensures Counted()
    {
      hide Judge;
      var id, passed := |records|, input.missing == [];
      if !input.complete {
        incompleteCount := incompleteCount + 1;
      }
      issues := issues + Repeat(QualityIssue(id, RequiredValueMissing), |input.missing|);
      issueCount := issueCount + |input.missing|;
      verdict := Judge(s.owner, input.selected, seen);
      match verdict {
        case Accepted(identity) =>
          seen := seen + {identity};
        case NoPolicy =>
        case _ =>
          issues := issues + VerdictIssues(id, verdict);
          issueCount := issueCount + 1;
          passed := false;
      }
      records := records + [Record(id, s.sheetId, input.row, sourceSha, RAW_CONTRACT, columns, SEMANTIC_CONTRACT, Empty(),
                                   input.complete, passed)];
      recordCount := recordCount + 1;
    }

    /** One record: its raw columns are completed, it is judged, and its values are written. */
    method WriteRecord(s: Section, input: Input) returns (failure: Option<Abort>)
      requires Counted()
      modifies this
      ensures match Append(old(Written()), sourceSha, fields, s, input)
              case Failure(e) => failure == Some(e)
              case Success(log) => failure == None && Counted() && Written() == log
    {
      hide IndexRows, LineageRows, Project, Judge, SemanticFrom, Merge, Repeat, VerdictIssues;
      var raw := new RawProjection(input.columns);
      raw.IncludeSelected(input.selected);
      var id, base := |records|, |indices|;
      var verdict := OpenRecord(s, input, raw.columns);
      var written := WriteValues(id, s.sheetId, input.selected);
      if written.Failure? {
        return Some(written.error);
      }
      var (kept, rejected) := written.value;
      var record := records[id];
      records := records[id := record.(semantic := SemanticFrom(kept),
                                       complete := record.complete && rejected == 0,
                                       passed := record.passed && rejected == 0)];
      origins := origins + [Origin(kept, base, verdict, s.region.grid.at.Values)];
      failure := None;
    }

    /** The loops of materialize_plan over sections and their record inputs. */
    method Execute(sections: seq<Section>) returns (failure: Option<Abort>)
      requires Counted() && Written() == EMPTY_LOG
      requires forall s :: s in sections ==> s.region.grid.Valid()
      modifies this
      ensures match Run(sourceSha, fields, sections)
              case Failure(e) => failure == Some(e)
              case Success(log) => failure == None && Counted() && Written() == log
    {
      hide Append, Inputs;
      assert sections[..|sections|] == sections;
      for i := 0 to |sections|
        invariant Counted() && Run(sourceSha, fields, sections[..i]) == Success(Written())
      {
        assert sections[..i + 1][..i] == sections[..i];
        failure := ExecuteSection(sections[i]);
        if failure.Some? {
          RunFails(sourceSha, fields, sections, i + 1);
          return;
        }
      }
      failure := None;
    }

    method ExecuteSection(s: Section) returns (failure: Option<Abort>)
      requires Counted() && s.region.grid.Valid()
      modifies this
      ensures match RunSection(old(Written()), sourceSha, fields, s)
              case Failure(e) => failure == Some(e)
              case Success(log) => failure == None && Counted() && Written() == log
    {
      hide Append, Inputs;
      if !s.materialize {
        return None;
      }
      var collected := CollectInputs(SectionMode(s), s.region);
      if collected.Failure? {
        return Some(collected.error);
      }
      var inputs := collected.value;
      ghost var before := Written();
      assert inputs[..|inputs|] == inputs;
      for i := 0 to |inputs|
        invariant Counted() && AppendAll(before, sourceSha, fields, s, inputs[..i]) == Success(Written())
      {
        assert inputs[..i + 1][..i] == inputs[..i];
        failure := WriteRecord(s, inputs[i]);
        if failure.Some? {
          AppendFails(before, sourceSha, fields, s, inputs, i + 1);
          return;
        }
      }
      failure := None;
    }
  }

  lemma {:induction false} AppendFails(log: Log, sha: string, fields: FieldTypes, s: Section, inputs: seq<Input>, failed: nat)
    requires failed <= |inputs| && AppendAll(log, sha, fields, s, inputs[..failed]).Failure?
    ensures AppendAll(log, sha, fields, s, inputs) == AppendAll(log, sha, fields, s, inputs[..failed])
  {
    if failed < |inputs| {
      var init := inputs[..|inputs| - 1];
      assert init[..failed] == inputs[..failed];
      AppendFails(log, sha, fields, s, init, failed);
    } else {
      assert inputs[..failed] == inputs;
    }
  }

  lemma {:induction false} RunFails(sha: string, fields: FieldTypes, sections: seq<Section>, failed: nat)
    requires failed <= |sections| && forall s :: s in sections ==> s.region.grid.Valid()
    requires Run(sha, fields, sections[..failed]).Failure?
    ensures Run(sha, fields, sections) == Run(sha, fields, sections[..failed])
  {
    if failed < |sections| {
      var init := sections[..|sections| - 1];
      assert init[..failed] == sections[..failed];
      RunFails(sha, fields, init, failed);
    } else {
      assert sections[..failed] == sections;
    }
  }

  lemma NoRows(base: nat, recordId: nat, sha: string, sheetId: string)
    ensures IndexRows([], base, recordId) == [] && LineageRows([], base, sha, sheetId) == []
    ensures Repeat(QualityIssue(recordId, ValueRejected), 0) == []
  {
  }

  /** A further kept value gives one further index row and one further lineage row. */
  lemma OneMoreRow(kept: seq<KeptValue>, k: KeptValue, base: nat, recordId: nat, sha: string, sheetId: string)
    ensures |IndexRows(kept, base, recordId)| == |LineageRows(kept, base, sha, sheetId)| == |kept|
    ensures IndexRows(kept + [k], base, recordId) == IndexRows(kept, base, recordId) + [IndexRow(k, base + |kept|, recordId)]
    ensures LineageRows(kept + [k], base, sha, sheetId) ==
            LineageRows(kept, base, sha, sheetId) + [LineageRow(k, base + |kept|, sha, sheetId)]
  {
    hide IndexRow, LineageRow;
  }

  lemma OneMoreIssue(issue: QualityIssue, n: nat)
    ensures Repeat(issue, n + 1) == Repeat(issue, n) + [issue]
  {
  }

  lemma {:induction false} ProjectFails(fields: FieldTypes, selected: seq<Selection>, failed: nat, n: nat)
    requires failed <= n <= |selected| && Project(fields, selected, failed).Failure?
    ensures Project(fields, selected, n) == Project(fields, selected, failed)
  {
    if failed < n {
      ProjectFails(fields, selected, failed, n - 1);
    }
  }
}
