/** What every execution of an import plan guarantees about the rows it wrote. */
module ImportProperties {
  import opened Wrappers
  import opened Calendar
  import opened Dicts
  import opened Values
  import opened Records
  import opened RawEvidence
  import opened Layouts
  import opened Auditor
  import opened Emission
  import opened ImportRuns

  // ----- the invariant of the log -----

  ghost predicate ValuesShown(columns: RawColumns, kept: seq<KeptValue>, cells: set<Cell>) {
    forall j :: 0 <= j < |kept| ==> Justified(kept[j]) && kept[j].cell in cells && Visible(columns, kept[j].cell)
  }

  predicate LineagesWritten(lineages: seq<Lineage>, kept: seq<KeptValue>, base: nat, sha: string, sheetId: string) {
    && base + |kept| <= |lineages|
    && forall j :: 0 <= j < |kept| ==> lineages[base + j] == LineageRow(kept[j], base + j, sha, sheetId)
  }

  /** The i-th record, its index rows and its lineage rows come from its kept values. */
  ghost predicate WroteRecord(log: Log, i: nat)
    requires i < |log.records| == |log.origins|
  {
    var r, o := log.records[i], log.origins[i];
    && r.id == i && r.rawContract == RAW_CONTRACT && r.semanticContract == SEMANTIC_CONTRACT
    && r.rawColumns.Valid() && r.semantic == SemanticFrom(o.kept) && DistinctKeys(o.kept)
    && RowsOf(log.indices, i) == IndexRows(o.kept, o.base, i)
    && UniqueIds(o.cells) && ShowsCellsOf(r.rawColumns, o.cells)
    && ValuesShown(r.rawColumns, o.kept, o.cells)
    && LineagesWritten(log.lineages, o.kept, o.base, r.sourceSha, r.sheetId)
  }

  ghost predicate Numbered(log: Log) {
    && |log.origins| == |log.records| && |log.lineages| == |log.indices|
    && (forall j :: 0 <= j < |log.indices| ==> log.indices[j].recordId < |log.records|)
    && (forall j :: 0 <= j < |log.lineages| ==> log.lineages[j].indexId == j)
    && (forall q :: q in log.issues ==> q.recordId < |log.records|)
  }

  /** Identities accepted in this run are remembered and pairwise different. */
  ghost predicate IdentitiesDiffer(log: Log) {
    && (forall o :: o in log.origins && o.verdict.Accepted? ==> o.verdict.identity in log.seen)
    && (forall i, j :: 0 <= i < j < |log.origins| && log.origins[i].verdict.Accepted? && log.origins[j].verdict.Accepted? ==>
          log.origins[i].verdict.identity != log.origins[j].verdict.identity)
  }

  ghost predicate HasIssue(log: Log, id: nat) {
    exists q :: q in log.issues && q.recordId == id
  }

  ghost predicate StatusesFollowIssues(log: Log)
    requires |log.origins| == |log.records|
  {
    && (forall i :: 0 <= i < |log.records| ==>
          && (log.records[i].passed <==> !HasIssue(log, i))
          && (log.records[i].passed ==> log.origins[i].verdict.NoPolicy? || log.origins[i].verdict.Accepted?))
    && (log.issues == [] && log.partialInputs == 0 <==>
          forall i :: 0 <= i < |log.records| ==> log.records[i].passed && log.records[i].complete)
  }

  /** What holds of every run, whatever the cells and identifiers. */
  ghost predicate Consistent(log: Log) {
    && Numbered(log)
    && IdentitiesDiffer(log)
    && StatusesFollowIssues(log)
    && UniqueRows(log.indices)
    && SemanticTotal(log.records) == |log.indices|
  }

  /** Every record is explained by its kept values. */
  ghost predicate Explained(log: Log) {
    Numbered(log) && forall i :: 0 <= i < |log.records| ==> WroteRecord(log, i)
  }

  function SemanticTotal(records: seq<Record>): nat {
    if records == [] then 0 else SemanticTotal(records[..|records| - 1]) + |records[|records| - 1].semantic.keys|
  }

  // ----- one record keeps it -----

  lemma IssuesOfMembers(id: nat, missing: nat, v: Verdict, rejected: nat)
    ensures forall q :: q in IssuesOf(id, missing, v, rejected) ==> q.recordId == id
    ensures IssuesOf(id, missing, v, rejected) == [] <==> missing == 0 && (v.NoPolicy? || v.Accepted?) && rejected == 0
  {
  }

  lemma NewRowsKeepOld(log: Log, more: seq<IndexValue>, i: nat)
    requires i < |log.records| && forall j :: 0 <= j < |more| ==> more[j].recordId == |log.records|
    ensures RowsOf(log.indices + more, i) == RowsOf(log.indices, i)
  {
    RowsOfAppend(log.indices, more, i);
    RowsOfNone(more, i);
  }

  lemma NewRowsAreTheRecords(log: Log, kept: seq<KeptValue>, base: nat)
    requires Numbered(log)
    ensures RowsOf(log.indices + IndexRows(kept, base, |log.records|), |log.records|) == IndexRows(kept, base, |log.records|)
  {
    hide RowsOf, IndexRow;
    var id, more := |log.records|, IndexRows(kept, base, |log.records|);
    assert forall i :: 0 <= i < |more| ==> more[i].recordId == id by {
      RowsCarryId(kept, base, id);
    }
    RowsOfAppend(log.indices, more, id);
    RowsOfNone(log.indices, id);
    RowsOfAll(more, id);
  }

  lemma RowsCarryId(kept: seq<KeptValue>, base: nat, id: nat)
    ensures forall i :: 0 <= i < |kept| ==> IndexRows(kept, base, id)[i].recordId == id
  {
  }

  lemma OldRecordsStay(log: Log, sha: string, s: Section, input: Input, p: Projection, i: nat)
    requires Numbered(log) && i < |log.records| && WroteRecord(log, i)
    ensures |Written(log, sha, s, input, p).records| == |Written(log, sha, s, input, p).origins|
    ensures WroteRecord(Written(log, sha, s, input, p), i)
  {
    hide SemanticFrom, Merge, Judge, IssuesOf;
    NewRowsKeepOld(log, IndexRows(p.0, |log.indices|, |log.records|), i);
  }

  lemma NewRecordShape(log: Log, sha: string, s: Section, input: Input, p: Projection)
    requires Numbered(log)
    ensures var after, id, base := Written(log, sha, s, input, p), |log.records|, |log.indices|;
            && |after.records| == |after.origins| == id + 1 && |after.lineages| == base + |p.0|
            && (forall i :: 0 <= i < id ==> after.records[i] == log.records[i])
            && after.records[id] == RecordOf(id, sha, s, input, p, Judge(s.owner, input.selected, log.seen))
            && after.origins[id] == Origin(p.0, base, Judge(s.owner, input.selected, log.seen), s.region.grid.at.Values)
            && RowsOf(after.indices, id) == IndexRows(p.0, base, id)
            && LineagesWritten(after.lineages, p.0, base, sha, s.sheetId)
  {
    hide RecordOf, Judge, IssuesOf, RowsOf, LineageRow;
    NewRowsAreTheRecords(log, p.0, |log.indices|);
  }

  lemma NewRecordIsWritten(log: Log, sha: string, fields: FieldTypes, s: Section, input: Input)
    requires Numbered(log)
    requires Project(fields, input.selected, |input.selected|).Success?
    requires UniqueIds(s.region.grid.at.Values) && Sound(input, s.region.grid.at.Values)
    ensures var after := Written(log, sha, s, input, Project(fields, input.selected, |input.selected|).value);
            |after.records| == |after.origins| == |log.records| + 1 && WroteRecord(after, |log.records|)
  {
    var p := Project(fields, input.selected, |input.selected|).value;
    NewRecordShape(log, sha, s, input, p);
    NewRecordShows(fields, s, input);
    ProjectKeeps(fields, input.selected, |input.selected|);
    hide SemanticFrom, Merge, Judge, Project, ValuesShown, ShowsCellsOf, RowsOf, Written, IndexRows, LineagesWritten,
      Sound, KeptFrom, DistinctKeys, UniqueIds;
  }

  /** The new record's columns show every kept cell. */
  lemma NewRecordShows(fields: FieldTypes, s: Section, input: Input)
    requires Project(fields, input.selected, |input.selected|).Success?
    requires UniqueIds(s.region.grid.at.Values) && Sound(input, s.region.grid.at.Values)
    ensures var kept, cells := Project(fields, input.selected, |input.selected|).value.0, s.region.grid.at.Values;
            var columns := Merge(input.columns, input.selected, |input.selected|).0;
            columns.Valid() && ShowsCellsOf(columns, cells) && ValuesShown(columns, kept, cells)
  {
    var kept, cells := Project(fields, input.selected, |input.selected|).value.0, s.region.grid.at.Values;
    var columns := Merge(input.columns, input.selected, |input.selected|).0;
    ProjectKeeps(fields, input.selected, |input.selected|);
    MergeShowsEverySelectedCell(input.columns, input.selected, cells);
    hide Project, Merge, Mergeable, Visible, ShowsCellsOf, UniqueIds, Justified, IsPresent;
    forall j | 0 <= j < |kept|
      ensures Justified(kept[j]) && kept[j].cell in cells && Visible(columns, kept[j].cell)
    {
      assert KeptFrom(kept[j], input.selected, |input.selected|);
      var k :| 0 <= k < |input.selected| && input.selected[k] == (kept[j].mapping, kept[j].cell);
    }
  }

  lemma RecordsStayWritten(log: Log, sha: string, fields: FieldTypes, s: Section, input: Input)
    requires Numbered(log) && forall i :: 0 <= i < |log.records| ==> WroteRecord(log, i)
    requires Project(fields, input.selected, |input.selected|).Success?
    requires UniqueIds(s.region.grid.at.Values) && Sound(input, s.region.grid.at.Values)
    ensures var after := Written(log, sha, s, input, Project(fields, input.selected, |input.selected|).value);
            && Numbered(after)
            && forall i :: 0 <= i < |after.records| ==> WroteRecord(after, i)
  {
    hide WroteRecord, Written, Project, UniqueIds, Sound, Numbered;
    var p := Project(fields, input.selected, |input.selected|).value;
    NewRecordIsWritten(log, sha, fields, s, input);
    NumberedStays(log, sha, s, input, p);
    OldRecordsAllStay(log, sha, s, input, p);
  }

  lemma OldRecordsAllStay(log: Log, sha: string, s: Section, input: Input, p: Projection)
    requires Numbered(log) && forall i :: 0 <= i < |log.records| ==> WroteRecord(log, i)
    ensures var after := Written(log, sha, s, input, p);
            |after.records| == |after.origins| == |log.records| + 1 &&
            forall i :: 0 <= i < |log.records| ==> WroteRecord(after, i)
  {
    var after := Written(log, sha, s, input, p);
    assert |after.records| == |after.origins| == |log.records| + 1;
    hide WroteRecord, Written;
    forall i | 0 <= i < |log.records| ensures WroteRecord(after, i) {
      OldRecordsStay(log, sha, s, input, p, i);
    }
  }

  lemma NumberedStays(log: Log, sha: string, s: Section, input: Input, p: Projection)
    requires Numbered(log)
    ensures Numbered(Written(log, sha, s, input, p))
  {
    var id, base := |log.records|, |log.indices|;
    IssuesOfMembers(id, |input.missing|, Judge(s.owner, input.selected, log.seen), p.1);
    RowsCarryId(p.0, base, id);
    assert forall j :: 0 <= j < |p.0| ==> LineageRows(p.0, base, sha, s.sheetId)[j].indexId == base + j;
    hide SemanticFrom, Merge, Judge, IssuesOf, IndexRows, LineageRows, RecordOf;
    assert |IndexRows(p.0, base, id)| == |LineageRows(p.0, base, sha, s.sheetId)| == |p.0|;
  }

  lemma IdentitiesStay(log: Log, sha: string, s: Section, input: Input, p: Projection)
    requires IdentitiesDiffer(log)
    ensures IdentitiesDiffer(Written(log, sha, s, input, p))
  {
    hide IdentityOf, IssuesOf, IndexRows, LineageRows, RecordOf;
    var after := Written(log, sha, s, input, p);
    forall o | o in after.origins && o.verdict.Accepted? ensures o.verdict.identity in after.seen {
      assert o in log.origins || o == after.origins[|log.origins|];
    }
    forall i, j | 0 <= i < j < |after.origins| && after.origins[i].verdict.Accepted? && after.origins[j].verdict.Accepted?
      ensures after.origins[i].verdict.identity != after.origins[j].verdict.identity
    {
      if j == |log.origins| {
        assert log.origins[i] in log.origins;
      }
    }
  }

  lemma StatusesStay(log: Log, sha: string, s: Section, input: Input, p: Projection)
    requires Numbered(log) && StatusesFollowIssues(log)
    ensures |Written(log, sha, s, input, p).origins| == |Written(log, sha, s, input, p).records|
    ensures StatusesFollowIssues(Written(log, sha, s, input, p))
  {
    var id, v := |log.records|, Judge(s.owner, input.selected, log.seen);
    var after, more := Written(log, sha, s, input, p), IssuesOf(|log.records|, |input.missing|, v, p.1);
    IssuesOfMembers(id, |input.missing|, v, p.1);
    hide SemanticFrom, Merge, Judge, IssuesOf, IndexRows, LineageRows;
    forall i | 0 <= i < |after.records|
      ensures HasIssue(after, i) <==> if i < id then HasIssue(log, i) else more != []
    {
      IssueSplit(log, after, more, i);
    }
    assert after.records[id].passed <==> more == [];
    assert forall i :: 0 <= i < id ==> after.records[i] == log.records[i];
    assert after.issues == [] <==> log.issues == [] && more == [];
    assert !after.records[id].complete ==> !input.complete || p.1 > 0;
  }

  lemma IssueSplit(log: Log, after: Log, more: seq<QualityIssue>, i: nat)
    requires after.issues == log.issues + more && i <= |log.records|
    requires forall q :: q in log.issues ==> q.recordId < |log.records|
    requires forall q :: q in more ==> q.recordId == |log.records|
    ensures HasIssue(after, i) <==> if i < |log.records| then HasIssue(log, i) else more != []
  {
    if i == |log.records| && more != [] {
      assert more[0] in after.issues;
    }
  }

  lemma RowsStayUnique(log: Log, kept: seq<KeptValue>)
    requires Numbered(log) && UniqueRows(log.indices) && DistinctKeys(kept)
    ensures UniqueRows(log.indices + IndexRows(kept, |log.indices|, |log.records|))
  {
    var rows := log.indices + IndexRows(kept, |log.indices|, |log.records|);
    forall i, j | 0 <= i < j < |rows|
      ensures rows[i].recordId != rows[j].recordId || rows[i].fieldCode != rows[j].fieldCode || rows[i].role != rows[j].role
    {
      if i >= |log.indices| {
        assert KeyOf(kept[i - |log.indices|].mapping) != KeyOf(kept[j - |log.indices|].mapping);
      }
    }
  }

  lemma WrittenIsConsistent(log: Log, sha: string, fields: FieldTypes, s: Section, input: Input)
    requires Consistent(log) && Append(log, sha, fields, s, input).Success?
    ensures Consistent(Append(log, sha, fields, s, input).value)
  {
    var p := Project(fields, input.selected, |input.selected|).value;
    NumberedStays(log, sha, s, input, p);
    IdentitiesStay(log, sha, s, input, p);
    StatusesStay(log, sha, s, input, p);
    ProjectKeeps(fields, input.selected, |input.selected|);
    RowsStayUnique(log, p.0);
    SemanticOrder(p.0);
    var after := Written(log, sha, s, input, p);
    assert after.records[..|after.records| - 1] == log.records;
    hide Project, SemanticFrom, IndexRow, Merge, Judge, IssuesOf, StatusesFollowIssues, IdentitiesDiffer, UniqueRows, Numbered, LineageRows;
  }

  lemma WrittenIsExplained(log: Log, sha: string, fields: FieldTypes, s: Section, input: Input)
    requires Explained(log) && Append(log, sha, fields, s, input).Success?
    requires UniqueIds(s.region.grid.at.Values) && Sound(input, s.region.grid.at.Values)
    ensures Explained(Append(log, sha, fields, s, input).value)
  {
    hide WroteRecord, Written, Project, UniqueIds, Sound, Numbered;
    RecordsStayWritten(log, sha, fields, s, input);
  }

  // ----- every run keeps it -----

  lemma {:induction false} AppendAllIsConsistent(log: Log, sha: string, fields: FieldTypes, s: Section, inputs: seq<Input>)
    requires Consistent(log) && AppendAll(log, sha, fields, s, inputs).Success?
    ensures Consistent(AppendAll(log, sha, fields, s, inputs).value)
  {
    hide Consistent, Append;
    if inputs != [] {
      var init := inputs[..|inputs| - 1];
      AppendAllIsConsistent(log, sha, fields, s, init);
      WrittenIsConsistent(AppendAll(log, sha, fields, s, init).value, sha, fields, s, inputs[|inputs| - 1]);
    }
  }

  lemma {:induction false} AppendAllIsExplained(log: Log, sha: string, fields: FieldTypes, s: Section, inputs: seq<Input>)
    requires Explained(log) && AppendAll(log, sha, fields, s, inputs).Success?
    requires UniqueIds(s.region.grid.at.Values) && forall i :: 0 <= i < |inputs| ==> Sound(inputs[i], s.region.grid.at.Values)
    ensures Explained(AppendAll(log, sha, fields, s, inputs).value)
  {
    hide Explained, Sound, Append;
    if inputs != [] {
      var init := inputs[..|inputs| - 1];
      AppendAllIsExplained(log, sha, fields, s, init);
      WrittenIsExplained(AppendAll(log, sha, fields, s, init).value, sha, fields, s, inputs[|inputs| - 1]);
    }
  }

  ghost predicate Dictionaries(sections: seq<Section>) {
    forall s :: s in sections ==> s.region.grid.Valid()
  }

  /** Cell identifiers are unique per sheet and no column identifier has the made-up shape. */
  ghost predicate PlainSections(sections: seq<Section>) {
    forall s :: s in sections ==> ValidGrid(s.region.grid) && PlainIds(s.region)
  }

  lemma {:induction false} RunIsConsistent(sha: string, fields: FieldTypes, sections: seq<Section>)
    requires Dictionaries(sections) && Run(sha, fields, sections).Success?
    ensures Consistent(Run(sha, fields, sections).value)
  {
    if sections != [] {
      var s := sections[|sections| - 1];
      RunIsConsistent(sha, fields, sections[..|sections| - 1]);
      hide Consistent, Append, Inputs;
      if s.materialize {
        AppendAllIsConsistent(Run(sha, fields, sections[..|sections| - 1]).value, sha, fields, s, Inputs(SectionMode(s), s.region).value);
      }
    }
  }

  lemma {:induction false} RunIsExplained(sha: string, fields: FieldTypes, sections: seq<Section>)
    requires PlainSections(sections) && Run(sha, fields, sections).Success?
    ensures Explained(Run(sha, fields, sections).value)
  {
    if sections != [] {
      var s := sections[|sections| - 1];
      RunIsExplained(sha, fields, sections[..|sections| - 1]);
      hide Explained, Sound, Append, Inputs;
      if s.materialize {
        CollectedInputsAreSound(SectionMode(s), s.region);
        AppendAllIsExplained(Run(sha, fields, sections[..|sections| - 1]).value, sha, fields, s, Inputs(SectionMode(s), s.region).value);
      }
    }
  }

  // ----- the results -----

  function LineageIds(lineages: seq<Lineage>): seq<nat> {
    seq(|lineages|, i requires 0 <= i < |lineages| => lineages[i].indexId)
  }

  /** The lineage rows by index row, as the report builder reads them. */
  function LineagesById(lineages: seq<Lineage>): map<nat, Lineage> {
    Collect(LineageIds(lineages), lineages)
  }

  lemma LineageLookup(log: Log)
    requires Numbered(log)
    ensures forall j :: 0 <= j < |log.lineages| ==>
              j in LineagesById(log.lineages) && LineagesById(log.lineages)[j] == log.lineages[j]
  {
    hide Collect;
    var ids := LineageIds(log.lineages);
    CollectValues(ids, log.lineages);
    forall j | 0 <= j < |log.lineages|
      ensures j in LineagesById(log.lineages) && LineagesById(log.lineages)[j] == log.lineages[j]
    {
      assert ids[j] == j;
    }
  }

  /** What the auditor reads of a record: it and its index rows as they come back, and the lineage rows. */
  ghost predicate PassesAudit(log: Log, i: nat, zone: Zone)
    requires i < |log.records| && log.records[i].rawColumns.Valid() && log.records[i].semantic.Valid()
  {
    Clean(ReadRecord(log.records[i]), ReadRows(zone, RowsOf(log.indices, i)), LineagesById(log.lineages))
  }

  /**
   * Every record an execution writes, in every layout, passes the audit exactly when none of its kept
   * mappings uses the role `$value`, none of its kept datetimes lacks an offset, and every kept cell's raw
   * data return equal values.
   */
  lemma EveryRecordPassesAudit(sha: string, fields: FieldTypes, sections: seq<Section>, i: nat, zone: Zone)
    requires PlainSections(sections) && Run(sha, fields, sections).Success? && Keeps(zone)
    requires i < |Run(sha, fields, sections).value.records|
    ensures var log := Run(sha, fields, sections).value;
            && log.records[i].rawColumns.Valid() && log.records[i].semantic.Valid() && i < |log.origins|
            && (PassesAudit(log, i, zone) <==> NoDollarRole(log.origins[i].kept) && AllReadBack(log.origins[i].kept))
  {
    RunIsExplained(sha, fields, sections);
    RecordIsEmitted(Run(sha, fields, sections).value, i);
    hide SemanticFrom, Clean, NoDollarRole, AllReadBack, ReadRows, RowsOf, LineagesById, Run, Emitted, WroteRecord, StatusesFollowIssues, IdentitiesDiffer, Keeps;
    var log := Run(sha, fields, sections).value;
    EmittedRecordPassesAudit(log.records[i], log.origins[i].kept, log.origins[i].base, RowsOf(log.indices, i),
                             LineagesById(log.lineages), log.origins[i].cells, zone);
  }

  lemma RecordIsEmitted(log: Log, i: nat)
    requires Numbered(log) && i < |log.records| && WroteRecord(log, i)
    ensures Emitted(log.records[i], log.origins[i].kept, log.origins[i].base, RowsOf(log.indices, i),
                    LineagesById(log.lineages), log.origins[i].cells)
    ensures log.records[i].rawColumns.Valid() && log.records[i].semantic.Valid()
  {
    hide LineagesById, SemanticFrom, RowsOf, Justified, Visible, ShowsCellsOf, UniqueIds, DistinctKeys, IndexRows, LineageRow;
    LineageLookup(log);
  }

  /** The four layers close: as many semantic entries as index rows and lineage rows, and the index rows are unique. */
  lemma LayersClose(sha: string, fields: FieldTypes, sections: seq<Section>)
    requires Dictionaries(sections) && Run(sha, fields, sections).Success?
    ensures var log := Run(sha, fields, sections).value;
            SemanticTotal(log.records) == |log.indices| == |log.lineages| && UniqueRows(log.indices)
  {
    RunIsConsistent(sha, fields, sections);
  }

  /** A record fails exactly when an issue was raised for it. */
  lemma FailedMeansIssue(sha: string, fields: FieldTypes, sections: seq<Section>, i: nat)
    requires Dictionaries(sections) && Run(sha, fields, sections).Success?
    requires i < |Run(sha, fields, sections).value.records|
    ensures var log := Run(sha, fields, sections).value;
            log.records[i].passed <==> !HasIssue(log, i)
  {
    RunIsConsistent(sha, fields, sections);
  }

  /** No two records that pass share a scoped identity. */
  lemma PassedIdentitiesDiffer(sha: string, fields: FieldTypes, sections: seq<Section>, i: nat, j: nat)
    requires Dictionaries(sections) && Run(sha, fields, sections).Success?
    requires i < j < |Run(sha, fields, sections).value.records|
    ensures var log := Run(sha, fields, sections).value;
            && |log.origins| == |log.records|
            && (log.records[i].passed && log.records[j].passed
                  && !log.origins[i].verdict.NoPolicy? && !log.origins[j].verdict.NoPolicy? ==>
                  && log.origins[i].verdict.Accepted? && log.origins[j].verdict.Accepted?
                  && log.origins[i].verdict.identity != log.origins[j].verdict.identity)
  {
    RunIsConsistent(sha, fields, sections);
  }

  /**
   * materialize_plan from its first section to the execution's status: `completed` exactly when every
   * record passed and is completely mapped, and value_count counts all three value layers.
   */
  method Materialize(sha: string, fields: FieldTypes, sections: seq<Section>)
    returns (failure: Option<Abort>, run: ImportRun, completed: bool)
    requires Dictionaries(sections)
    ensures match Run(sha, fields, sections)
            case Failure(e) => failure == Some(e)
            case Success(log) => failure == None && run.Written() == log && run.Counted()
    ensures failure.None? ==>
              && (completed <==> forall i :: 0 <= i < |run.records| ==> run.records[i].passed && run.records[i].complete)
              && run.recordCount == |run.records|
              && run.valueCount == SemanticTotal(run.records) == |run.indices| == |run.lineages|
  {
    hide Run;
    run := new ImportRun(sha, fields);
    failure := run.Execute(sections);
    completed := run.issueCount == 0 && run.incompleteCount == 0;
    if failure.None? {
      RunIsConsistent(sha, fields, sections);
    }
  }
}
