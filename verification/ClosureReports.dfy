/** The closure totals of the ingestion report over one execution. */
module ClosureReports {
  import opened Calendar
  import opened Dicts
  import opened Values
  import opened Records
  import opened Auditor
  import opened Emission
  import opened ImportRuns
  import opened ImportProperties
  import opened AuditConditions

  /** The totals of a report, and whether any record showed a violation. */
  datatype Totals = Totals(entries: nat, rows: nat, lines: nat, violated: bool)

  /** four_layer_closed */
  predicate Closed(t: Totals) {
    !t.violated && t.entries == t.rows == t.lines
  }

  ghost predicate Readable(log: Log) {
    forall i :: 0 <= i < |log.records| ==> log.records[i].rawColumns.Valid() && log.records[i].semantic.Valid()
  }

  /** The number of entries the auditor reads from a record's semantic projection. */
  function EntryCount(r: Record): nat
    requires r.semantic.Valid()
  {
    |SemanticEntries(SemanticOf(r))|
  }

  function WithLineage(rows: seq<IndexValue>, lineages: map<nat, Lineage>): (n: nat)
    ensures n <= |rows|
  {
    if rows == [] then 0
    else WithLineage(rows[..|rows| - 1], lineages) + if rows[|rows| - 1].id in lineages then 1 else 0
  }

  /** The totals over the first n records. */
  ghost function TotalsOf(log: Log, zone: Zone, n: nat): Totals
    requires Readable(log) && n <= |log.records|
  {
    if n == 0 then Totals(0, 0, 0, false)
    else
      var t, rows := TotalsOf(log, zone, n - 1), ReadRows(zone, RowsOf(log.indices, n - 1));
      Totals(t.entries + EntryCount(log.records[n - 1]), t.rows + |rows|,
             t.lines + WithLineage(rows, LineagesById(log.lineages)),
             t.violated || !Clean(ReadRecord(log.records[n - 1]), rows, LineagesById(log.lineages)))
  }

  method CountWithLineage(rows: seq<IndexValue>, lineages: map<nat, Lineage>) returns (n: nat)
    ensures n == WithLineage(rows, lineages)
  {
    n := 0;
    for i := 0 to |rows|
      invariant n == WithLineage(rows[..i], lineages)
    {
      assert rows[..i + 1][..i] == rows[..i];
      if rows[i].id in lineages {
        n := n + 1;
      }
    }
    assert rows[..|rows|] == rows;
  }

  lemma SemanticStays(r: Record)
    requires r.rawColumns.Valid() && r.semantic.Valid()
    ensures ReadRecord(r).rawColumns.Valid() && ReadRecord(r).semantic.Valid()
    ensures SemanticOf(ReadRecord(r)) == SemanticOf(r)
  {
    hide ReadRaw;
  }

  /** The record loop of build_report. */
  method BuildTotals(log: Log, zone: Zone) returns (t: Totals)
    requires Readable(log)
    ensures t == TotalsOf(log, zone, |log.records|)
  {
    hide Clean, LineagesById, RowsOf, ReadRows, WithLineage, SemanticEntries, SemanticOf, Reported, ReadRecord;
    var lineages := LineagesById(log.lineages);
    t := Totals(0, 0, 0, false);
    for i := 0 to |log.records|
      invariant t == TotalsOf(log, zone, i)
    {
      var rows := ReadRows(zone, RowsOf(log.indices, i));
      SemanticStays(log.records[i]);
      var violations, _, entries := RecordViolations(ReadRecord(log.records[i]), rows, lineages);
      var lines := CountWithLineage(rows, lineages);
      t := Totals(t.entries + entries, t.rows + |rows|, t.lines + lines, t.violated || violations != {});
    }
  }

  // ----- the totals of an execution -----

  lemma {:induction false} KeyCount(keys: seq<Key>)
    requires Distinct(keys)
    ensures |KeySet(keys)| == |keys|
  {
    if keys != [] {
      var n := |keys| - 1;
      KeyCount(keys[..n]);
      assert keys == keys[..n] + [keys[n]];
      assert KeySet(keys) == KeySet(keys[..n]) + {keys[n]};
    }
  }

  /** The auditor reads as many entries from a record as it has kept values. */
  lemma EntriesAreKept(kept: seq<KeptValue>)
    requires DistinctKeys(kept)
    ensures |SemanticEntries(SemanticFrom(kept))| == |kept|
  {
    hide SemanticFrom, SemanticEntries, SemanticKeyList;
    SemanticReadBack(kept);
    SemanticKeysDistinct(kept);
    KeyCount(SemanticKeyList(kept));
    KeyListLength(kept);
    assert |SemanticEntries(SemanticFrom(kept))| == |SemanticEntries(SemanticFrom(kept)).Keys|;
  }

  lemma KeyListLength(kept: seq<KeptValue>)
    ensures |SemanticKeyList(kept)| == |kept|
  {
  }

  lemma {:induction false} AllHaveLineage(rows: seq<IndexValue>, lineages: map<nat, Lineage>)
    requires forall i :: 0 <= i < |rows| ==> rows[i].id in lineages
    ensures WithLineage(rows, lineages) == |rows|
  {
    if rows != [] {
      AllHaveLineage(rows[..|rows| - 1], lineages);
    }
  }

  /** Each record contributes equally many entries, rows and lineage rows. */
  lemma RecordCloses(log: Log, zone: Zone, i: nat)
    requires Explained(log) && i < |log.records|
    ensures log.records[i].semantic.Valid()
    ensures var rows := ReadRows(zone, RowsOf(log.indices, i));
            EntryCount(log.records[i]) == |rows| == WithLineage(rows, LineagesById(log.lineages))
  {
    hide SemanticEntries, SemanticFrom, LineagesById, RowsOf, ReadColumns, WithLineage, ValuesShown;
    assert WroteRecord(log, i);
    EntriesAreKept(log.origins[i].kept);
    LineageLookup(log);
    AllHaveLineage(ReadRows(zone, RowsOf(log.indices, i)), LineagesById(log.lineages));
  }

  lemma {:induction false} TotalsClose(log: Log, zone: Zone, n: nat)
    requires Explained(log) && Readable(log) && n <= |log.records|
    ensures var t := TotalsOf(log, zone, n);
            && t.entries == t.rows == t.lines
            && (!t.violated <==> forall i :: 0 <= i < n ==> PassesAudit(log, i, zone))
  {
    hide Explained, Clean, LineagesById, RowsOf, ReadRows, WithLineage, SemanticEntries, SemanticOf;
    if n > 0 {
      TotalsClose(log, zone, n - 1);
      RecordCloses(log, zone, n - 1);
      var rows := ReadRows(zone, RowsOf(log.indices, n - 1));
      assert PassesAudit(log, n - 1, zone) <==> Clean(ReadRecord(log.records[n - 1]), rows, LineagesById(log.lineages));
    }
  }

  /**
   * The report on an execution is closed, no violation anywhere and equally many semantic entries, index
   * rows and lineage rows, if and only if no cell it selects and keeps is mapped to the role `$value`, is a
   * datetime without an offset, or holds a float that the raw data return as another number.
   */
  lemma FourLayersCloseWhen(sha: string, fields: FieldTypes, sections: seq<Section>, zone: Zone)
    requires PlainSections(sections) && Run(sha, fields, sections).Success? && Keeps(zone)
    ensures var log := Run(sha, fields, sections).value;
            Readable(log) && (Closed(TotalsOf(log, zone, |log.records|)) <==> FineSections(fields, sections))
  {
    hide Run, FineSections, PassesAudit, Keeps, TotalsOf;
    var log := Run(sha, fields, sections).value;
    RunIsExplained(sha, fields, sections);
    forall i | 0 <= i < |log.records| ensures log.records[i].rawColumns.Valid() && log.records[i].semantic.Valid() {
      EveryRecordPassesAudit(sha, fields, sections, i, zone);
    }
    TotalsClose(log, zone, |log.records|);
    AllRecordsPassWhen(sha, fields, sections, zone);
  }
}
