/** The index rows an import leaves are what the query engines take for granted. */
module ImportedRows {
  import opened Wrappers
  import opened Values
  import opened Records
  import opened Emission
  import opened ImportRuns
  import opened ImportProperties
  import opened QueryEngines

  lemma KeptRowIsTyped(k: KeptValue, id: nat, recordId: nat, field: string, dataType: DataType)
    requires Justified(k)
    ensures TypedField([IndexRow(k, id, recordId)], field, dataType)
  {
    hide Normalize, IsSpreadsheetError, Storable;
    if k.value.Some? {
      NormalizeTyped(k.dataType, k.cell.display);
    }
  }

  lemma RecordKeeps(log: Log, i: nat)
    requires Explained(log) && i < |log.records|
    ensures RowsOf(log.indices, i) == IndexRows(log.origins[i].kept, log.origins[i].base, i)
    ensures forall j :: 0 <= j < |log.origins[i].kept| ==> Justified(log.origins[i].kept[j])
  {
    hide RowsOf, SemanticFrom, Justified, IndexRows;
    assert WroteRecord(log, i);
  }

  ghost predicate KeptAs(log: Log, v: IndexValue, i: nat, j: nat)
    requires |log.origins| == |log.records|
  {
    i < |log.records| && j < |log.origins[i].kept| && Justified(log.origins[i].kept[j])
    && v == IndexRow(log.origins[i].kept[j], log.origins[i].base + j, i)
  }

  /** Every index row of an execution belongs to one of its records, as one of that record's kept values. */
  lemma RowIsKept(log: Log, v: IndexValue)
    requires Explained(log) && v in log.indices
    ensures exists i, j :: KeptAs(log, v, i, j)
  {
    hide RowsOf, Justified, IndexRow, WroteRecord;
    var i := v.recordId;
    RecordKeeps(log, i);
    var rows := IndexRows(log.origins[i].kept, log.origins[i].base, i);
    assert v in rows;
    var j: nat :| j < |rows| && rows[j] == v;
    assert KeptAs(log, v, i, j);
  }

  /** In every column of a field an import stores only valid values of the column's type. */
  lemma ImportedFieldIsTyped(sha: string, fields: FieldTypes, sections: seq<Section>, field: string, dataType: DataType)
    requires PlainSections(sections) && Run(sha, fields, sections).Success?
    ensures UniqueRows(Run(sha, fields, sections).value.indices)
    ensures TypedField(Run(sha, fields, sections).value.indices, field, dataType)
  {
    hide Run, IndexRow, Storable, Justified, Column;
    LayersClose(sha, fields, sections);
    RunIsExplained(sha, fields, sections);
    var log := Run(sha, fields, sections).value;
    forall v | v in log.indices && v.fieldCode == field && Column(v.columns, dataType).Some?
      ensures Storable(Column(v.columns, dataType).value) && TypeOf(Column(v.columns, dataType).value) == dataType
    {
      RowIsKept(log, v);
      var i: nat, j: nat :| KeptAs(log, v, i, j);
      KeptRowIsTyped(log.origins[i].kept[j], log.origins[i].base + j, i, field, dataType);
      assert v in [IndexRow(log.origins[i].kept[j], log.origins[i].base + j, i)];
    }
  }
}
