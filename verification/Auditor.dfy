/** The ingestion audit: do the four projections of one record agree? */
module Auditor {
  import opened Dicts
  import opened Values
  import opened Records

  type Key = (string, string)

  datatype Violation =
    | RawContractInvalid
    | SemanticContractInvalid
    | SemanticIndexKeyMismatch
    | SemanticIndexValueMismatch
    | IndexLineageMissing
    | LineageSemanticEvidenceMismatch
    | LineageRawCellMissing
    | LineageRawEvidenceMismatch

  /** The index key a semantic entry stands for. */
  function IndexKey(k: Key): Key {
    (k.0, if k.1 == "$value" then "" else k.1)
  }

  function RawColumnsOf(r: Record): RawColumns {
    if r.rawContract == RAW_CONTRACT then r.rawColumns else Empty()
  }

  function SemanticOf(r: Record): SemanticFields {
    if r.semanticContract == SEMANTIC_CONTRACT then r.semantic else Empty()
  }

  function SemanticKeys(d: SemanticFields): seq<Key> {
    seq(|d.keys|, i requires 0 <= i < |d.keys| => IndexKey(d.keys[i]))
  }

  /** The semantic entries by index key. */
  function SemanticEntries(d: SemanticFields): map<Key, SemanticEntry>
    requires d.Valid()
  {
    Collect(SemanticKeys(d), seq(|d.keys|, i requires 0 <= i < |d.keys| => d.at[d.keys[i]]))
  }

  function RowKey(v: IndexValue): Key {
    (v.fieldCode, v.role)
  }

  function IndexEntries(indices: seq<IndexValue>): map<Key, IndexValue> {
    Collect(seq(|indices|, i requires 0 <= i < |indices| => RowKey(indices[i])), indices)
  }

  function CellIds(d: RawColumns): seq<string>
    requires d.Valid()
  {
    seq(|d.keys|, i requires 0 <= i < |d.keys| => d.at[d.keys[i]].sourceCell.id)
  }

  function CellList(d: RawColumns): seq<SourceCell>
    requires d.Valid()
  {
    seq(|d.keys|, i requires 0 <= i < |d.keys| => d.at[d.keys[i]].sourceCell)
  }

  /** The raw cells by identifier. */
  function RawCells(d: RawColumns): map<string, SourceCell>
    requires d.Valid()
  {
    Collect(CellIds(d), CellList(d))
  }

  /** The violations one index row contributes. */
  function RowViolations(r: Record, index: IndexValue, semantic: SemanticEntry,
                         lineages: map<nat, Lineage>, cells: map<string, SourceCell>): set<Violation>
  {
    (if ValuesEqual(index.dataType, semantic.value, Column(index.columns, index.dataType)) then {} else {SemanticIndexValueMismatch}) +
    (if index.id !in lineages then {IndexLineageMissing} else LineageViolations(r, semantic, lineages[index.id], cells))
  }

  function LineageViolations(r: Record, semantic: SemanticEntry, l: Lineage, cells: map<string, SourceCell>): set<Violation> {
    (if l.sourceSha != r.sourceSha || l.sheetId != r.sheetId || l.sourceCellId != semantic.sourceCellId ||
        l.coordinate != semantic.coordinate
     then {LineageSemanticEvidenceMismatch} else {}) +
    (if l.sourceCellId !in cells then {LineageRawCellMissing}
     else if !SameEvidence(cells[l.sourceCellId], l) then {LineageRawEvidenceMismatch}
     else {})
  }

  predicate SameEvidence(cell: SourceCell, l: Lineage) {
    cell.coordinate == l.coordinate && PyEquals(cell.raw, l.raw) && PyEquals(cell.display, l.display)
  }

  /**
   * The audit accepts a record: both contracts are current, semantic and index rows have the same
   * keys, and under each key the value, its lineage and its raw cell agree.
   */
  ghost predicate Clean(r: Record, indices: seq<IndexValue>, lineages: map<nat, Lineage>)
    requires r.rawColumns.Valid() && r.semantic.Valid()
  {
    var semantic := SemanticEntries(SemanticOf(r));
    var index := IndexEntries(indices);
    var cells := RawCells(RawColumnsOf(r));
    && r.rawContract == RAW_CONTRACT && r.semanticContract == SEMANTIC_CONTRACT
    && semantic.Keys == index.Keys
    && (forall k :: k in index && k in semantic ==> RowViolations(r, index[k], semantic[k], lineages, cells) == {})
  }

  /** What is reported of a record: which contract is stale, whether the keys differ, and what any row shows. */
  ghost predicate Reported(v: Violation, r: Record, indices: seq<IndexValue>, lineages: map<nat, Lineage>)
    requires r.rawColumns.Valid() && r.semantic.Valid()
  {
    var semantic := SemanticEntries(SemanticOf(r));
    var index := IndexEntries(indices);
    || (v.RawContractInvalid? && r.rawContract != RAW_CONTRACT)
    || (v.SemanticContractInvalid? && r.semanticContract != SEMANTIC_CONTRACT)
    || (v.SemanticIndexKeyMismatch? && semantic.Keys != index.Keys)
    || RowReports(v, r, index, semantic, lineages, RawCells(RawColumnsOf(r)))
  }

  predicate RowReports(v: Violation, r: Record, index: map<Key, IndexValue>, semantic: map<Key, SemanticEntry>,
                       lineages: map<nat, Lineage>, cells: map<string, SourceCell>)
  {
    exists k :: k in index && k in semantic && v in RowViolations(r, index[k], semantic[k], lineages, cells)
  }

  method ContractViolations(r: Record) returns (violations: set<Violation>)
    ensures violations == (if r.rawContract != RAW_CONTRACT then {RawContractInvalid} else {})
                          + (if r.semanticContract != SEMANTIC_CONTRACT then {SemanticContractInvalid} else {})
  {
    violations := {};
    if r.rawContract != RAW_CONTRACT {
      violations := violations + {RawContractInvalid};
    }
    if r.semanticContract != SEMANTIC_CONTRACT {
      violations := violations + {SemanticContractInvalid};
    }
  }

  /** _record_violations: exactly what there is to report, which is nothing exactly for the clean records. */
  method RecordViolations(r: Record, indices: seq<IndexValue>, lineages: map<nat, Lineage>)
    returns (violations: set<Violation>, rawCount: nat, semanticCount: nat)
    requires r.rawColumns.Valid() && r.semantic.Valid()
    ensures forall v :: v in violations <==> Reported(v, r, indices, lineages)
    ensures violations == {} <==> Clean(r, indices, lineages)
    ensures rawCount == |RawColumnsOf(r).keys|
    ensures semanticCount == |SemanticEntries(SemanticOf(r))|
  {
    hide RowViolations, ValuesEqual, SemanticEntries, IndexEntries, RawCells, RowReports, Clean, Reported;
    violations := ContractViolations(r);
    var columns, fields := RawColumnsOf(r), SemanticOf(r);
    var semantic := ReadSemantic(fields);
    var index := ReadIndex(indices);
    if semantic.Keys != index.Keys {
      violations := violations + {SemanticIndexKeyMismatch};
    }
    var cells := ReadCells(columns);
    var reported := CheckRows(r, index, semantic, lineages, cells);
    ghost var early := violations;
    violations := violations + reported;
    ReportIsComplete(r, indices, lineages, early, reported);
    rawCount, semanticCount := |columns.keys|, |semantic|;
  }

  /** The early violations and those of the rows are all there is to report, and none exactly of a clean record. */
  lemma ReportIsComplete(r: Record, indices: seq<IndexValue>, lineages: map<nat, Lineage>, early: set<Violation>, reported: set<Violation>)
    requires r.rawColumns.Valid() && r.semantic.Valid()
    requires var semantic, index := SemanticEntries(SemanticOf(r)), IndexEntries(indices);
             && early == (if r.rawContract != RAW_CONTRACT then {RawContractInvalid} else {})
                         + (if r.semanticContract != SEMANTIC_CONTRACT then {SemanticContractInvalid} else {})
                         + (if semantic.Keys != index.Keys then {SemanticIndexKeyMismatch} else {})
             && forall v :: v in reported <==> RowReports(v, r, index, semantic, lineages, RawCells(RawColumnsOf(r)))
    ensures forall v :: v in early + reported <==> Reported(v, r, indices, lineages)
    ensures early + reported == {} <==> Clean(r, indices, lineages)
  {
    hide SemanticEntries, IndexEntries, RawCells, RowViolations, RowReports;
    NothingReported(reported, r, IndexEntries(indices), SemanticEntries(SemanticOf(r)), lineages, RawCells(RawColumnsOf(r)));
    assert early + reported == {} <==> early == {} && reported == {};
  }

  lemma NothingReported(reported: set<Violation>, r: Record, index: map<Key, IndexValue>, semantic: map<Key, SemanticEntry>,
                        lineages: map<nat, Lineage>, cells: map<string, SourceCell>)
    requires forall v :: v in reported <==> RowReports(v, r, index, semantic, lineages, cells)
    ensures reported == {} <==>
              forall k :: k in index && k in semantic ==> RowViolations(r, index[k], semantic[k], lineages, cells) == {}
  {
    hide RowViolations;
    if reported == {} {
      forall k | k in index && k in semantic ensures RowViolations(r, index[k], semantic[k], lineages, cells) == {} {
        forall v ensures v !in RowViolations(r, index[k], semantic[k], lineages, cells) {
          assert v !in reported;
        }
      }
    }
  }

  method ReadSemantic(fields: SemanticFields) returns (entries: map<Key, SemanticEntry>)
    requires fields.Valid()
    ensures entries == SemanticEntries(fields)
  {
    ghost var keys := SemanticKeys(fields);
    ghost var values := seq(|fields.keys|, i requires 0 <= i < |fields.keys| => fields.at[fields.keys[i]]);
    entries := map[];
    for i := 0 to |fields.keys|
      invariant entries == Collect(keys[..i], values[..i])
    {
      assert keys[..i + 1][..i] == keys[..i] && values[..i + 1][..i] == values[..i];
      entries := entries[IndexKey(fields.keys[i]) := fields.at[fields.keys[i]]];
    }
    assert keys[..|keys|] == keys && values[..|keys|] == values;
  }

  method ReadIndex(indices: seq<IndexValue>) returns (entries: map<Key, IndexValue>)
    ensures entries == IndexEntries(indices)
  {
    ghost var keys := seq(|indices|, i requires 0 <= i < |indices| => RowKey(indices[i]));
    entries := map[];
    for i := 0 to |indices|
      invariant entries == Collect(keys[..i], indices[..i])
    {
      assert keys[..i + 1][..i] == keys[..i] && indices[..i + 1][..i] == indices[..i];
      entries := entries[(indices[i].fieldCode, indices[i].role) := indices[i]];
    }
    assert keys[..|keys|] == keys && indices[..|indices|] == indices;
  }

  method ReadCells(columns: RawColumns) returns (cells: map<string, SourceCell>)
    requires columns.Valid()
    ensures cells == RawCells(columns)
  {
    ghost var ids, values := CellIds(columns), CellList(columns);
    cells := map[];
    for i := 0 to |columns.keys|
      invariant cells == Collect(ids[..i], values[..i])
    {
      assert ids[..i + 1][..i] == ids[..i] && values[..i + 1][..i] == values[..i];
      var cell := columns.at[columns.keys[i]].sourceCell;
      cells := cells[cell.id := cell];
    }
    assert ids[..|ids|] == ids && values[..|ids|] == values;
  }

  /** The loop over the index rows. */
  method CheckRows(r: Record, index: map<Key, IndexValue>, semantic: map<Key, SemanticEntry>,
                   lineages: map<nat, Lineage>, cells: map<string, SourceCell>)
    returns (violations: set<Violation>)
    ensures forall v :: v in violations <==> RowReports(v, r, index, semantic, lineages, cells)
  {
    hide RowViolations;
    violations := {};
    var todo := index.Keys;
    while todo != {}
      invariant todo <= index.Keys
      invariant forall v :: v in violations <==>
                  exists k :: k in index && k !in todo && k in semantic && v in RowViolations(r, index[k], semantic[k], lineages, cells)
      decreases |todo|
    {
      var key :| key in todo;
      if key in semantic {
        violations := violations + RowViolations(r, index[key], semantic[key], lineages, cells);
      }
      todo := todo - {key};
    }
  }
}
