/** What a materialized record consists of: raw columns, semantic entries, index rows, lineage rows. */
module Records {
  import opened Calendar
  import opened Dicts
  import opened Values

  datatype Cell = Cell(id: string, row: int, column: int, coordinate: string, raw: Scalar, display: Scalar)

  /** The evidence a raw column keeps about its cell. */
  datatype SourceCell = SourceCell(id: string, coordinate: string, raw: Scalar, display: Scalar)

  datatype RawColumn = RawColumn(headerPath: seq<string>, sourceCell: SourceCell)

  type RawColumns = Dict<string, RawColumn>

  function Evidence(c: Cell): SourceCell {
    SourceCell(c.id, c.coordinate, c.raw, c.display)
  }

  datatype SemanticEntry = SemanticEntry(
    value: Scalar, display: Scalar, dataType: DataType, fieldVersion: int,
    sourceColumnId: string, sourceCellId: string, coordinate: string, normalizer: string)

  /** Entries by field code and role key. */
  type SemanticFields = Dict<(string, string), SemanticEntry>

  datatype IndexValue = IndexValue(
    id: nat, recordId: nat, fieldCode: string, fieldVersion: int, role: string, dataType: DataType, columns: Columns)

  datatype Lineage = Lineage(
    indexId: nat, sourceSha: string, sheetId: string, sourceCellId: string, coordinate: string,
    raw: Scalar, display: Scalar, normalizer: string)

  datatype Record = Record(
    id: nat, sheetId: string, sourceRow: int, sourceSha: string,
    rawContract: string, rawColumns: RawColumns,
    semanticContract: string, semantic: SemanticFields,
    complete: bool, passed: bool)

  const RAW_CONTRACT := "dataset-record-raw/v1"
  const SEMANTIC_CONTRACT := "dataset-record-semantic/v1"

  /** An index row as a later query reads it. */
  function ReadRow(zone: Zone, v: IndexValue): IndexValue {
    v.(columns := ReadColumns(zone, v.columns))
  }

  function ReadRows(zone: Zone, rows: seq<IndexValue>): (read: seq<IndexValue>)
    ensures |read| == |rows| && forall i :: 0 <= i < |rows| ==> read[i] == ReadRow(zone, rows[i])
  {
    seq(|rows|, i requires 0 <= i < |rows| => ReadRow(zone, rows[i]))
  }

  function ReadCell(c: SourceCell): SourceCell {
    c.(raw := Jsonb(c.raw), display := Jsonb(c.display))
  }

  function ReadRaw(columns: RawColumns): (read: RawColumns)
    ensures columns.Valid() ==> read.Valid()
    ensures read.keys == columns.keys && read.at.Keys == columns.at.Keys
    ensures forall k :: k in columns.at ==> read.at[k] == columns.at[k].(sourceCell := ReadCell(columns.at[k].sourceCell))
  {
    Dict(columns.keys, map k | k in columns.at :: columns.at[k].(sourceCell := ReadCell(columns.at[k].sourceCell)))
  }

  /** A record as a later query reads it; its raw data are jsonb, and no semantic value is a float. */
  function ReadRecord(r: Record): Record {
    r.(rawColumns := ReadRaw(r.rawColumns))
  }

  /** The rows of one record, in insertion order. */
  function RowsOf(indices: seq<IndexValue>, recordId: nat): (rows: seq<IndexValue>)
    ensures forall i :: 0 <= i < |rows| ==> rows[i] in indices && rows[i].recordId == recordId
    ensures forall v :: v in indices && v.recordId == recordId ==> v in rows
  {
    if indices == [] then []
    else
      var init, last := indices[..|indices| - 1], indices[|indices| - 1];
      RowsOf(init, recordId) + (if last.recordId == recordId then [last] else [])
  }

  lemma {:induction false} RowsOfAppend(indices: seq<IndexValue>, more: seq<IndexValue>, recordId: nat)
    ensures RowsOf(indices + more, recordId) == RowsOf(indices, recordId) + RowsOf(more, recordId)
  {
    hide RowsOf;
    if more == [] {
      assert indices + more == indices;
      NoRowsOf(recordId);
    } else {
      var init, last := more[..|more| - 1], more[|more| - 1];
      RowsOfAppend(indices, init, recordId);
      RowsOfLast(init, last, recordId);
      RowsOfLast(indices + init, last, recordId);
      assert indices + more == (indices + init) + [last] && more == init + [last];
      Reassociate(RowsOf(indices, recordId), RowsOf(init, recordId), if last.recordId == recordId then [last] else []);
    }
  }

  lemma NoRowsOf(recordId: nat)
    ensures RowsOf([], recordId) == []
  {
  }

  lemma Reassociate(a: seq<IndexValue>, b: seq<IndexValue>, c: seq<IndexValue>)
    ensures a + (b + c) == a + b + c
  {
  }

  lemma RowsOfLast(init: seq<IndexValue>, last: IndexValue, recordId: nat)
    ensures RowsOf(init + [last], recordId) == RowsOf(init, recordId) + (if last.recordId == recordId then [last] else [])
  {
    assert (init + [last])[..|init|] == init;
  }

  lemma {:induction false} RowsOfAll(rows: seq<IndexValue>, recordId: nat)
    requires forall i :: 0 <= i < |rows| ==> rows[i].recordId == recordId
    ensures RowsOf(rows, recordId) == rows
  {
    hide RowsOf;
    if rows != [] {
      var init, last := rows[..|rows| - 1], rows[|rows| - 1];
      RowsOfAll(init, recordId);
      RowsOfLast(init, last, recordId);
      assert rows == init + [last];
    } else {
      NoRowsOf(recordId);
    }
  }

  lemma {:induction false} RowsOfNone(rows: seq<IndexValue>, recordId: nat)
    requires forall i :: 0 <= i < |rows| ==> rows[i].recordId != recordId
    ensures RowsOf(rows, recordId) == []
  {
    if rows != [] {
      RowsOfNone(rows[..|rows| - 1], recordId);
    }
  }

  /** The database constraint on index rows: one per record, field and role. */
  predicate UniqueRows(rows: seq<IndexValue>) {
    forall i, j :: 0 <= i < j < |rows| ==>
      rows[i].recordId != rows[j].recordId || rows[i].fieldCode != rows[j].fieldCode || rows[i].role != rows[j].role
  }
}
