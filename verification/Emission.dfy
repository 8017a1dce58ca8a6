/** The four projections of one record, and why the audit accepts them. */
module Emission {
  import opened Wrappers
  import opened Text
  import opened Calendar
  import opened Dicts
  import opened Values
  import opened Records
  import opened RawEvidence
  import opened Layouts
  import opened Auditor

  const ERROR_NORMALIZER := "source-spreadsheet-error/v1"

  const SPREADSHEET_ERRORS: set<string> :=
    {"#null!", "#div/0!", "#value!", "#ref!", "#name?", "#num!", "#n/a", "#getting_data"}

  predicate IsSpreadsheetError(v: Scalar) {
    v.Str? && Lower(Strip(v.text)) in SPREADSHEET_ERRORS
  }

  /** What becomes of one selected cell. */
  datatype Outcome = Kept(normalizer: string, value: Option<Typed>) | Issue | Fatal(abort: Abort)

  /** The integer column has 32 bits; the database refuses a row with a wider value. */
  predicate FitsColumn(v: Typed) {
    v.TInteger? ==> -0x8000_0000 <= v.number < 0x8000_0000
  }

  function CellOutcome(dataType: DataType, display: Scalar): Outcome {
    match Normalize(dataType, display)
    case Normal(normalizer, value) =>
      if value.Some? && !FitsColumn(value.value) then Fatal(ColumnOverflow) else Kept(normalizer, value)
    case Rejected => if IsSpreadsheetError(display) then Kept(ERROR_NORMALIZER, None) else Issue
    case Overflow => Fatal(OverflowEscaped)
  }

  datatype KeptValue = KeptValue(mapping: Mapping, cell: Cell, dataType: DataType, normalizer: string, value: Option<Typed>)

  type FieldTypes = map<(string, int), DataType>

  function RoleKey(role: string): string {
    if role == "" then "$value" else role
  }

  function KeyOf(m: Mapping): Key {
    (m.fieldCode, RoleKey(m.role))
  }

  function JsonOption(v: Option<Typed>): Scalar {
    if v.Some? then JsonValue(v.value) else Null
  }

  function EntryOf(k: KeptValue): SemanticEntry {
    SemanticEntry(JsonOption(k.value), k.cell.display, k.dataType, k.mapping.fieldVersion,
                  k.mapping.sourceColumnId, k.cell.id, k.cell.coordinate, k.normalizer)
  }

  function IndexRow(k: KeptValue, id: nat, recordId: nat): IndexValue {
    IndexValue(id, recordId, k.mapping.fieldCode, k.mapping.fieldVersion, k.mapping.role, k.dataType,
               TypedColumns(k.dataType, k.value))
  }

  function LineageRow(k: KeptValue, indexId: nat, sourceSha: string, sheetId: string): Lineage {
    Lineage(indexId, sourceSha, sheetId, k.cell.id, k.cell.coordinate, k.cell.raw, k.cell.display, k.normalizer)
  }

  function SemanticFrom(kept: seq<KeptValue>): (d: SemanticFields)
    ensures d.Valid()
  {
    if kept == [] then Empty()
    else
      var last := kept[|kept| - 1];
      Put(SemanticFrom(kept[..|kept| - 1]), KeyOf(last.mapping), EntryOf(last))
  }

  function IndexRows(kept: seq<KeptValue>, base: nat, recordId: nat): seq<IndexValue> {
    seq(|kept|, i requires 0 <= i < |kept| => IndexRow(kept[i], base + i, recordId))
  }

  function LineageRows(kept: seq<KeptValue>, base: nat, sourceSha: string, sheetId: string): seq<Lineage> {
    seq(|kept|, i requires 0 <= i < |kept| => LineageRow(kept[i], base + i, sourceSha, sheetId))
  }

  type Projection = (seq<KeptValue>, nat)

  /** One selected cell: kept, counted as rejected, or the end of the whole run. */
  function ProjectOne(fields: FieldTypes, s: Selection, p: Projection): Result<Projection, Abort> {
    var (mapping, cell) := s;
    var field := (mapping.fieldCode, mapping.fieldVersion);
    if field !in fields then Failure(MaterializationFailed)
    else
      match CellOutcome(fields[field], cell.display)
      case Fatal(e) => Failure(e)
      case Issue => Success((p.0, p.1 + 1))
      case Kept(normalizer, value) =>
        if KeyOf(mapping) in SemanticFrom(p.0).at then Failure(MaterializationFailed)
        else Success((p.0 + [KeptValue(mapping, cell, fields[field], normalizer, value)], p.1))
  }

  /** The kept values of the first n selected cells and the number of rejected ones. */
  function Project(fields: FieldTypes, selected: seq<Selection>, n: nat): Result<Projection, Abort>
    requires n <= |selected|
  {
    if n == 0 then Success(([], 0))
    else
      match Project(fields, selected, n - 1)
      case Failure(e) => Failure(e)
      case Success(p) => ProjectOne(fields, selected[n - 1], p)
  }

  // ----- facts about the kept values -----

  ghost predicate Justified(k: KeptValue) {
    CellOutcome(k.dataType, k.cell.display) == Kept(k.normalizer, k.value)
  }

  ghost predicate DistinctKeys(kept: seq<KeptValue>) {
    forall i, j :: 0 <= i < j < |kept| ==> KeyOf(kept[i].mapping) != KeyOf(kept[j].mapping)
  }

  lemma {:induction false} SemanticKeysOf(kept: seq<KeptValue>)
    ensures forall k :: k in SemanticFrom(kept).at <==> exists i :: 0 <= i < |kept| && KeyOf(kept[i].mapping) == k
  {
    hide EntryOf, KeyOf;
    if kept != [] {
      var init, last := kept[..|kept| - 1], kept[|kept| - 1];
      SemanticKeysOf(init);
      assert SemanticFrom(kept).at.Keys == SemanticFrom(init).at.Keys + {KeyOf(last.mapping)};
      forall k | k in SemanticFrom(init).at
        ensures exists i :: 0 <= i < |kept| && KeyOf(kept[i].mapping) == k
      {
        var i :| 0 <= i < |init| && KeyOf(init[i].mapping) == k;
        assert kept[i] == init[i];
      }
      forall i | 0 <= i < |kept| ensures KeyOf(kept[i].mapping) in SemanticFrom(kept).at {
        if i < |init| {
          assert kept[i] == init[i];
        }
      }
    }
  }

  ghost predicate KeptFrom(k: KeptValue, selected: seq<Selection>, n: nat)
    requires n <= |selected|
  {
    Justified(k) && exists j :: 0 <= j < n && selected[j] == (k.mapping, k.cell)
  }

  lemma ProjectOneKeeps(fields: FieldTypes, selected: seq<Selection>, n: nat, p: Projection)
    requires n < |selected| && ProjectOne(fields, selected[n], p).Success?
    requires DistinctKeys(p.0) && forall i :: 0 <= i < |p.0| ==> KeptFrom(p.0[i], selected, n)
    ensures var q := ProjectOne(fields, selected[n], p).value;
            DistinctKeys(q.0) && forall i :: 0 <= i < |q.0| ==> KeptFrom(q.0[i], selected, n + 1)
  {
    hide CellOutcome, SemanticFrom;
    var q := ProjectOne(fields, selected[n], p).value;
    SemanticKeysOf(p.0);
    forall i | 0 <= i < |q.0| ensures KeptFrom(q.0[i], selected, n + 1) {
      if i < |p.0| {
        assert KeptFrom(p.0[i], selected, n);
      } else {
        assert selected[n] == (q.0[i].mapping, q.0[i].cell);
      }
    }
  }

  /** Projection keeps values of selected cells, one per field and role, each as its normalization says. */
  lemma {:induction false} ProjectKeeps(fields: FieldTypes, selected: seq<Selection>, n: nat)
    requires n <= |selected| && Project(fields, selected, n).Success?
    ensures var kept := Project(fields, selected, n).value.0;
            DistinctKeys(kept) && forall i :: 0 <= i < |kept| ==> KeptFrom(kept[i], selected, n)
  {
    hide ProjectOne;
    if n > 0 {
      ProjectKeeps(fields, selected, n - 1);
      ProjectOneKeeps(fields, selected, n - 1, Project(fields, selected, n - 1).value);
    }
  }

  // ----- the audit of one record -----

  /** With distinct keys the ordered dictionary holds exactly the entries, in order. */
  lemma {:induction false} SemanticOrder(kept: seq<KeptValue>)
    requires DistinctKeys(kept)
    ensures |SemanticFrom(kept).keys| == |kept|
    ensures forall i :: 0 <= i < |kept| ==>
              SemanticFrom(kept).keys[i] == KeyOf(kept[i].mapping) &&
              KeyOf(kept[i].mapping) in SemanticFrom(kept).at && SemanticFrom(kept).at[KeyOf(kept[i].mapping)] == EntryOf(kept[i])
  {
    hide EntryOf, KeyOf;
    if kept != [] {
      var init, last := kept[..|kept| - 1], kept[|kept| - 1];
      SemanticOrder(init);
      SemanticKeysOf(init);
      var before := SemanticFrom(init);
      assert KeyOf(last.mapping) !in before.at by {
        hide SemanticFrom;
        assert forall i :: 0 <= i < |init| ==> init[i] == kept[i];
      }
      assert SemanticFrom(kept).keys == before.keys + [KeyOf(last.mapping)];
      hide SemanticFrom;
      forall i | 0 <= i < |kept|
        ensures SemanticFrom(kept).keys[i] == KeyOf(kept[i].mapping)
        ensures KeyOf(kept[i].mapping) in SemanticFrom(kept).at && SemanticFrom(kept).at[KeyOf(kept[i].mapping)] == EntryOf(kept[i])
      {
        if i < |init| {
          assert init[i] == kept[i] && before.keys[i] == KeyOf(init[i].mapping);
        }
      }
    }
  }

  ghost predicate NoDollarRole(kept: seq<KeptValue>) {
    forall i :: 0 <= i < |kept| ==> kept[i].mapping.role != "$value"
  }

  /** The semantic projection is read back with the kept values' keys and entries. */
  lemma SemanticReadBack(kept: seq<KeptValue>)
    requires DistinctKeys(kept)
    ensures SemanticEntries(SemanticFrom(kept)).Keys == KeySet(SemanticKeyList(kept))
    ensures forall i :: 0 <= i < |kept| ==>
              SemanticKeyList(kept)[i] in SemanticEntries(SemanticFrom(kept)) &&
              SemanticEntries(SemanticFrom(kept))[SemanticKeyList(kept)[i]] == EntryOf(kept[i])
  {
    hide EntryOf, SemanticFrom, IndexKey, KeyOf, Collect;
    var d := SemanticFrom(kept);
    SemanticOrder(kept);
    var keys := SemanticKeys(d);
    var values := seq(|d.keys|, i requires 0 <= i < |d.keys| => d.at[d.keys[i]]);
    assert keys == SemanticKeyList(kept);
    SemanticKeysDistinct(kept);
    CollectKeys(keys, values);
    CollectValues(keys, values);
  }

  function KeySet(keys: seq<Key>): set<Key> {
    set k | k in keys
  }

  function SemanticKeyList(kept: seq<KeptValue>): seq<Key> {
    seq(|kept|, i requires 0 <= i < |kept| => IndexKey(KeyOf(kept[i].mapping)))
  }

  function RowKeyList(kept: seq<KeptValue>): seq<Key> {
    seq(|kept|, i requires 0 <= i < |kept| => (kept[i].mapping.fieldCode, kept[i].mapping.role))
  }

  lemma SemanticKeysDistinct(kept: seq<KeptValue>)
    requires DistinctKeys(kept)
    ensures Distinct(SemanticKeyList(kept)) && Distinct(RowKeyList(kept))
  {
    forall i, j | 0 <= i < j < |kept|
      ensures SemanticKeyList(kept)[i] != SemanticKeyList(kept)[j] && RowKeyList(kept)[i] != RowKeyList(kept)[j]
    {
      assert KeyOf(kept[i].mapping) != KeyOf(kept[j].mapping);
    }
  }

  /** The index rows are read back under their field codes and roles. */
  lemma IndexReadBack(kept: seq<KeptValue>, base: nat, recordId: nat, zone: Zone)
    requires DistinctKeys(kept)
    ensures var index := IndexEntries(ReadRows(zone, IndexRows(kept, base, recordId)));
            && index.Keys == KeySet(RowKeyList(kept))
            && forall i :: 0 <= i < |kept| ==>
                 RowKeyList(kept)[i] in index && index[RowKeyList(kept)[i]] == ReadRow(zone, IndexRow(kept[i], base + i, recordId))
  {
    hide Collect, ReadColumns;
    var rows := ReadRows(zone, IndexRows(kept, base, recordId));
    var keys := seq(|rows|, i requires 0 <= i < |rows| => RowKey(rows[i]));
    assert keys == RowKeyList(kept);
    SemanticKeysDistinct(kept);
    CollectKeys(keys, rows);
    CollectValues(keys, rows);
  }

  lemma CellsRead(columns: RawColumns)
    requires columns.Valid()
    ensures forall k :: k in columns.at ==> columns.at[k].sourceCell.id in RawCells(columns)
    ensures forall id :: id in RawCells(columns) ==>
              exists k :: k in columns.at && columns.at[k].sourceCell == RawCells(columns)[id] && RawCells(columns)[id].id == id
  {
    hide CellIds, CellList, RawCells;
    forall k | k in columns.at ensures columns.at[k].sourceCell.id in RawCells(columns) {
      CellIsRead(columns, k);
    }
    forall id | id in RawCells(columns)
      ensures exists k :: k in columns.at && columns.at[k].sourceCell == RawCells(columns)[id] && RawCells(columns)[id].id == id
    {
      var k := ReadFrom(columns, id);
    }
  }

  lemma CellIsRead(columns: RawColumns, k: string)
    requires columns.Valid() && k in columns.at
    ensures columns.at[k].sourceCell.id in RawCells(columns)
  {
    hide Collect;
    CollectKeys(CellIds(columns), CellList(columns));
    assert k in columns.keys;
    var j :| 0 <= j < |columns.keys| && columns.keys[j] == k;
    assert CellIds(columns)[j] in CellIds(columns);
  }

  lemma ReadFrom(columns: RawColumns, id: string) returns (k: string)
    requires columns.Valid() && id in RawCells(columns)
    ensures k in columns.at && columns.at[k].sourceCell == RawCells(columns)[id] && RawCells(columns)[id].id == id
  {
    hide Collect;
    CollectValues(CellIds(columns), CellList(columns));
    var i :| 0 <= i < |columns.keys| && CellIds(columns)[i] == id && RawCells(columns)[id] == CellList(columns)[i];
    k := columns.keys[i];
    assert k in columns.at;
  }

  lemma VisibleCellRead(columns: RawColumns, cells: set<Cell>, cell: Cell)
    requires columns.Valid() && ShowsCellsOf(columns, cells) && UniqueIds(cells)
    requires cell in cells && Visible(columns, cell)
    ensures cell.id in RawCells(ReadRaw(columns)) && RawCells(ReadRaw(columns))[cell.id] == ReadCell(Evidence(cell))
  {
    hide RawCells, Jsonb, ReadRaw;
    var read := ReadRaw(columns);
    CellsRead(read);
    var j :| j in columns.at && columns.at[j].sourceCell == Evidence(cell);
    assert read.at[j].sourceCell.id == cell.id;
    var k :| k in read.at && read.at[k].sourceCell == RawCells(read)[cell.id] && RawCells(read)[cell.id].id == cell.id;
    assert read.at[k].sourceCell.id == columns.at[k].sourceCell.id;
    var c :| c in cells && columns.at[k].sourceCell == Evidence(c);
    assert c == cell;
  }

  /** Nothing, or a value its column returns as it was. */
  predicate ReadsBack(v: Option<Typed>) {
    v.Some? ==> Zoned(v.value)
  }

  /** The raw data return values equal to the cell's, which the lineage row keeps as they were. */
  predicate CellReturns(c: Cell) {
    PyEquals(Jsonb(c.raw), c.raw) && PyEquals(Jsonb(c.display), c.display)
  }

  predicate KeptReadsBack(k: KeptValue) {
    ReadsBack(k.value) && CellReturns(k.cell)
  }

  ghost predicate AllReadBack(kept: seq<KeptValue>) {
    forall i :: 0 <= i < |kept| ==> KeptReadsBack(kept[i])
  }

  /** The two projections of a kept value agree for the auditor exactly if its column returns it as it was. */
  lemma KeptValueAgrees(k: KeptValue, zone: Zone)
    requires Justified(k) && Keeps(zone)
    ensures ValuesEqual(k.dataType, JsonOption(k.value), Column(ReadColumns(zone, TypedColumns(k.dataType, k.value)), k.dataType))
       <==> ReadsBack(k.value)
  {
    hide ValuesEqual, Normalize, IsSpreadsheetError, Keeps;
    if k.value.Some? {
      ProjectionsAgree(k.dataType, k.cell.display, zone);
    } else {
      NothingAgrees(k.dataType);
    }
  }

  lemma NothingAgrees(dataType: DataType)
    ensures ValuesEqual(dataType, Null, None)
  {
  }

  /** The index and semantic keys of one kept value coincide unless its role is literally `$value`. */
  lemma KeysCoincide(m: Mapping)
    ensures IndexKey(KeyOf(m)) == (m.fieldCode, m.role) <==> m.role != "$value"
    ensures IndexKey(KeyOf(m)).1 != "$value"
  {
  }

  /** Everything the run knows about an emitted record. */
  ghost predicate Emitted(r: Record, kept: seq<KeptValue>, base: nat, rows: seq<IndexValue>, lineages: map<nat, Lineage>,
                          cells: set<Cell>)
  {
    && r.rawContract == RAW_CONTRACT && r.semanticContract == SEMANTIC_CONTRACT
    && r.rawColumns.Valid() && r.semantic == SemanticFrom(kept)
    && DistinctKeys(kept)
    && rows == IndexRows(kept, base, r.id)
    && UniqueIds(cells) && ShowsCellsOf(r.rawColumns, cells)
    && (forall i :: 0 <= i < |kept| ==>
          && Justified(kept[i]) && kept[i].cell in cells && Visible(r.rawColumns, kept[i].cell)
          && base + i in lineages && lineages[base + i] == LineageRow(kept[i], base + i, r.sourceSha, r.sheetId))
  }

  lemma RowIsClean(r: Record, kept: seq<KeptValue>, base: nat, rows: seq<IndexValue>, lineages: map<nat, Lineage>,
                   cells: set<Cell>, zone: Zone, i: nat)
    requires Emitted(r, kept, base, rows, lineages, cells) && Keeps(zone) && i < |kept|
    ensures RowViolations(ReadRecord(r), ReadRow(zone, IndexRow(kept[i], base + i, r.id)), EntryOf(kept[i]), lineages,
                          RawCells(ReadRaw(r.rawColumns)))
         == (if ReadsBack(kept[i].value) then {} else {SemanticIndexValueMismatch})
            + (if CellReturns(kept[i].cell) then {} else {LineageRawEvidenceMismatch})
  {
    hide ValuesEqual, RawCells, CellOutcome, SemanticFrom, TypedColumns, JsonOption, Column, ReadColumns, ReadsBack, Keeps, ReadRaw, Jsonb, PyEquals;
    KeptValueAgrees(kept[i], zone);
    VisibleCellRead(r.rawColumns, cells, kept[i].cell);
  }

  lemma KeysAgree(kept: seq<KeptValue>)
    ensures KeySet(SemanticKeyList(kept)) == KeySet(RowKeyList(kept)) <==> NoDollarRole(kept)
    ensures NoDollarRole(kept) ==> SemanticKeyList(kept) == RowKeyList(kept)
  {
    hide IndexKey, KeyOf;
    forall i | 0 <= i < |kept|
      ensures SemanticKeyList(kept)[i] == RowKeyList(kept)[i] <==> kept[i].mapping.role != "$value"
      ensures SemanticKeyList(kept)[i].1 != "$value"
    {
      KeysCoincide(kept[i].mapping);
    }
    if !NoDollarRole(kept) {
      var i :| 0 <= i < |kept| && kept[i].mapping.role == "$value";
      assert forall k :: k in SemanticKeyList(kept) ==> k.1 != "$value";
      var k := RowKeyList(kept)[i];
      assert k in KeySet(RowKeyList(kept)) && k !in KeySet(SemanticKeyList(kept));
    } else {
      assert SemanticKeyList(kept) == RowKeyList(kept);
    }
  }

  /**
   * The auditor, which reads record and rows back from the database, accepts an emitted record exactly when no
   * kept mapping uses the role `$value`, whose semantic key is read back as the empty role, no kept datetime
   * lacks an offset, which its column would add, and no kept cell's float comes back as another integer.
   */
  lemma EmittedRecordPassesAudit(r: Record, kept: seq<KeptValue>, base: nat, rows: seq<IndexValue>,
                                 lineages: map<nat, Lineage>, cells: set<Cell>, zone: Zone)
    requires Emitted(r, kept, base, rows, lineages, cells) && Keeps(zone)
    ensures r.semantic.Valid()
    ensures ReadRecord(r).rawColumns.Valid()
    ensures Clean(ReadRecord(r), ReadRows(zone, rows), lineages) <==> NoDollarRole(kept) && AllReadBack(kept)
  {
    SemanticReadBack(kept);
    IndexReadBack(kept, base, r.id, zone);
    KeysAgree(kept);
    if NoDollarRole(kept) {
      RowsAreClean(r, kept, base, rows, lineages, cells, zone);
    }
    hide SemanticFrom, SemanticEntries, IndexEntries, RowViolations, RawCells, SemanticKeyList, RowKeyList, EntryOf, IndexRow, AllReadBack;
  }

  /** With equal keys, no row shows a violation exactly if every kept value reads back. */
  lemma RowsAreClean(r: Record, kept: seq<KeptValue>, base: nat, rows: seq<IndexValue>, lineages: map<nat, Lineage>,
                     cells: set<Cell>, zone: Zone)
    requires Emitted(r, kept, base, rows, lineages, cells) && NoDollarRole(kept) && Keeps(zone)
    ensures var semantic, index := SemanticEntries(r.semantic), IndexEntries(ReadRows(zone, rows));
            (forall k :: k in index && k in semantic ==>
               RowViolations(ReadRecord(r), index[k], semantic[k], lineages, RawCells(ReadRaw(r.rawColumns))) == {}) <==> AllReadBack(kept)
  {
    hide *;
    var keys := RowKeyList(kept);
    IndexKeysAre(r, kept, base, rows, lineages, cells, zone);
    var semantic, index, cellsRead := SemanticEntries(r.semantic), IndexEntries(ReadRows(zone, rows)), RawCells(ReadRaw(r.rawColumns));
    forall i | 0 <= i < |kept|
      ensures keys[i] in index && keys[i] in semantic
      ensures RowViolations(ReadRecord(r), index[keys[i]], semantic[keys[i]], lineages, cellsRead) == {} <==> KeptReadsBack(kept[i])
    {
      KeyIsClean(r, kept, base, rows, lineages, cells, zone, i);
    }
    AllAreClean(kept);
  }

  lemma AllAreClean(kept: seq<KeptValue>)
    ensures AllReadBack(kept) <==> forall i :: 0 <= i < |kept| ==> KeptReadsBack(kept[i])
  {
    hide KeptReadsBack;
  }

  lemma IndexKeysAre(r: Record, kept: seq<KeptValue>, base: nat, rows: seq<IndexValue>, lineages: map<nat, Lineage>,
                     cells: set<Cell>, zone: Zone)
    requires Emitted(r, kept, base, rows, lineages, cells) && NoDollarRole(kept)
    ensures r.semantic.Valid() && ReadRaw(r.rawColumns).Valid() && |RowKeyList(kept)| == |kept|
    ensures forall k :: k in IndexEntries(ReadRows(zone, rows)) ==> exists i :: 0 <= i < |kept| && RowKeyList(kept)[i] == k
  {
    hide SemanticFrom, IndexEntries, IndexRows, ReadRows, Justified, Visible, ShowsCellsOf;
    IndexReadBack(kept, base, r.id, zone);
    forall k | k in IndexEntries(ReadRows(zone, rows)) ensures exists i :: 0 <= i < |kept| && RowKeyList(kept)[i] == k {
      assert k in KeySet(RowKeyList(kept));
    }
  }

  /** The row under one kept value's key shows no violation exactly if the value reads back. */
  lemma KeyIsClean(r: Record, kept: seq<KeptValue>, base: nat, rows: seq<IndexValue>, lineages: map<nat, Lineage>,
                   cells: set<Cell>, zone: Zone, i: nat)
    requires Emitted(r, kept, base, rows, lineages, cells) && NoDollarRole(kept) && Keeps(zone) && i < |kept|
    ensures |RowKeyList(kept)| == |kept|
    ensures var semantic, index, k := SemanticEntries(r.semantic), IndexEntries(ReadRows(zone, rows)), RowKeyList(kept)[i];
            && k in index && k in semantic
            && (RowViolations(ReadRecord(r), index[k], semantic[k], lineages, RawCells(ReadRaw(r.rawColumns))) == {} <==> KeptReadsBack(kept[i]))
  {
    hide SemanticFrom, SemanticEntries, IndexEntries, IndexRows, ReadRows, ReadRow, Justified, Visible, ShowsCellsOf, RowViolations, RawCells,
      KeptReadsBack, ReadsBack, CellReturns, Keeps, EntryOf, IndexRow;
    SemanticReadBack(kept);
    IndexReadBack(kept, base, r.id, zone);
    KeysAgree(kept);
    hide SemanticKeyList;
    RowIsClean(r, kept, base, rows, lineages, cells, zone, i);
    NoneWhenReturned(kept[i]);
  }

  lemma NoneWhenReturned(k: KeptValue)
    ensures (if ReadsBack(k.value) then {} else {SemanticIndexValueMismatch}) + (if CellReturns(k.cell) then {} else {LineageRawEvidenceMismatch}) == {}
       <==> KeptReadsBack(k)
  {
    hide ReadsBack, CellReturns;
  }
}
