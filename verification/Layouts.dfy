/** Turning an approved region into record inputs: forms, headerless tables and row tables. */
module Layouts {
  import opened Wrappers
  import opened Dicts
  import opened Values
  import opened Records
  import opened RawEvidence

  datatype Mode = Form | HeaderlessTable | RowTable | UnknownMode

  /** The layout mode of an approved layout; without one the template's region kind decides. */
  function ModeOf(layoutMode: string, regionKind: string): Mode {
    if layoutMode == "" then (if regionKind == "form" then Form else RowTable)
    else if layoutMode == "form" then Form
    else if layoutMode == "headerless_table" then HeaderlessTable
    else if layoutMode in {"explicit_header_table", "table", "matrix"} then RowTable
    else UnknownMode
  }

  datatype Range = Range(startRow: int, endRow: int, startColumn: int, endColumn: int, excluded: set<int>)

  datatype HeaderColumn = HeaderColumn(sourceColumnId: string, column: int, headerPath: seq<string>)

  /** A mapping and the physical column it was resolved to. */
  datatype Bound = Bound(mapping: Mapping, column: int)

  /** The cells of a sheet by position. */
  type Grid = Dict<(int, int), Cell>

  datatype Region = Region(
    grid: Grid, range: Range, headers: seq<HeaderColumn>, bounds: seq<Bound>, unfilled: Scalar -> bool)

  datatype Input = Input(
    row: int, columns: RawColumns, selected: seq<Selection>, missing: seq<string>, complete: bool)

  /** MaterializationError, the OverflowError of an infinite integer, or a column too narrow for its value. */
  datatype Abort = MaterializationFailed | OverflowEscaped | ColumnOverflow

  ghost predicate ValidGrid(g: Grid) {
    && g.Valid()
    && (forall p :: p in g.at ==> p == (g.at[p].row, g.at[p].column))
    && UniqueIds(g.at.Values)
  }

  // ----- selecting cells -----

  type Place = (Mapping, (int, int))

  function CellAt(g: Grid, p: (int, int)): Option<Cell> {
    if p in g.at && IsPresent(g.at[p].display) then Some(g.at[p]) else None
  }

  function SelectedAt(g: Grid, places: seq<Place>, n: nat): seq<Selection>
    requires n <= |places|
  {
    if n == 0 then []
    else
      SelectedAt(g, places, n - 1) +
      match CellAt(g, places[n - 1].1)
      case Some(cell) => [(places[n - 1].0, cell)]
      case None => []
  }

  function MissingAt(g: Grid, places: seq<Place>, n: nat): seq<string>
    requires n <= |places|
  {
    if n == 0 then []
    else
      var (mapping, p) := places[n - 1];
      MissingAt(g, places, n - 1) + (if CellAt(g, p).None? && mapping.required then [mapping.fieldCode] else [])
  }

  // ----- raw columns -----

  predicate InRange(range: Range, p: (int, int)) {
    range.startRow <= p.0 <= range.endRow && range.startColumn <= p.1 <= range.endColumn && p.0 !in range.excluded
  }

  /** A form shows every present cell of its range under the cell's own identifier. */
  function FormColumns(r: Region, n: nat): (columns: RawColumns)
    requires n <= |r.grid.keys| && forall k :: k in r.grid.keys ==> k in r.grid.at
    ensures columns.Valid()
  {
    if n == 0 then Empty()
    else
      var p := r.grid.keys[n - 1];
      var cell := r.grid.at[p];
      if InRange(r.range, p) && IsPresent(cell.display)
      then Put(FormColumns(r, n - 1), cell.id, RawColumn([], Evidence(cell)))
      else FormColumns(r, n - 1)
  }

  /** A headerless row shows the selected cells under their mappings' column identifiers. */
  function SelectedColumns(selected: seq<Selection>): (columns: RawColumns)
    ensures columns.Valid()
  {
    if selected == [] then Empty()
    else
      var (mapping, cell) := selected[|selected| - 1];
      Put(SelectedColumns(selected[..|selected| - 1]), mapping.sourceColumnId, RawColumn(mapping.headerPath, Evidence(cell)))
  }

  /** The header columns by identifier: a later column with the same identifier replaces an earlier one. */
  function HeadersById(headers: seq<HeaderColumn>): (d: Dict<string, HeaderColumn>)
    ensures d.Valid()
    ensures forall id :: id in d.at ==> d.at[id].sourceColumnId == id && d.at[id] in headers
  {
    if headers == [] then Empty()
    else
      var last := headers[|headers| - 1];
      Put(HeadersById(headers[..|headers| - 1]), last.sourceColumnId, last)
  }

  /** A table row shows the present cells below every named header column. */
  function RowColumns(g: Grid, headers: Dict<string, HeaderColumn>, row: int, n: nat): (columns: RawColumns)
    requires n <= |headers.keys| && forall k :: k in headers.keys ==> k in headers.at
    ensures columns.Valid()
    ensures forall k :: k in columns.at ==> k in headers.at
  {
    if n == 0 then Empty()
    else
      var id := headers.keys[n - 1];
      var header := headers.at[id];
      var before := RowColumns(g, headers, row, n - 1);
      if header.headerPath == [] then before
      else
        match CellAt(g, (row, header.column))
        case Some(cell) => Put(before, id, RawColumn(header.headerPath, Evidence(cell)))
        case None => before
  }

  // ----- the three layouts -----

  function BoundPlaces(bounds: seq<Bound>, row: int): seq<Place> {
    seq(|bounds|, i requires 0 <= i < |bounds| => (bounds[i].mapping, (row, bounds[i].column)))
  }

  predicate HasSelector(b: Bound, kind: string) {
    b.mapping.selector.Some? && b.mapping.selector.value.kind == kind
  }

  function FormInputs(r: Region): Result<seq<Input>, Abort>
    requires r.grid.Valid()
  {
    if !(forall b :: b in r.bounds ==>
           HasSelector(b, "cell") && InRange(r.range, (b.mapping.selector.value.row, b.mapping.selector.value.column)))
    then Failure(MaterializationFailed)
    else
      var columns := FormColumns(r, |r.grid.keys|);
      var places := FormPlaces(r.bounds);
      var missing := MissingAt(r.grid, places, |places|);
      Success(if columns.at == map[] then []
              else [Input(r.range.startRow, columns, SelectedAt(r.grid, places, |places|), missing, missing == [])])
  }

  function FormPlaces(bounds: seq<Bound>): seq<Place>
    requires forall b :: b in bounds ==> b.mapping.selector.Some?
  {
    seq(|bounds|, i requires 0 <= i < |bounds| =>
      (bounds[i].mapping, (bounds[i].mapping.selector.value.row, bounds[i].mapping.selector.value.column)))
  }

  function HeaderlessPlaces(bounds: seq<Bound>, row: int): seq<Place>
    requires forall b :: b in bounds ==> b.mapping.selector.Some?
  {
    seq(|bounds|, i requires 0 <= i < |bounds| => (bounds[i].mapping, (row, bounds[i].mapping.selector.value.column)))
  }

  function HeaderlessRow(r: Region, row: int): Option<Input>
    requires forall b :: b in r.bounds ==> b.mapping.selector.Some?
  {
    var places := HeaderlessPlaces(r.bounds, row);
    var selected := SelectedAt(r.grid, places, |places|);
    var missing := MissingAt(r.grid, places, |places|);
    if row in r.range.excluded || selected == [] then None
    else Some(Input(row, SelectedColumns(selected), selected, missing, missing == []))
  }

  const SEQUENCE_FIELD := "base.sequence_number"

  function SequenceSelections(selected: seq<Selection>): seq<Selection> {
    if selected == [] then []
    else
      SequenceSelections(selected[..|selected| - 1]) +
      (if selected[|selected| - 1].0.fieldCode == SEQUENCE_FIELD then [selected[|selected| - 1]] else [])
  }

  /** Is every raw column of the row one that a sequence-number mapping names? */
  predicate OnlySequence(columns: RawColumns, numbers: seq<Selection>) {
    forall id :: id in columns.keys ==> Names(numbers, id)
  }

  /** A selected sequence number comes from the column. */
  predicate Names(numbers: seq<Selection>, id: string) {
    exists k :: 0 <= k < |numbers| && numbers[k].0.sourceColumnId == id
  }

  predicate UnfilledRow(columns: RawColumns, unfilled: Scalar -> bool)
    requires forall k :: k in columns.keys ==> k in columns.at
  {
    columns.keys != [] && forall k :: k in columns.keys ==> unfilled(columns.at[k].sourceCell.display)
  }

  predicate CompletelyMapped(r: Region, columns: RawColumns) {
    forall h :: h in r.headers && h.sourceColumnId in columns.at && r.range.startColumn <= h.column <= r.range.endColumn ==>
      exists b :: b in r.bounds && b.mapping.sourceColumnId == h.sourceColumnId
  }

  /** One row of a table: nothing for rows that are not business records. */
  function TableRow(r: Region, row: int): Result<Option<Input>, Abort> {
    var headers := HeadersById(r.headers);
    var columns := RowColumns(r.grid, headers, row, |headers.keys|);
    if row in r.range.excluded || columns.at == map[] then Success(None)
    else if exists b :: b in r.bounds && b.mapping.selector.Some? && b.mapping.selector.value.kind != "physical_column"
    then Failure(MaterializationFailed)
    else
      var places := BoundPlaces(r.bounds, row);
      BusinessRow(r, row, columns, SelectedAt(r.grid, places, |places|), MissingAt(r.grid, places, |places|))
  }

  function BusinessRow(r: Region, row: int, columns: RawColumns, selected: seq<Selection>, missing: seq<string>)
    : (result: Result<Option<Input>, Abort>)
    requires forall k :: k in columns.keys ==> k in columns.at
    ensures result.Success? && result.value.Some? ==>
              result.value.value.columns == columns && result.value.value.selected == selected
  {
    var numbers := SequenceSelections(selected);
    var first := if numbers == [] then Normal("empty/v1", None) else Normalize(IntegerType, numbers[0].1.display);
    if first.Overflow? then Failure(OverflowEscaped)
    else if first.Rejected? || (numbers != [] && OnlySequence(columns, numbers)) || UnfilledRow(columns, r.unfilled)
    then Success(None)
    else Success(Some(Input(row, columns, selected, missing, CompletelyMapped(r, columns))))
  }

  function Row(mode: Mode, r: Region, row: int): Result<Option<Input>, Abort>
    requires mode.HeaderlessTable? ==> forall b :: b in r.bounds ==> b.mapping.selector.Some?
  {
    if mode.HeaderlessTable? then Success(HeaderlessRow(r, row)) else TableRow(r, row)
  }

  /** The inputs of the rows before `end`, stopping at the first row that fails. */
  function Rows(mode: Mode, r: Region, end: int): Result<seq<Input>, Abort>
    requires mode.HeaderlessTable? ==> forall b :: b in r.bounds ==> b.mapping.selector.Some?
    decreases end - r.range.startRow
  {
    if end <= r.range.startRow then Success([])
    else
      match Rows(mode, r, end - 1)
      case Failure(e) => Failure(e)
      case Success(inputs) =>
        match Row(mode, r, end - 1)
        case Failure(e) => Failure(e)
        case Success(None) => Success(inputs)
        case Success(Some(input)) => Success(inputs + [input])
  }

  function Inputs(mode: Mode, r: Region): Result<seq<Input>, Abort>
    requires r.grid.Valid()
  {
    match mode
    case Form => FormInputs(r)
    case HeaderlessTable =>
      if forall b :: b in r.bounds ==> HasSelector(b, "physical_column") then Rows(mode, r, r.range.endRow + 1)
      else Failure(MaterializationFailed)
    case RowTable => Rows(mode, r, r.range.endRow + 1)
    case UnknownMode => Failure(MaterializationFailed)
  }

  // ----- every input can be merged without losing evidence -----

  ghost predicate PlainIds(r: Region) {
    && (forall h, id, n :: h in r.headers ==> h.sourceColumnId != SelectedKey(id, n))
    && (forall b, id, n :: b in r.bounds ==> b.mapping.sourceColumnId != SelectedKey(id, n))
  }

  predicate IsMapping(r: Region, m: Mapping) {
    exists b :: b in r.bounds && b.mapping == m
  }

  /** The selections are cells of the grid under the region's own mappings. */
  ghost predicate OfRegion(r: Region, selected: seq<Selection>) {
    forall i :: 0 <= i < |selected| ==> IsMapping(r, selected[i].0) && selected[i].1 in r.grid.at.Values
  }

  ghost predicate FromBounds(input: Input, r: Region) {
    OfRegion(r, input.selected)
  }

  /** What the emission of a record relies on. */
  ghost predicate Sound(input: Input, cells: set<Cell>) {
    && input.columns.Valid() && ShowsCellsOf(input.columns, cells)
    && (forall i :: 0 <= i < |input.selected| ==>
          input.selected[i].1 in cells && IsPresent(input.selected[i].1.display))
    && Mergeable(input.columns, input.selected)
  }

  /** The selection comes from one of the first n places. */
  ghost predicate FromPlace(g: Grid, places: seq<Place>, n: nat, s: Selection)
    requires n <= |places|
  {
    exists k :: 0 <= k < n && s.0 == places[k].0 && CellAt(g, places[k].1) == Some(s.1)
  }

  lemma {:induction false} SelectedFromPlaces(g: Grid, places: seq<Place>, n: nat)
    requires n <= |places|
    ensures forall i :: 0 <= i < |SelectedAt(g, places, n)| ==> FromPlace(g, places, n, SelectedAt(g, places, n)[i])
  {
    hide CellAt;
    if n > 0 {
      SelectedFromPlaces(g, places, n - 1);
      var before, after := SelectedAt(g, places, n - 1), SelectedAt(g, places, n);
      forall i | 0 <= i < |after| ensures FromPlace(g, places, n, after[i]) {
        if i < |before| {
          assert FromPlace(g, places, n - 1, before[i]);
        } else {
          assert after[i].0 == places[n - 1].0 && CellAt(g, places[n - 1].1) == Some(after[i].1);
        }
      }
    }
  }

  lemma {:induction false} RowColumnsShowCells(g: Grid, headers: Dict<string, HeaderColumn>, row: int, n: nat)
    requires headers.Valid() && n <= |headers.keys|
    ensures ShowsCellsOf(RowColumns(g, headers, row, n), g.at.Values)
  {
    if n > 0 {
      RowColumnsShowCells(g, headers, row, n - 1);
    }
  }

  lemma {:induction false} SelectedColumnsShowCells(selected: seq<Selection>, cells: set<Cell>)
    requires forall i :: 0 <= i < |selected| ==> selected[i].1 in cells
    ensures ShowsCellsOf(SelectedColumns(selected), cells)
    ensures forall k :: k in SelectedColumns(selected).at ==>
              exists i :: 0 <= i < |selected| && selected[i].0.sourceColumnId == k
  {
    if selected != [] {
      SelectedColumnsShowCells(selected[..|selected| - 1], cells);
    }
  }

  /** The column a form shows under key k. */
  ghost predicate FormColumn(r: Region, columns: RawColumns, k: string)
    requires k in columns.at
  {
    columns.at[k].sourceCell.id == k && exists c :: c in r.grid.at.Values && columns.at[k].sourceCell == Evidence(c)
  }

  lemma {:induction false} FormColumnsShowCells(r: Region, n: nat)
    requires ValidGrid(r.grid) && n <= |r.grid.keys|
    ensures forall k :: k in FormColumns(r, n).at ==> FormColumn(r, FormColumns(r, n), k)
  {
    hide FormColumns, UniqueIds;
    if n == 0 {
      NothingShown(r);
    } else {
      FormColumnsShowCells(r, n - 1);
      var before, after, cell := FormColumns(r, n - 1), FormColumns(r, n), r.grid.at[r.grid.keys[n - 1]];
      OneMoreShown(r, n - 1);
      forall k | k in after.at ensures FormColumn(r, after, k) {
        assert k != cell.id || after == before ==> FormColumn(r, before, k);
      }
    }
  }

  lemma NothingShown(r: Region)
    requires forall k :: k in r.grid.keys ==> k in r.grid.at
    ensures FormColumns(r, 0).at == map[]
  {
  }

  lemma OneMoreShown(r: Region, n: nat)
    requires n < |r.grid.keys| && forall k :: k in r.grid.keys ==> k in r.grid.at
    ensures var before, after, cell := FormColumns(r, n), FormColumns(r, n + 1), r.grid.at[r.grid.keys[n]];
            && cell in r.grid.at.Values
            && (after == before || after.at == before.at[cell.id := RawColumn([], Evidence(cell))])
  {
    hide IsPresent, InRange;
    assert r.grid.keys[n] in r.grid.at;
  }

  lemma {:induction false} FormColumnsComplete(r: Region, n: nat, i: nat)
    requires r.grid.Valid() && i < n <= |r.grid.keys|
    requires InRange(r.range, r.grid.keys[i]) && IsPresent(r.grid.at[r.grid.keys[i]].display)
    ensures r.grid.at[r.grid.keys[i]].id in FormColumns(r, n).at
  {
    hide IsPresent, InRange;
    if i < n - 1 {
      FormColumnsComplete(r, n - 1, i);
    }
  }

  lemma PositionOf(g: Grid, p: (int, int))
    requires ValidGrid(g) && CellAt(g, p).Some?
    ensures p == (CellAt(g, p).value.row, CellAt(g, p).value.column) && CellAt(g, p).value in g.at.Values
    ensures IsPresent(CellAt(g, p).value.display)
  {
  }

  ghost predicate PlacesInRow(r: Region, places: seq<Place>, row: int) {
    forall k :: 0 <= k < |places| ==>
      places[k].1.0 == row && IsMapping(r, places[k].0)
  }

  lemma RowPlaces(r: Region, row: int)
    ensures PlacesInRow(r, BoundPlaces(r.bounds, row), row)
    ensures (forall b :: b in r.bounds ==> b.mapping.selector.Some?) ==> PlacesInRow(r, HeaderlessPlaces(r.bounds, row), row)
  {
    BoundsAreMappings(r);
    hide IsMapping;
  }

  /** Cells selected from one row: one per physical column. */
  lemma RowSelection(r: Region, places: seq<Place>, row: int)
    requires ValidGrid(r.grid) && PlainIds(r)
    requires PlacesInRow(r, places, row)
    ensures var selected := SelectedAt(r.grid, places, |places|);
            && OneCellPerColumn(selected)
            && (forall i, id, n :: 0 <= i < |selected| ==> selected[i].0.sourceColumnId != SelectedKey(id, n))
            && (forall i :: 0 <= i < |selected| ==>
                  selected[i].1 in r.grid.at.Values && IsPresent(selected[i].1.display))
  {
    hide SelectedKey;
    var selected := SelectedAt(r.grid, places, |places|);
    SelectedFromPlaces(r.grid, places, |places|);
    forall i, j | 0 <= i < |selected| && 0 <= j < |selected| && selected[i].1.column == selected[j].1.column
      ensures selected[i].1 == selected[j].1
    {
      assert FromPlace(r.grid, places, |places|, selected[i]) && FromPlace(r.grid, places, |places|, selected[j]);
      var k :| 0 <= k < |places| && CellAt(r.grid, places[k].1) == Some(selected[i].1);
      var l :| 0 <= l < |places| && CellAt(r.grid, places[l].1) == Some(selected[j].1);
      PositionOf(r.grid, places[k].1);
      PositionOf(r.grid, places[l].1);
    }
    forall i, id, n | 0 <= i < |selected|
      ensures selected[i].0.sourceColumnId != SelectedKey(id, n)
    {
      assert FromPlace(r.grid, places, |places|, selected[i]);
      var k :| 0 <= k < |places| && selected[i].0 == places[k].0;
      assert IsMapping(r, places[k].0);
      var b :| b in r.bounds && places[k].0 == b.mapping;
    }
  }

  lemma FormInputSound(r: Region)
    requires ValidGrid(r.grid) && FormInputs(r).Success?
    ensures forall input :: input in FormInputs(r).value ==> Sound(input, r.grid.at.Values)
  {
    hide IsPresent, FormColumns, SelectedAt, MissingAt, InRange, FormPlaces, AllVisible, ShowsCellsOf, OneCellPerColumn, NoSelectedKeys;
    FormSelectionShown(r);
    FormShowsCells(r);
  }

  lemma FormShowsCells(r: Region)
    requires ValidGrid(r.grid)
    ensures ShowsCellsOf(FormColumns(r, |r.grid.keys|), r.grid.at.Values)
  {
    hide FormColumns, VisibleIds;
    FormColumnsShowCells(r, |r.grid.keys|);
    var columns := FormColumns(r, |r.grid.keys|);
    assert forall k :: k in columns.at ==> FormColumn(r, columns, k);
  }

  /** What a form selects lies in its range, so its columns show it. */
  lemma FormSelectionShown(r: Region)
    requires ValidGrid(r.grid) && FormInputs(r).Success?
    ensures var selected := SelectedAt(r.grid, FormPlaces(r.bounds), |FormPlaces(r.bounds)|);
            && (forall i :: 0 <= i < |selected| ==> selected[i].1 in r.grid.at.Values && IsPresent(selected[i].1.display))
            && AllVisible(FormColumns(r, |r.grid.keys|), selected)
  {
    var places := FormPlaces(r.bounds);
    hide FormColumns, SelectedAt, MissingAt, CellAt, InRange, IsPresent, ValidGrid;
    var selected := SelectedAt(r.grid, places, |places|);
    SelectedFromPlaces(r.grid, places, |places|);
    forall i | 0 <= i < |selected|
      ensures selected[i].1 in r.grid.at.Values && IsPresent(selected[i].1.display)
      ensures selected[i].1.id in VisibleIds(FormColumns(r, |r.grid.keys|))
    {
      assert FromPlace(r.grid, places, |places|, selected[i]);
      var k :| 0 <= k < |places| && CellAt(r.grid, places[k].1) == Some(selected[i].1);
      assert r.bounds[k] in r.bounds && InRange(r.range, places[k].1);
      PositionOf(r.grid, places[k].1);
      FormShows(r, places[k].1);
    }
  }

  lemma FormShows(r: Region, p: (int, int))
    requires ValidGrid(r.grid) && InRange(r.range, p) && CellAt(r.grid, p).Some?
    ensures CellAt(r.grid, p).value.id in VisibleIds(FormColumns(r, |r.grid.keys|))
  {
    hide IsPresent, InRange;
    assert p in r.grid.keys;
    var i :| 0 <= i < |r.grid.keys| && r.grid.keys[i] == p;
    FormColumnsComplete(r, |r.grid.keys|, i);
    FormColumnsShowCells(r, |r.grid.keys|);
    var columns := FormColumns(r, |r.grid.keys|);
    assert FormColumn(r, columns, r.grid.at[p].id);
    assert columns.at[r.grid.at[p].id].sourceCell.id in VisibleIds(columns);
  }

  lemma HeaderlessRowSound(r: Region, row: int)
    requires ValidGrid(r.grid) && PlainIds(r)
    requires forall b :: b in r.bounds ==> b.mapping.selector.Some?
    ensures HeaderlessRow(r, row).Some? ==> Sound(HeaderlessRow(r, row).value, r.grid.at.Values)
  {
    hide SelectedKey;
    var places := HeaderlessPlaces(r.bounds, row);
    RowPlaces(r, row);
    RowSelection(r, places, row);
    SelectedColumnsShowCells(SelectedAt(r.grid, places, |places|), r.grid.at.Values);
  }

  lemma TableRowParts(r: Region, row: int)
    requires ValidGrid(r.grid) && PlainIds(r)
    ensures var places, headers := BoundPlaces(r.bounds, row), HeadersById(r.headers);
            var columns := RowColumns(r.grid, headers, row, |headers.keys|);
            var selected := SelectedAt(r.grid, places, |places|);
            && ShowsCellsOf(columns, r.grid.at.Values) && Mergeable(columns, selected)
            && forall i :: 0 <= i < |selected| ==>
                 selected[i].1 in r.grid.at.Values && IsPresent(selected[i].1.display)
  {
    hide SelectedKey, IsPresent, RowColumns, SelectedAt, HeadersById;
    var places, headers := BoundPlaces(r.bounds, row), HeadersById(r.headers);
    RowPlaces(r, row);
    RowSelection(r, places, row);
    RowColumnsShowCells(r.grid, headers, row, |headers.keys|);
    assert NoSelectedKeys(RowColumns(r.grid, headers, row, |headers.keys|));
  }

  lemma TableRowSound(r: Region, row: int)
    requires ValidGrid(r.grid) && PlainIds(r)
    ensures TableRow(r, row).Success? && TableRow(r, row).value.Some? ==>
              Sound(TableRow(r, row).value.value, r.grid.at.Values)
  {
    TableRowParts(r, row);
    hide IsPresent, BusinessRow, RowColumns, SelectedAt, MissingAt, HeadersById, Mergeable, ShowsCellsOf, PlainIds, ValidGrid;
  }

  lemma {:induction false} RowsSound(mode: Mode, r: Region, end: int)
    requires ValidGrid(r.grid) && PlainIds(r)
    requires mode.HeaderlessTable? ==> forall b :: b in r.bounds ==> b.mapping.selector.Some?
    requires Rows(mode, r, end).Success?
    ensures forall input :: input in Rows(mode, r, end).value ==> Sound(input, r.grid.at.Values)
    decreases end - r.range.startRow
  {
    hide Sound;
    if end > r.range.startRow {
      RowsSound(mode, r, end - 1);
      if mode.HeaderlessTable? {
        HeaderlessRowSound(r, end - 1);
      } else {
        TableRowSound(r, end - 1);
      }
    }
  }

  /** In every layout the collected inputs can be merged: selected cells will all be visible. */
  lemma CollectedInputsAreSound(mode: Mode, r: Region)
    requires ValidGrid(r.grid) && PlainIds(r) && Inputs(mode, r).Success?
    ensures forall input :: input in Inputs(mode, r).value ==> Sound(input, r.grid.at.Values)
  {
    hide Sound;
    if mode.Form? {
      FormInputSound(r);
    } else {
      RowsSound(mode, r, r.range.endRow + 1);
    }
  }

  // ----- selections come from the region -----

  ghost predicate PlacesOfBounds(r: Region, places: seq<Place>) {
    forall k :: 0 <= k < |places| ==> IsMapping(r, places[k].0)
  }

  lemma SelectedFromBounds(r: Region, places: seq<Place>)
    requires PlacesOfBounds(r, places)
    ensures OfRegion(r, SelectedAt(r.grid, places, |places|))
  {
    var selected := SelectedAt(r.grid, places, |places|);
    SelectedFromPlaces(r.grid, places, |places|);
    forall i | 0 <= i < |selected|
      ensures IsMapping(r, selected[i].0) && selected[i].1 in r.grid.at.Values
    {
      assert FromPlace(r.grid, places, |places|, selected[i]);
      var k :| 0 <= k < |places| && selected[i].0 == places[k].0 && CellAt(r.grid, places[k].1) == Some(selected[i].1);
      assert r.grid.at[places[k].1] in r.grid.at.Values;
    }
  }

  lemma BoundsAreMappings(r: Region)
    ensures forall k :: 0 <= k < |r.bounds| ==> IsMapping(r, r.bounds[k].mapping)
  {
    forall k | 0 <= k < |r.bounds| ensures IsMapping(r, r.bounds[k].mapping) {
      assert r.bounds[k] in r.bounds;
    }
  }

  lemma PlacesAreOfBounds(r: Region, row: int)
    ensures PlacesOfBounds(r, BoundPlaces(r.bounds, row))
    ensures (forall b :: b in r.bounds ==> b.mapping.selector.Some?) ==>
              PlacesOfBounds(r, FormPlaces(r.bounds)) && PlacesOfBounds(r, HeaderlessPlaces(r.bounds, row))
  {
    BoundsAreMappings(r);
    hide IsMapping;
  }

  lemma RowFromBounds(mode: Mode, r: Region, row: int)
    requires mode.HeaderlessTable? ==> forall b :: b in r.bounds ==> b.mapping.selector.Some?
    ensures Row(mode, r, row).Success? && Row(mode, r, row).value.Some? ==> FromBounds(Row(mode, r, row).value.value, r)
  {
    hide SelectedAt, MissingAt, PlacesOfBounds, OfRegion, TableRow;
    if mode.HeaderlessTable? {
      PlacesAreOfBounds(r, row);
      SelectedFromBounds(r, HeaderlessPlaces(r.bounds, row));
    } else {
      TableRowFromBounds(r, row);
    }
  }

  lemma TableRowFromBounds(r: Region, row: int)
    ensures TableRow(r, row).Success? && TableRow(r, row).value.Some? ==> FromBounds(TableRow(r, row).value.value, r)
  {
    PlacesAreOfBounds(r, row);
    SelectedFromBounds(r, BoundPlaces(r.bounds, row));
    hide BusinessRow, RowColumns, SelectedAt, MissingAt, HeadersById, OfRegion, PlacesOfBounds;
  }

  lemma {:induction false} RowsFromBounds(mode: Mode, r: Region, end: int)
    requires mode.HeaderlessTable? ==> forall b :: b in r.bounds ==> b.mapping.selector.Some?
    requires Rows(mode, r, end).Success?
    ensures forall input :: input in Rows(mode, r, end).value ==> FromBounds(input, r)
    decreases end - r.range.startRow
  {
    hide FromBounds, Row;
    if end > r.range.startRow {
      RowsFromBounds(mode, r, end - 1);
      RowFromBounds(mode, r, end - 1);
    }
  }

  /** In every layout an input selects only cells of its grid, under mappings of its region. */
  lemma InputsFromBounds(mode: Mode, r: Region)
    requires r.grid.Valid() && Inputs(mode, r).Success?
    ensures forall input :: input in Inputs(mode, r).value ==> FromBounds(input, r)
  {
    hide Rows, SelectedAt, MissingAt, FormColumns, PlacesOfBounds, OfRegion, InRange;
    if mode.Form? {
      assert forall b :: b in r.bounds ==> b.mapping.selector.Some?;
      PlacesAreOfBounds(r, 0);
      SelectedFromBounds(r, FormPlaces(r.bounds));
    } else {
      RowsFromBounds(mode, r, r.range.endRow + 1);
    }
  }
}
