/** The loops that collect one region's record inputs. */
module LayoutLoops {
  import opened Wrappers
  import opened Dicts
  import opened Values
  import opened Records
  import opened RawEvidence
  import opened Layouts
  import opened TableRows

  method Select(g: Grid, places: seq<Place>) returns (selected: seq<Selection>, missing: seq<string>)
    ensures selected == SelectedAt(g, places, |places|) && missing == MissingAt(g, places, |places|)
  {
    selected, missing := [], [];
    for i := 0 to |places|
      invariant selected == SelectedAt(g, places, i) && missing == MissingAt(g, places, i)
    {
      var (mapping, p) := places[i];
      if p in g.at && IsPresent(g.at[p].display) {
        selected := selected + [(mapping, g.at[p])];
      } else if mapping.required {
        missing := missing + [mapping.fieldCode];
      }
    }
  }

  /** The loops of materialize_plan that collect one region's record inputs. */
  method CollectInputs(mode: Mode, r: Region) returns (result: Result<seq<Input>, Abort>)
    requires r.grid.Valid()
    ensures result == Inputs(mode, r)
  {
    match mode {
      case Form =>
        result := CollectForm(r);
      case UnknownMode =>
        result := Failure(MaterializationFailed);
      case HeaderlessTable =>
        if forall b :: b in r.bounds ==> HasSelector(b, "physical_column") {
          result := CollectRows(mode, r);
        } else {
          result := Failure(MaterializationFailed);
        }
      case RowTable =>
        result := CollectRows(mode, r);
    }
  }

  method CollectRows(mode: Mode, r: Region) returns (result: Result<seq<Input>, Abort>)
    requires mode.HeaderlessTable? ==> forall b :: b in r.bounds ==> b.mapping.selector.Some?
    ensures result == Rows(mode, r, r.range.endRow + 1)
  {
    hide HeaderlessRow, TableRow;
    var inputs, row := [], r.range.startRow;
    while row <= r.range.endRow
      invariant r.range.startRow <= row
      invariant row == r.range.startRow || row <= r.range.endRow + 1
      invariant Rows(mode, r, row) == Success(inputs)
    {
      var next: Result<Option<Input>, Abort>;
      if mode.HeaderlessTable? {
        var input := CollectHeaderlessRow(r, row);
        next := Success(input);
      } else {
        next := CollectTableRow(r, row);
      }
      if next.Failure? {
        RowsFail(mode, r, row + 1, r.range.endRow + 1);
        return Failure(next.error);
      }
      if next.value.Some? {
        inputs := inputs + [next.value.value];
      }
      row := row + 1;
    }
    result := Success(inputs);
  }

  lemma {:induction false} RowsFail(mode: Mode, r: Region, failed: int, end: int)
    requires mode.HeaderlessTable? ==> forall b :: b in r.bounds ==> b.mapping.selector.Some?
    requires failed <= end && Rows(mode, r, failed).Failure?
    ensures Rows(mode, r, end) == Rows(mode, r, failed)
    decreases end - failed
  {
    hide HeaderlessRow, TableRow;
    if failed < end {
      RowsFail(mode, r, failed, end - 1);
    }
  }

  method CollectForm(r: Region) returns (result: Result<seq<Input>, Abort>)
    requires r.grid.Valid()
    ensures result == FormInputs(r)
  {
    if !(forall b :: b in r.bounds ==>
           HasSelector(b, "cell") && InRange(r.range, (b.mapping.selector.value.row, b.mapping.selector.value.column))) {
      return Failure(MaterializationFailed);
    }
    var columns: RawColumns := Empty();
    for i := 0 to |r.grid.keys|
      invariant columns == FormColumns(r, i)
    {
      var p := r.grid.keys[i];
      var cell := r.grid.at[p];
      if InRange(r.range, p) && IsPresent(cell.display) {
        columns := Put(columns, cell.id, RawColumn([], Evidence(cell)));
      }
    }
    var selected, missing := Select(r.grid, FormPlaces(r.bounds));
    if columns.at == map[] {
      return Success([]);
    }
    result := Success([Input(r.range.startRow, columns, selected, missing, missing == [])]);
  }

  method CollectHeaderlessRow(r: Region, row: int) returns (input: Option<Input>)
    requires forall b :: b in r.bounds ==> b.mapping.selector.Some?
    ensures input == HeaderlessRow(r, row)
  {
    if row in r.range.excluded {
      return None;
    }
    var selected, missing := Select(r.grid, HeaderlessPlaces(r.bounds, row));
    var columns: RawColumns := Empty();
    for i := 0 to |selected|
      invariant columns == SelectedColumns(selected[..i])
    {
      var (mapping, cell) := selected[i];
      assert selected[..i + 1][..i] == selected[..i];
      columns := Put(columns, mapping.sourceColumnId, RawColumn(mapping.headerPath, Evidence(cell)));
    }
    assert selected[..|selected|] == selected;
    if selected == [] {
      return None;
    }
    input := Some(Input(row, columns, selected, missing, missing == []));
  }

  method ReadRowColumns(g: Grid, headers: Dict<string, HeaderColumn>, row: int) returns (columns: RawColumns)
    requires headers.Valid()
    ensures columns == RowColumns(g, headers, row, |headers.keys|)
  {
    hide IsPresent;
    columns := Empty();
    for i := 0 to |headers.keys|
      invariant columns == RowColumns(g, headers, row, i)
    {
      var header := headers.at[headers.keys[i]];
      var p := (row, header.column);
      if header.headerPath != [] && p in g.at && IsPresent(g.at[p].display) {
        columns := Put(columns, headers.keys[i], RawColumn(header.headerPath, Evidence(g.at[p])));
      }
    }
  }

  method CollectTableRow(r: Region, row: int) returns (result: Result<Option<Input>, Abort>)
    ensures result == TableRow(r, row)
    ensures result.Success? && result.value.Some? <==> Business(r, row)
  {
    RowYieldsWhen(r, row);
    hide Business;
    hide IsPresent, Normalize, CompletelyMapped, UnfilledRow, OnlySequence, RowColumns, SelectedAt, MissingAt, HeadersById;
    if row in r.range.excluded {
      return Success(None);
    }
    var columns := ReadRowColumns(r.grid, HeadersById(r.headers), row);
    if columns.at == map[] {
      return Success(None);
    }
    if exists b :: b in r.bounds && b.mapping.selector.Some? && b.mapping.selector.value.kind != "physical_column" {
      return Failure(MaterializationFailed);
    }
    var selected, missing := Select(r.grid, BoundPlaces(r.bounds, row));
    var numbers := SequenceSelections(selected);
    if numbers != [] {
      var first := Normalize(IntegerType, numbers[0].1.display);
      if first.Overflow? {
        return Failure(OverflowEscaped);
      }
      if first.Rejected? || OnlySequence(columns, numbers) {
        return Success(None);
      }
    }
    if UnfilledRow(columns, r.unfilled) {
      return Success(None);
    }
    result := Success(Some(Input(row, columns, selected, missing, CompletelyMapped(r, columns))));
  }
}
