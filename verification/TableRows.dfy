/** When a row of a table is a business record, said of the sheet itself. */
module TableRows {
  import opened Wrappers
  import opened Dicts
  import opened Values
  import opened Records
  import opened RawEvidence
  import opened Layouts

  /** The row shows a present cell below the named header column `id`. */
  predicate Shows(r: Region, row: int, id: string) {
    var headers := HeadersById(r.headers).at;
    id in headers && headers[id].headerPath != [] && CellAt(r.grid, (row, headers[id].column)).Some?
  }

  function ShownCell(r: Region, row: int, id: string): Cell
    requires Shows(r, row, id)
  {
    CellAt(r.grid, (row, HeadersById(r.headers).at[id].column)).value
  }

  /** The i-th mapping finds a sequence number in the row. */
  predicate NumbersRow(r: Region, row: int, i: nat)
    requires i < |r.bounds|
  {
    r.bounds[i].mapping.fieldCode == SEQUENCE_FIELD && CellAt(r.grid, (row, r.bounds[i].column)).Some?
  }

  /** The first sequence number of the row reads as an integer. */
  predicate NumberReads(r: Region, row: int) {
    forall i :: 0 <= i < |r.bounds| && NumbersRow(r, row, i) && (forall j :: 0 <= j < i ==> !NumbersRow(r, row, j)) ==>
      Normalize(IntegerType, CellAt(r.grid, (row, r.bounds[i].column)).value.display).Normal?
  }

  /** Some shown column is not one a sequence number of the row was mapped from. */
  predicate MoreThanNumber(r: Region, row: int) {
    (exists i :: 0 <= i < |r.bounds| && NumbersRow(r, row, i)) ==>
      exists id :: id in HeadersById(r.headers).at && Shows(r, row, id) &&
        forall i :: 0 <= i < |r.bounds| && NumbersRow(r, row, i) ==> r.bounds[i].mapping.sourceColumnId != id
  }

  /** A shown cell that is not an unfilled part of a printed form. */
  predicate ShowsFilled(r: Region, row: int) {
    exists id :: id in HeadersById(r.headers).at && Shows(r, row, id) && !r.unfilled(ShownCell(r, row, id).display)
  }

  predicate PhysicalSelectors(r: Region) {
    forall b :: b in r.bounds && b.mapping.selector.Some? ==> b.mapping.selector.value.kind == "physical_column"
  }

  /** The row is a business record. */
  predicate Business(r: Region, row: int) {
    row !in r.range.excluded && PhysicalSelectors(r) && NumberReads(r, row) && MoreThanNumber(r, row) && ShowsFilled(r, row)
  }

  lemma {:induction false} ColumnsShow(g: Grid, headers: Dict<string, HeaderColumn>, row: int, n: nat)
    requires headers.Valid() && n <= |headers.keys|
    ensures forall i :: 0 <= i < |headers.keys| ==>
              (headers.keys[i] in RowColumns(g, headers, row, n).at <==>
                 i < n && headers.at[headers.keys[i]].headerPath != [] && CellAt(g, (row, headers.at[headers.keys[i]].column)).Some?)
    ensures forall id :: id in RowColumns(g, headers, row, n).at ==>
              id in headers.at && CellAt(g, (row, headers.at[id].column)).Some? &&
              RowColumns(g, headers, row, n).at[id].sourceCell == Evidence(CellAt(g, (row, headers.at[id].column)).value)
  {
    hide CellAt;
    if n > 0 {
      ColumnsShow(g, headers, row, n - 1);
      var id := headers.keys[n - 1];
      var header := headers.at[id];
      var cell := CellAt(g, (row, header.column));
      var before, after := RowColumns(g, headers, row, n - 1).at, RowColumns(g, headers, row, n).at;
      assert after == if header.headerPath != [] && cell.Some? then before[id := RawColumn(header.headerPath, Evidence(cell.value))] else before;
      hide RowColumns;
    }
  }

  /** The raw columns of a row are what it shows. */
  lemma ColumnsAreShown(r: Region, row: int)
    ensures var headers := HeadersById(r.headers);
            var columns := RowColumns(r.grid, headers, row, |headers.keys|);
            && (forall id :: id in columns.at <==> Shows(r, row, id))
            && (forall id :: id in columns.at ==> columns.at[id].sourceCell == Evidence(ShownCell(r, row, id)))
  {
    hide CellAt, RowColumns;
    var headers := HeadersById(r.headers);
    ColumnsShow(r.grid, headers, row, |headers.keys|);
    forall id ensures id in RowColumns(r.grid, headers, row, |headers.keys|).at <==> Shows(r, row, id) {
      if id in headers.at {
        var i :| 0 <= i < |headers.keys| && headers.keys[i] == id;
      }
    }
  }

  /** The i-th bound's selection, if it is a sequence number. */
  function NumberAt(r: Region, row: int, i: nat): seq<Selection>
    requires i < |r.bounds|
  {
    if NumbersRow(r, row, i) then [(r.bounds[i].mapping, CellAt(r.grid, (row, r.bounds[i].column)).value)] else []
  }

  /** The sequence numbers of the first n mappings. */
  function NumbersBefore(r: Region, row: int, n: nat): seq<Selection>
    requires n <= |r.bounds|
  {
    if n == 0 then [] else NumbersBefore(r, row, n - 1) + NumberAt(r, row, n - 1)
  }

  lemma {:induction false} NumbersAreSelected(r: Region, row: int, n: nat)
    requires n <= |r.bounds|
    ensures SequenceSelections(SelectedAt(r.grid, BoundPlaces(r.bounds, row), n)) == NumbersBefore(r, row, n)
  {
    hide CellAt, SelectedAt, SequenceSelections, NumbersBefore;
    var places := BoundPlaces(r.bounds, row);
    if n == 0 {
      NothingSelected(r, row, places);
    } else {
      NumbersAreSelected(r, row, n - 1);
      var before := SelectedAt(r.grid, places, n - 1);
      var cell := CellAt(r.grid, places[n - 1].1);
      OneMorePlace(r, row, places, n - 1);
      if cell.Some? {
        SequenceMore(before, (places[n - 1].0, cell.value));
      } else {
        assert before + [] == before;
      }
    }
  }

  lemma NothingSelected(r: Region, row: int, places: seq<Place>)
    ensures SequenceSelections(SelectedAt(r.grid, places, 0)) == NumbersBefore(r, row, 0)
  {
  }

  lemma OneMorePlace(r: Region, row: int, places: seq<Place>, n: nat)
    requires n < |places| == |r.bounds|
    ensures var cell := CellAt(r.grid, places[n].1);
            SelectedAt(r.grid, places, n + 1) == SelectedAt(r.grid, places, n) + if cell.Some? then [(places[n].0, cell.value)] else []
    ensures NumbersBefore(r, row, n + 1) == NumbersBefore(r, row, n) + NumberAt(r, row, n)
  {
    hide CellAt;
  }

  lemma SequenceMore(selected: seq<Selection>, s: Selection)
    ensures SequenceSelections(selected + [s])
         == SequenceSelections(selected) + if s.0.fieldCode == SEQUENCE_FIELD then [s] else []
  {
    assert (selected + [s])[..|selected|] == selected;
  }

  lemma NamesMore(numbers: seq<Selection>, more: seq<Selection>, id: string)
    ensures Names(numbers + more, id) <==> Names(numbers, id) || Names(more, id)
  {
    if Names(numbers, id) {
      var k :| 0 <= k < |numbers| && numbers[k].0.sourceColumnId == id;
      assert (numbers + more)[k] == numbers[k];
    }
    if Names(more, id) {
      var k :| 0 <= k < |more| && more[k].0.sourceColumnId == id;
      assert (numbers + more)[|numbers| + k] == more[k];
    }
  }

  lemma NumberNames(r: Region, row: int, i: nat, id: string)
    requires i < |r.bounds|
    ensures Names(NumberAt(r, row, i), id) <==> NumbersRow(r, row, i) && r.bounds[i].mapping.sourceColumnId == id
  {
    hide CellAt;
    if NumbersRow(r, row, i) {
      assert NumberAt(r, row, i)[0].0 == r.bounds[i].mapping;
    }
  }

  predicate MappedFrom(r: Region, row: int, n: nat, id: string)
    requires n <= |r.bounds|
  {
    exists i :: 0 <= i < n && NumbersRow(r, row, i) && r.bounds[i].mapping.sourceColumnId == id
  }

  /** The numbers are those of the numbering mappings, the first of them first. */
  lemma {:induction false} NumbersMeaning(r: Region, row: int, n: nat)
    requires n <= |r.bounds|
    ensures forall id :: Names(NumbersBefore(r, row, n), id) <==> MappedFrom(r, row, n, id)
    ensures NumbersBefore(r, row, n) == [] <==> forall i :: 0 <= i < n ==> !NumbersRow(r, row, i)
    ensures forall i :: 0 <= i < n && NumbersRow(r, row, i) && (forall j :: 0 <= j < i ==> !NumbersRow(r, row, j)) ==>
              NumbersBefore(r, row, n) != [] && [NumbersBefore(r, row, n)[0]] == NumberAt(r, row, i)
    ensures NumbersBefore(r, row, n) != [] ==>
              exists i :: 0 <= i < n && NumbersRow(r, row, i) && forall j :: 0 <= j < i ==> !NumbersRow(r, row, j)
  {
    hide CellAt, NumbersRow;
    if n > 0 {
      NumbersMeaning(r, row, n - 1);
      var before, after := NumbersBefore(r, row, n - 1), NumbersBefore(r, row, n);
      assert forall k :: 0 <= k < |before| ==> after[k] == before[k];
      forall id ensures Names(after, id) <==> MappedFrom(r, row, n, id) {
        NamesMore(before, NumberAt(r, row, n - 1), id);
        NumberNames(r, row, n - 1, id);
      }
    }
  }

  /** The two guards on what the row shows, said of the sheet. */
  lemma GuardsMean(r: Region, row: int)
    ensures var headers := HeadersById(r.headers);
            var columns := RowColumns(r.grid, headers, row, |headers.keys|);
            var numbers := NumbersBefore(r, row, |r.bounds|);
            && (!(numbers != [] && OnlySequence(columns, numbers)) <==> MoreThanNumber(r, row))
            && (columns.at != map[] && !UnfilledRow(columns, r.unfilled) <==> ShowsFilled(r, row))
  {
    hide CellAt, RowColumns, NumbersRow, NumbersBefore, Shows;
    ColumnsAreShown(r, row);
    NumbersMeaning(r, row, |r.bounds|);
    var headers := HeadersById(r.headers);
    var columns := RowColumns(r.grid, headers, row, |headers.keys|);
    ShownAreHeaders(r, row);
    assert forall id :: id in columns.keys <==> Shows(r, row, id);
    assert columns.at == map[] <==> forall id :: !Shows(r, row, id);
    var numbers := NumbersBefore(r, row, |r.bounds|);
    forall id ensures Names(numbers, id) <==> MappedFrom(r, row, |r.bounds|, id) {
    }
    hide Names;
    assert OnlySequence(columns, numbers) <==> forall id :: id in columns.keys ==> MappedFrom(r, row, |r.bounds|, id);
  }

  lemma ShownAreHeaders(r: Region, row: int)
    ensures forall id :: Shows(r, row, id) ==> id in HeadersById(r.headers).at
  {
  }

  /** The first sequence number, if there is one, reads as an integer. */
  lemma NumberMeans(r: Region, row: int)
    ensures var numbers := NumbersBefore(r, row, |r.bounds|);
            NumberReads(r, row) <==> numbers == [] || Normalize(IntegerType, numbers[0].1.display).Normal?
  {
    hide CellAt, Normalize, NumbersRow, NumbersBefore;
    NumbersMeaning(r, row, |r.bounds|);
    var numbers := NumbersBefore(r, row, |r.bounds|);
    if numbers != [] {
      var i :| 0 <= i < |r.bounds| && NumbersRow(r, row, i) && forall j :: 0 <= j < i ==> !NumbersRow(r, row, j);
      assert [numbers[0]] == NumberAt(r, row, i);
    }
  }

  /**
   * A table row yields a record input if and only if it is not excluded, its mappings select physical
   * columns, its first sequence number reads as an integer, it shows a column besides its sequence numbers,
   * and not every cell it shows is an unfilled part of a form.
   */
  lemma RowYieldsWhen(r: Region, row: int)
    ensures TableRow(r, row).Success? && TableRow(r, row).value.Some? <==> Business(r, row)
  {
    hide CellAt, RowColumns, NumbersRow, NumbersBefore, Shows, Normalize, CompletelyMapped, SelectedAt, MissingAt, HeadersById,
      OnlySequence, UnfilledRow, SequenceSelections;
    NumbersAreSelected(r, row, |r.bounds|);
    NumberMeans(r, row);
    GuardsMean(r, row);
    hide NumberReads, MoreThanNumber, ShowsFilled;
    var headers := HeadersById(r.headers);
    NormalIsOne(r, row);
  }

  lemma NormalIsOne(r: Region, row: int)
    ensures forall v: Scalar :: Normalize(IntegerType, v).Normal? || Normalize(IntegerType, v).Rejected? || Normalize(IntegerType, v).Overflow?
  {
  }
}
