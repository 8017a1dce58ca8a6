/** When the merge of selected cells takes a cell out of a record's raw columns. */
module LostEvidence {
  import opened Wrappers
  import opened Text
  import opened Dicts
  import opened Values
  import opened Records
  import opened RawEvidence
  import opened Layouts

  /**
   * Both the column's own key and the made-up one are taken, and the column under the made-up key is
   * the only one that shows the lost cell.
   */
  ghost predicate Takes(columns: RawColumns, s: Selection, lost: Cell) {
    var key := SelectedKey(s.0.sourceColumnId, s.1.column);
    && s.0.sourceColumnId in columns.at && key in columns.at
    && Evidence(s.1) != Evidence(lost)
    && forall k :: k in columns.at ==> (columns.at[k].sourceCell == Evidence(lost) <==> k == key)
  }

  /** Adding one selection hides a cell shown before exactly if it takes the cell's only column. */
  lemma StepLosesWhen(columns: RawColumns, s: Selection, lost: Cell)
    requires Visible(columns, lost)
    ensures !Visible(MergeOne(columns, s), lost) <==> Takes(columns, s, lost)
  {
    hide SelectedKey, Evidence;
    var after, key := MergeOne(columns, s), MergeKey(columns, s);
    var k :| k in columns.at && columns.at[k].sourceCell == Evidence(lost);
    assert after.at[key].sourceCell == Evidence(s.1);
    if Takes(columns, s, lost) {
      assert key == SelectedKey(s.0.sourceColumnId, s.1.column);
      forall j | j in after.at ensures after.at[j].sourceCell != Evidence(lost) {
        assert j != key ==> after.at[j] == columns.at[j];
      }
    } else if Evidence(s.1) != Evidence(lost) {
      if other :| other in columns.at && other != key && columns.at[other].sourceCell == Evidence(lost) {
        assert after.at[other] == columns.at[other];
      }
    }
  }

  /** The loop's step for the i-th selection takes this cell's only column. */
  ghost predicate LosesAt(columns: RawColumns, selected: seq<Selection>, i: nat, lost: Cell)
    requires i < |selected|
  {
    var (merged, seen) := Merge(columns, selected, i);
    selected[i].1.id !in seen && Takes(merged, selected[i], lost)
  }

  ghost predicate LostBetween(columns: RawColumns, selected: seq<Selection>, from: nat, n: nat, lost: Cell)
    requires n <= |selected|
  {
    exists i: nat :: from <= i < n && LosesAt(columns, selected, i, lost)
  }

  ghost predicate ShownAfter(columns: RawColumns, selected: seq<Selection>, n: nat, cell: Cell)
    requires n <= |selected|
  {
    Visible(Merge(columns, selected, n).0, cell)
  }

  /** What is shown counts as visible from then on. */
  lemma {:induction false} ShownIsSeen(columns: RawColumns, selected: seq<Selection>, n: nat)
    requires n <= |selected|
    ensures VisibleIds(Merge(columns, selected, n).0) <= Merge(columns, selected, n).1
  {
    if n > 0 {
      ShownIsSeen(columns, selected, n - 1);
      hide SelectedKey, MergeKey;
    }
  }

  lemma {:induction false} SeenStaysSeen(columns: RawColumns, selected: seq<Selection>, from: nat, n: nat)
    requires from <= n <= |selected|
    ensures Merge(columns, selected, from).1 <= Merge(columns, selected, n).1
  {
    hide Merge;
    if from < n {
      SeenStaysSeen(columns, selected, from, n - 1);
      SeenGrows(columns, selected, n - 1);
    }
  }

  lemma SeenGrows(columns: RawColumns, selected: seq<Selection>, n: nat)
    requires n < |selected|
    ensures Merge(columns, selected, n).1 <= Merge(columns, selected, n + 1).1
  {
    hide MergeOne;
  }

  /** A cell shown after some selections is hidden after later ones exactly if a step between took its only column. */
  lemma {:induction false} LostWhen(columns: RawColumns, selected: seq<Selection>, from: nat, n: nat, cell: Cell)
    requires from <= n <= |selected|
    requires ShownAfter(columns, selected, from, cell)
    ensures !ShownAfter(columns, selected, n, cell) <==> LostBetween(columns, selected, from, n, cell)
  {
    hide ShownAfter, LosesAt, Merge;
    if from < n {
      hide LostBetween;
      LostWhen(columns, selected, from, n - 1, cell);
      SeenFrom(columns, selected, from, n - 1, cell);
      LostInStep(columns, selected, n - 1, cell);
      LostInOneMore(columns, selected, from, n - 1, cell);
    }
  }

  lemma LostInOneMore(columns: RawColumns, selected: seq<Selection>, from: nat, n: nat, cell: Cell)
    requires from <= n < |selected|
    ensures LostBetween(columns, selected, from, n + 1, cell) <==>
            LostBetween(columns, selected, from, n, cell) || LosesAt(columns, selected, n, cell)
  {
    hide LosesAt;
  }

  /** A cell counted as visible is shown after a step if it was shown before and the step does not take it. */
  lemma LostInStep(columns: RawColumns, selected: seq<Selection>, n: nat, cell: Cell)
    requires n < |selected| && cell.id in Merge(columns, selected, n).1
    ensures ShownAfter(columns, selected, n + 1, cell) <==>
            ShownAfter(columns, selected, n, cell) && !LosesAt(columns, selected, n, cell)
  {
    var (before, seen) := Merge(columns, selected, n);
    var s := selected[n];
    assert Merge(columns, selected, n + 1).0 == if s.1.id in seen then before else MergeOne(before, s);
    hide Merge, MergeOne, Visible, SelectedKey;
    if Visible(before, cell) {
      StepLosesWhen(before, s, cell);
    } else {
      HiddenStaysHidden(before, s, seen, cell);
    }
  }

  lemma SeenFrom(columns: RawColumns, selected: seq<Selection>, from: nat, n: nat, cell: Cell)
    requires from <= n <= |selected|
    requires ShownAfter(columns, selected, from, cell)
    ensures cell.id in Merge(columns, selected, n).1
  {
    hide Merge;
    ShownIsSeen(columns, selected, from);
    SeenStaysSeen(columns, selected, from, n);
  }

  lemma HiddenStaysHidden(columns: RawColumns, s: Selection, seen: set<string>, cell: Cell)
    requires !Visible(columns, cell) && cell.id in seen
    ensures s.1.id !in seen ==> !Visible(MergeOne(columns, s), cell)
  {
    hide SelectedKey;
  }

  /** A cell of the sheet counts as visible only once some columns have shown it. */
  lemma {:induction false} SeenWasShown(columns: RawColumns, selected: seq<Selection>, n: nat, cells: set<Cell>, cell: Cell)
    returns (m: nat)
    requires UniqueIds(cells) && ShowsCellsOf(columns, cells)
    requires forall i :: 0 <= i < |selected| ==> selected[i].1 in cells
    requires n <= |selected| && cell in cells && cell.id in Merge(columns, selected, n).1
    ensures m <= n && ShownAfter(columns, selected, m, cell)
  {
    if n == 0 {
      VisibleById(columns, cell, cells);
      m := 0;
    } else if cell.id in Merge(columns, selected, n - 1).1 {
      m := SeenWasShown(columns, selected, n - 1, cells, cell);
    } else {
      var before := Merge(columns, selected, n - 1).0;
      hide SelectedKey;
      assert selected[n - 1].1 == cell;
      assert MergeOne(before, selected[n - 1]).at[MergeKey(before, selected[n - 1])].sourceCell == Evidence(cell);
      m := n;
    }
  }

  /**
   * Every selected cell is visible in the end exactly if no step of the loop finds both keys of a
   * selection taken, the made-up one by the cell's only column.
   */
  lemma SelectedStaysWhen(columns: RawColumns, selected: seq<Selection>, cells: set<Cell>, j: nat)
    requires UniqueIds(cells) && ShowsCellsOf(columns, cells)
    requires forall i :: 0 <= i < |selected| ==> selected[i].1 in cells
    requires j < |selected|
    ensures Visible(Merge(columns, selected, |selected|).0, selected[j].1) <==>
            !LostBetween(columns, selected, 0, |selected|, selected[j].1)
  {
    var n, cell := |selected|, selected[j].1;
    SeenStaysSeen(columns, selected, j + 1, n);
    var m := SeenWasShown(columns, selected, n, cells, cell);
    hide Merge, Takes, Visible;
    LostWhen(columns, selected, m, n, cell);
    if i: nat :| 0 <= i < n && LosesAt(columns, selected, i, cell) {
      TakenWasShown(columns, selected, i, cell);
      LostWhen(columns, selected, i, n, cell);
    }
  }

  lemma TakenWasShown(columns: RawColumns, selected: seq<Selection>, i: nat, cell: Cell)
    requires i < |selected| && LosesAt(columns, selected, i, cell)
    ensures ShownAfter(columns, selected, i, cell)
  {
    hide Merge, SelectedKey;
  }

  // ----- a headerless row whose mappings' identifiers collide -----

  /** A mapping's column identifier is free text of the approval, at most 500 characters long. */
  function ColumnMapping(id: string, column: int): Mapping {
    Mapping(id, ["h"], "f", 1, "", false, Some(Selector("physical_column", 0, column)))
  }

  const FIRST := Cell("c1", 1, 1, "A1", Str("x"), Str("x"))
  const SECOND := Cell("c2", 1, 2, "B1", Str("x"), Str("x"))
  const THIRD := Cell("c3", 1, 3, "C1", Str("x"), Str("x"))

  /** Two mappings share an identifier; a third carries the key the merge makes up for the first. */
  function CollidingBounds(id: string): seq<Bound> {
    [Bound(ColumnMapping(id, 1), 1), Bound(ColumnMapping(id, 2), 2), Bound(ColumnMapping(SelectedKey(id, 1), 3), 3)]
  }

  function CollidingRow(id: string): Region {
    Region(Dict([(1, 1), (1, 2), (1, 3)], map[(1, 1) := FIRST, (1, 2) := SECOND, (1, 3) := THIRD]),
           Range(1, 1, 1, 3, {}), [], CollidingBounds(id), _ => false)
  }

  function CollidingSelections(id: string): seq<Selection> {
    [(ColumnMapping(id, 1), FIRST), (ColumnMapping(id, 2), SECOND), (ColumnMapping(SelectedKey(id, 1), 3), THIRD)]
  }

  lemma CellsOfTheRow(id: string)
    ensures var g := CollidingRow(id).grid;
            && CellAt(g, (1, 1)) == Some(FIRST) && CellAt(g, (1, 2)) == Some(SECOND) && CellAt(g, (1, 3)) == Some(THIRD)
  {
    assert IsPresent(Str("x")) by {
      assert "x"[0] == 'x';
      StripTrims("x");
    }
    hide IsPresent, SelectedKey;
  }

  /** Where every place holds a present cell, all of them are selected. */
  lemma {:induction false} AllSelected(g: Grid, places: seq<Place>, s: seq<Selection>, n: nat)
    requires n <= |places| == |s|
    requires forall i :: 0 <= i < |s| ==> s[i].0 == places[i].0 && CellAt(g, places[i].1) == Some(s[i].1)
    ensures SelectedAt(g, places, n) == s[..n]
  {
    hide CellAt;
    if n > 0 {
      AllSelected(g, places, s, n - 1);
      assert s[..n] == s[..n - 1] + [(places[n - 1].0, s[n - 1].1)];
    }
  }

  lemma CollidingCells(id: string)
    ensures var row := HeaderlessPlaces(CollidingBounds(id), 1);
            |row| == 3 && SelectedAt(CollidingRow(id).grid, row, 3) == CollidingSelections(id)
  {
    hide SelectedAt, CellAt, SelectedKey;
    CellsOfTheRow(id);
    var row, s := HeaderlessPlaces(CollidingBounds(id), 1), CollidingSelections(id);
    AllSelected(CollidingRow(id).grid, row, s, 3);
    assert s[..3] == s;
  }

  /** The third cell is shown by the row's columns and hidden by the merge. */
  lemma CollidingIdentifiersHideACell(id: string)
    ensures var input := HeaderlessRow(CollidingRow(id), 1);
            && input.Some? && input.value.selected == CollidingSelections(id)
            && Visible(input.value.columns, THIRD)
            && !Visible(Merge(input.value.columns, input.value.selected, 3).0, THIRD)
  {
    CollidingCells(id);
    CollidingMerge(id);
    hide SelectedAt, MissingAt, SelectedColumns, Visible, Merge, HeaderlessPlaces, SelectedKey;
  }

  lemma CollidingMerge(id: string)
    ensures var columns := SelectedColumns(CollidingSelections(id));
            Visible(columns, THIRD) && !Visible(Merge(columns, CollidingSelections(id), 3).0, THIRD)
  {
    CollidingColumns(id);
    var selected := CollidingSelections(id);
    var columns := SelectedColumns(selected);
    assert Merge(columns, selected, 0) == (columns, VisibleIds(columns));
    hide SelectedKey, SelectedColumns, CollidingSelections, Visible, Takes, Merge;
    assert LosesAt(columns, selected, 0, THIRD);
    LostWhen(columns, selected, 0, 3, THIRD);
  }

  lemma CollidingColumns(id: string)
    ensures var columns := SelectedColumns(CollidingSelections(id));
            && Visible(columns, THIRD) && Takes(columns, CollidingSelections(id)[0], THIRD)
            && FIRST.id !in VisibleIds(columns)
  {
    var key := SelectedKey(id, 1);
    assert |key| > |id|;
    hide SelectedColumns, SelectedKey;
    ThreeColumns(id);
    var columns := SelectedColumns(CollidingSelections(id));
    assert columns.at == map[id := RawColumn(["h"], Evidence(SECOND)), key := RawColumn(["h"], Evidence(THIRD))];
    TwoColumns(columns, id, key);
  }

  lemma TwoColumns(columns: RawColumns, id: string, key: string)
    requires id != key && columns.at == map[id := RawColumn(["h"], Evidence(SECOND)), key := RawColumn(["h"], Evidence(THIRD))]
    ensures Visible(columns, THIRD) && FIRST.id !in VisibleIds(columns)
    ensures forall k :: k in columns.at ==> (columns.at[k].sourceCell == Evidence(THIRD) <==> k == key)
  {
    assert columns.at[key].sourceCell == Evidence(THIRD) && columns.at[id].sourceCell == Evidence(SECOND);
  }

  lemma ThreeColumns(id: string)
    ensures SelectedColumns(CollidingSelections(id)).at
         == map[id := RawColumn(["h"], Evidence(FIRST))][id := RawColumn(["h"], Evidence(SECOND))]
               [SelectedKey(id, 1) := RawColumn(["h"], Evidence(THIRD))]
  {
    hide Evidence, SelectedKey;
    var s := CollidingSelections(id);
    OneMoreColumn([], s[0]);
    OneMoreColumn([s[0]], s[1]);
    OneMoreColumn([s[0], s[1]], s[2]);
    NoColumns();
    hide SelectedColumns;
    assert [] + [s[0]] == [s[0]] && [s[0]] + [s[1]] == [s[0], s[1]] && [s[0], s[1]] + [s[2]] == s;
  }

  lemma OneMoreColumn(init: seq<Selection>, last: Selection)
    ensures SelectedColumns(init + [last]).at
         == SelectedColumns(init).at[last.0.sourceColumnId := RawColumn(last.0.headerPath, Evidence(last.1))]
  {
    assert (init + [last])[..|init|] == init;
  }

  lemma NoColumns()
    ensures SelectedColumns([]).at == map[]
  {
  }
}
