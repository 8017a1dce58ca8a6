/** Merging the selected cells of a record into its raw columns. */
module RawEvidence {
  import opened Wrappers
  import opened Text
  import opened Dicts
  import opened Records

  datatype Selector = Selector(kind: string, row: int, column: int)

  datatype Mapping = Mapping(
    sourceColumnId: string, headerPath: seq<string>, fieldCode: string, fieldVersion: int, role: string,
    required: bool, selector: Option<Selector>)

  type Selection = (Mapping, Cell)

  const MARK := ":selected:"

  function SelectedKey(sourceColumnId: string, column: int): string {
    sourceColumnId + MARK + IntText(column)
  }

  /** Some raw column is about this cell. */
  ghost predicate Visible(columns: RawColumns, cell: Cell) {
    exists k :: k in columns.at && columns.at[k].sourceCell == Evidence(cell)
  }

  function VisibleIds(columns: RawColumns): (ids: set<string>)
    ensures forall k :: k in columns.at ==> columns.at[k].sourceCell.id in ids
    ensures forall id :: id in ids ==> exists k :: k in columns.at && columns.at[k].sourceCell.id == id
  {
    set k | k in columns.at :: columns.at[k].sourceCell.id
  }

  function MergeKey(columns: RawColumns, s: Selection): string {
    var id := s.0.sourceColumnId;
    if id in columns.at then SelectedKey(id, s.1.column) else id
  }

  function MergeOne(columns: RawColumns, s: Selection): RawColumns {
    Put(columns, MergeKey(columns, s), RawColumn(s.0.headerPath, Evidence(s.1)))
  }

  /** The columns after the first n selections, and the cell ids the loop considers visible. */
  function Merge(columns: RawColumns, selected: seq<Selection>, n: nat): (r: (RawColumns, set<string>))
    requires n <= |selected|
    ensures columns.Valid() ==> r.0.Valid()
  {
    if n == 0 then (columns, VisibleIds(columns))
    else
      var (merged, seen) := Merge(columns, selected, n - 1);
      var s := selected[n - 1];
      if s.1.id in seen then (merged, seen) else (MergeOne(merged, s), seen + {s.1.id})
  }

  class RawProjection {
    var columns: RawColumns

    constructor (columns: RawColumns)
      ensures this.columns == columns
    {
      this.columns := columns;
    }

    /** _include_selected_raw_evidence */
    method IncludeSelected(selected: seq<Selection>)
      modifies this
      ensures columns == Merge(old(columns), selected, |selected|).0
    {
      var existing := VisibleIds(columns);
      for i := 0 to |selected|
        invariant (columns, existing) == Merge(old(columns), selected, i)
      {
        var (mapping, cell) := selected[i];
        if cell.id !in existing {
          var key := mapping.sourceColumnId;
          if key in columns.at {
            key := SelectedKey(mapping.sourceColumnId, cell.column);
          }
          columns := Put(columns, key, RawColumn(mapping.headerPath, Evidence(cell)));
          existing := existing + {cell.id};
        }
      }
    }
  }

  // ----- when nothing is lost -----

  /** The cells of a sheet have distinct identifiers. */
  ghost predicate UniqueIds(cells: set<Cell>) {
    forall c, d :: c in cells && d in cells && c.id == d.id ==> c == d
  }

  ghost predicate ShowsCellsOf(columns: RawColumns, cells: set<Cell>) {
    forall k :: k in columns.at ==> exists c :: c in cells && columns.at[k].sourceCell == Evidence(c)
  }

  /** No key of the columns looks like one the merge makes up for a later cell. */
  ghost predicate NoSelectedKeys(columns: RawColumns) {
    forall k, id, n :: k in columns.at ==> k != SelectedKey(id, n)
  }

  /** Selected cells in the same physical column are the same cell, as in a one-row record. */
  ghost predicate OneCellPerColumn(selected: seq<Selection>) {
    forall i, j :: 0 <= i < |selected| && 0 <= j < |selected| && selected[i].1.column == selected[j].1.column ==>
      selected[i].1 == selected[j].1
  }

  ghost predicate AllVisible(columns: RawColumns, selected: seq<Selection>) {
    forall i :: 0 <= i < |selected| ==> selected[i].1.id in VisibleIds(columns)
  }

  ghost predicate Mergeable(columns: RawColumns, selected: seq<Selection>) {
    AllVisible(columns, selected) ||
    (OneCellPerColumn(selected) && NoSelectedKeys(columns) &&
     forall i, id, n :: 0 <= i < |selected| ==> selected[i].0.sourceColumnId != SelectedKey(id, n))
  }

  /** The made-up keys determine the column they were made up for. */
  lemma SelectedKeyColumn(id: string, n: int, id': string, n': int)
    requires SelectedKey(id, n) == SelectedKey(id', n')
    ensures n == n' && id == id'
  {
    hide SelectedKey, IntText;
    KeyParts(id, n);
    KeyParts(id', n');
    IntTextParses(n);
    IntTextParses(n');
  }

  lemma KeyParts(id: string, n: int)
    ensures AfterColon(SelectedKey(id, n)) == IntText(n)
    ensures |SelectedKey(id, n)| == |id| + |MARK| + |IntText(n)|
    ensures SelectedKey(id, n)[..|SelectedKey(id, n)| - |MARK| - |IntText(n)|] == id
  {
    hide AfterColon;
    DigitsHaveNoColon(n);
    AfterColonOf(id + ":selected", IntText(n));
    assert MARK == ":selected" + ":";
    assert id + ":selected" + ":" + IntText(n) == SelectedKey(id, n);
  }

  function AfterColon(s: string): string {
    if s == "" || s[|s| - 1] == ':' then "" else AfterColon(s[..|s| - 1]) + [s[|s| - 1]]
  }

  lemma {:induction false} AfterColonOf(prefix: string, digits: string)
    requires ':' !in digits
    ensures AfterColon(prefix + ":" + digits) == digits
  {
    var s := prefix + ":" + digits;
    if digits != "" {
      AfterColonOf(prefix, digits[..|digits| - 1]);
      assert s[..|s| - 1] == prefix + ":" + digits[..|digits| - 1];
    }
  }

  lemma DigitsHaveNoColon(n: int)
    ensures ':' !in IntText(n)
  {
  }

  /** Everything considered visible is shown by some column. */
  ghost predicate SeenShown(merged: RawColumns, seen: set<string>) {
    forall id :: id in seen ==> exists k :: k in merged.at && merged.at[k].sourceCell.id == id
  }

  /** A key of the made-up shape was made up for a selection handled before. */
  ghost predicate ShapesUsed(selected: seq<Selection>, n: nat, merged: RawColumns, seen: set<string>)
    requires n <= |selected|
  {
    forall k, id, c :: k in merged.at && k == SelectedKey(id, c) ==>
      exists i :: 0 <= i < n && selected[i].1.column == c && selected[i].1.id in seen
  }

  ghost predicate NewFromSelected(columns: RawColumns, selected: seq<Selection>, n: nat, merged: RawColumns)
    requires n <= |selected|
  {
    forall k :: k in merged.at && k !in columns.at ==>
      exists i :: 0 <= i < n && merged.at[k].sourceCell == Evidence(selected[i].1)
  }

  ghost predicate MergeInvariant(columns: RawColumns, selected: seq<Selection>, n: nat, merged: RawColumns, seen: set<string>)
    requires n <= |selected|
  {
    && (forall k :: k in columns.at ==> k in merged.at && merged.at[k] == columns.at[k])
    && (forall i :: 0 <= i < n ==> selected[i].1.id in seen)
    && SeenShown(merged, seen)
    && ShapesUsed(selected, n, merged, seen)
    && NewFromSelected(columns, selected, n, merged)
  }

  lemma {:induction false} MergeKeepsInvariant(columns: RawColumns, selected: seq<Selection>, n: nat)
    requires n <= |selected|
    requires OneCellPerColumn(selected) && NoSelectedKeys(columns)
    requires forall i, id, c :: 0 <= i < |selected| ==> selected[i].0.sourceColumnId != SelectedKey(id, c)
    ensures MergeInvariant(columns, selected, n, Merge(columns, selected, n).0, Merge(columns, selected, n).1)
  {
    hide MergeInvariant, MergeOne, MergeKey, SelectedKey, OneCellPerColumn, NoSelectedKeys;
    if n == 0 {
      MergeStarts(columns, selected);
    } else {
      MergeKeepsInvariant(columns, selected, n - 1);
      var (before, seen) := Merge(columns, selected, n - 1);
      if selected[n - 1].1.id !in seen {
        FreshKey(columns, selected, n - 1, before, seen);
        MergeStep(columns, selected, n - 1, before, seen, MergeKey(before, selected[n - 1]));
      } else {
        MergeSkips(columns, selected, n - 1, before, seen);
      }
    }
  }

  lemma MergeStarts(columns: RawColumns, selected: seq<Selection>)
    requires NoSelectedKeys(columns)
    ensures MergeInvariant(columns, selected, 0, columns, VisibleIds(columns))
  {
  }

  lemma MergeSkips(columns: RawColumns, selected: seq<Selection>, n: nat, merged: RawColumns, seen: set<string>)
    requires n < |selected| && selected[n].1.id in seen
    requires MergeInvariant(columns, selected, n, merged, seen)
    ensures MergeInvariant(columns, selected, n + 1, merged, seen)
  {
  }

  /** A selection whose cell is not yet visible gets a key nobody uses. */
  lemma FreshKey(columns: RawColumns, selected: seq<Selection>, n: nat, merged: RawColumns, seen: set<string>)
    requires n < |selected| && OneCellPerColumn(selected)
    requires MergeInvariant(columns, selected, n, merged, seen)
    requires selected[n].1.id !in seen
    ensures MergeKey(merged, selected[n]) !in merged.at
  {
    var s := selected[n];
    if SelectedKey(s.0.sourceColumnId, s.1.column) in merged.at {
      TakenKeyIsSeen(columns, selected, n, merged, seen);
    }
  }

  lemma TakenKeyIsSeen(columns: RawColumns, selected: seq<Selection>, n: nat, merged: RawColumns, seen: set<string>)
    requires n < |selected| && OneCellPerColumn(selected)
    requires MergeInvariant(columns, selected, n, merged, seen)
    requires SelectedKey(selected[n].0.sourceColumnId, selected[n].1.column) in merged.at
    ensures selected[n].1.id in seen
  {
    var s := selected[n];
    var i :| 0 <= i < n && selected[i].1.column == s.1.column && selected[i].1.id in seen;
    assert selected[i].1 == s.1;
  }

  lemma MergeStep(columns: RawColumns, selected: seq<Selection>, n: nat, merged: RawColumns, seen: set<string>, key: string)
    requires n < |selected|
    requires forall i, id, c :: 0 <= i < |selected| ==> selected[i].0.sourceColumnId != SelectedKey(id, c)
    requires MergeInvariant(columns, selected, n, merged, seen)
    requires key == MergeKey(merged, selected[n]) && key !in merged.at
    ensures MergeInvariant(columns, selected, n + 1, MergeOne(merged, selected[n]), seen + {selected[n].1.id})
  {
    hide SelectedKey, SeenShown, ShapesUsed, NewFromSelected;
    StepShown(merged, seen, selected[n], key);
    StepShapes(selected, n, merged, seen, key);
    StepNew(columns, selected, n, merged, key);
  }

  lemma StepShown(merged: RawColumns, seen: set<string>, s: Selection, key: string)
    requires SeenShown(merged, seen) && key == MergeKey(merged, s) && key !in merged.at
    ensures SeenShown(MergeOne(merged, s), seen + {s.1.id})
  {
    hide SelectedKey;
    var after := MergeOne(merged, s);
    assert after.at[key].sourceCell.id == s.1.id;
    forall id | id in seen
      ensures exists k :: k in after.at && after.at[k].sourceCell.id == id
    {
      var k :| k in merged.at && merged.at[k].sourceCell.id == id;
      assert k in after.at && after.at[k] == merged.at[k];
    }
  }

  lemma StepShapes(selected: seq<Selection>, n: nat, merged: RawColumns, seen: set<string>, key: string)
    requires n < |selected| && ShapesUsed(selected, n, merged, seen)
    requires forall id, c :: selected[n].0.sourceColumnId != SelectedKey(id, c)
    requires key == MergeKey(merged, selected[n])
    ensures ShapesUsed(selected, n + 1, MergeOne(merged, selected[n]), seen + {selected[n].1.id})
  {
    hide SelectedKey;
    var after, s := MergeOne(merged, selected[n]), selected[n];
    forall k, id, c | k in after.at && k == SelectedKey(id, c)
      ensures exists i :: 0 <= i < n + 1 && selected[i].1.column == c && selected[i].1.id in seen + {s.1.id}
    {
      if k == key {
        SelectedKeyColumn(id, c, s.0.sourceColumnId, s.1.column);
        assert selected[n].1.column == c;
      } else {
        var i :| 0 <= i < n && selected[i].1.column == c && selected[i].1.id in seen;
        assert selected[i].1.id in seen + {s.1.id};
      }
    }
  }

  lemma StepNew(columns: RawColumns, selected: seq<Selection>, n: nat, merged: RawColumns, key: string)
    requires n < |selected| && NewFromSelected(columns, selected, n, merged)
    requires key == MergeKey(merged, selected[n]) && key !in merged.at
    ensures NewFromSelected(columns, selected, n + 1, MergeOne(merged, selected[n]))
  {
    hide SelectedKey;
    var after, s := MergeOne(merged, selected[n]), selected[n];
    forall k | k in after.at && k !in columns.at
      ensures exists i :: 0 <= i < n + 1 && after.at[k].sourceCell == Evidence(selected[i].1)
    {
      if k == key {
        assert after.at[k].sourceCell == Evidence(selected[n].1);
      } else {
        var i :| 0 <= i < n && merged.at[k].sourceCell == Evidence(selected[i].1);
      }
    }
  }

  /**
   * After the merge every selected cell is visible with its own evidence, every column that was there
   * is unchanged, and the columns still show only cells of the sheet.
   */
  lemma MergeShowsEverySelectedCell(columns: RawColumns, selected: seq<Selection>, cells: set<Cell>)
    requires UniqueIds(cells) && ShowsCellsOf(columns, cells)
    requires forall i :: 0 <= i < |selected| ==> selected[i].1 in cells
    requires Mergeable(columns, selected)
    ensures var merged := Merge(columns, selected, |selected|).0;
            && (forall i :: 0 <= i < |selected| ==> Visible(merged, selected[i].1))
            && (forall k :: k in columns.at ==> k in merged.at && merged.at[k] == columns.at[k])
            && ShowsCellsOf(merged, cells)
  {
    var n := |selected|;
    hide Merge, SelectedKey, OneCellPerColumn, NoSelectedKeys, ShowsCellsOf, UniqueIds, Visible;
    var (merged, seen) := Merge(columns, selected, n);
    if AllVisible(columns, selected) {
      NothingToMerge(columns, selected, n);
      forall i | 0 <= i < n ensures Visible(merged, selected[i].1) {
        VisibleById(merged, selected[i].1, cells);
      }
    } else {
      MergeKeepsInvariant(columns, selected, n);
      MergedFromSheet(columns, selected, merged, cells);
      forall i | 0 <= i < n ensures Visible(merged, selected[i].1) {
        VisibleById(merged, selected[i].1, cells);
      }
    }
  }

  /** What the merge adds are cells of the sheet. */
  lemma MergedFromSheet(columns: RawColumns, selected: seq<Selection>, merged: RawColumns, cells: set<Cell>)
    requires ShowsCellsOf(columns, cells) && NewFromSelected(columns, selected, |selected|, merged)
    requires forall k :: k in columns.at ==> k in merged.at && merged.at[k] == columns.at[k]
    requires forall i :: 0 <= i < |selected| ==> selected[i].1 in cells
    ensures ShowsCellsOf(merged, cells)
  {
    forall k | k in merged.at ensures exists c :: c in cells && merged.at[k].sourceCell == Evidence(c) {
      if k !in columns.at {
        var i :| 0 <= i < |selected| && merged.at[k].sourceCell == Evidence(selected[i].1);
        assert selected[i].1 in cells;
      }
    }
  }

  lemma VisibleById(columns: RawColumns, cell: Cell, cells: set<Cell>)
    requires UniqueIds(cells) && ShowsCellsOf(columns, cells) && cell in cells
    requires exists k :: k in columns.at && columns.at[k].sourceCell.id == cell.id
    ensures Visible(columns, cell)
  {
    var k :| k in columns.at && columns.at[k].sourceCell.id == cell.id;
    var c :| c in cells && columns.at[k].sourceCell == Evidence(c);
    assert c == cell;
  }

  lemma {:induction false} NothingToMerge(columns: RawColumns, selected: seq<Selection>, n: nat)
    requires n <= |selected| && AllVisible(columns, selected)
    ensures Merge(columns, selected, n) == (columns, VisibleIds(columns))
  {
    if n > 0 {
      NothingToMerge(columns, selected, n - 1);
    }
  }
}
