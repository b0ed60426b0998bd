/**
 The component table and the sheet: x_window_add_items puts the table's values into the cells,
 s_table_gtksheet_to_table reads them back before saving.
 */
module SheetTable {
  import opened Wrappers
  import opened Grid
  import opened CellStore
  import opened ListSort
  import opened StringList
  import opened AttribTable
  import S = Sheet

  /** The sheet shows the first `n` cells of the table, counted row by row, and is blank otherwise. */
  ghost predicate ShowsCells(g: Grid, table: array2<Entry>, row: nat, col: nat)
    reads table
  {
    && |g.rows| == table.Length0 && g.width == table.Length1 && g.Valid()
    && forall i, j | 0 <= i < |g.rows| && 0 <= j < g.width ::
         g.At(i, j) == if i < row || (i == row && j < col) then Shown(table[i, j].value) else None
  }

  /** The component sheet part of x_window_add_items. */
  method TableToSheet(s: S.Sheet, table: array2<Entry>)
    requires s.Stored() && s.Contents() == NewGrid(table.Length0, table.Length1)
    modifies s
    ensures s.Stored() && (old(s.Valid()) ==> s.Valid()) && ShowsCells(s.Contents(), table, table.Length0, 0)
  {
    hide Dense;
    for i := 0 to table.Length0
      invariant s.Stored() && (old(s.Valid()) ==> s.Valid()) && ShowsCells(s.Contents(), table, i, 0)
    {
      for j := 0 to table.Length1
        invariant s.Stored() && (old(s.Valid()) ==> s.Valid()) && ShowsCells(s.Contents(), table, i, j)
      {
        ghost var g := s.Contents();
        if table[i, j].value.Some? {
          s.SetCell(i, j, table[i, j].value);
          SetTextAt(g, i, j, Shown(table[i, j].value));
        }
        s.Shape();
      }
    }
  }

  /** s_table_gtksheet_to_table */
  method SheetToTable(s: S.Sheet, rowList: StringList, colList: StringList, table: array2<Entry>)
    requires s.Stored() && rowList.Valid() && colList.Valid() && rowList.items != []
    requires table.Length0 == |rowList.items| && table.Length1 == |colList.items|
    modifies table
    ensures forall i, j | 0 <= i < table.Length0 && 0 <= j < table.Length1 ::
      && table[i, j].value == s.Contents().At(i, j)
      && table[i, j].rowName == Some(rowList.items[i]) && table[i, j].colName == Some(colList.items[j])
  {
    hide s.Stored, s.Contents;
    var rowItem := rowList.head;
    var row := 0;
    while row < table.Length0
      invariant 0 <= row <= table.Length0 && rowItem == NodeAt(rowList.nodes, row)
      invariant s.Stored()
      invariant forall i, j | 0 <= i < row && 0 <= j < table.Length1 ::
        && table[i, j].value == s.Contents().At(i, j)
        && table[i, j].rowName == Some(rowList.items[i]) && table[i, j].colName == Some(colList.items[j])
    {
      var rowTitle := rowItem.data.value;
      var colItem := colList.head;
      var col := 0;
      while col < table.Length1
        invariant 0 <= col <= table.Length1 && colItem == NodeAt(colList.nodes, col)
        invariant s.Stored()
        invariant forall i, j | 0 <= i < row && 0 <= j < table.Length1 ::
          && table[i, j].value == s.Contents().At(i, j)
          && table[i, j].rowName == Some(rowList.items[i]) && table[i, j].colName == Some(colList.items[j])
        invariant forall j | 0 <= j < col ::
          && table[row, j].value == s.Contents().At(row, j)
          && table[row, j].rowName == Some(rowTitle) && table[row, j].colName == Some(colList.items[j])
      {
        var colTitle := colItem.data.value;
        var value := s.GetText(row, col);
        table[row, col] := table[row, col].(value := value, rowName := Some(rowTitle), colName := Some(colTitle));
        colItem := colItem.next;
        col := col + 1;
      }
      rowItem := rowItem.next;
      row := row + 1;
    }
  }

  /** A table put into a new sheet and read back shows the same values. */
  method ThroughSheet(table: array2<Entry>, comps: StringList, attribs: StringList, rowHeight: nat, ghost ws: seq<Write>)
    requires comps.Valid() && attribs.Valid() && comps.items != [] && attribs.items != []
    requires Holds(table, ws, comps.items, attribs.items) && forall w | w in ws :: w.value != Some("")
    modifies table
    ensures Shows(table, ws, comps.items, attribs.items)
  {
    ghost var rows, cols := comps.items, attribs.items;
    forall i, j | 0 <= i < |rows| && 0 <= j < |cols|
      ensures table[i, j].value == ValueIn(ws, rows[i], cols[j]) == Shown(table[i, j].value)
    {
      assert table[i, j] == EntryOf(ws, rows, cols, i, j);
      LastIn(ws, rows[i], cols[j]);
    }
    hide Holds, ValueIn, comps.Valid;
    var sheet := new S.Sheet(Count(comps), Count(attribs), rowHeight);
    TableToSheet(sheet, table);
    SheetToTable(sheet, comps, attribs, table);
  }

  lemma {:induction false} LastIn(ws: seq<Write>, r: string, c: string)
    ensures LastWrite(ws, r, c).Some? ==> LastWrite(ws, r, c).value in ws
  {
    if ws != [] { LastIn(ws[..|ws| - 1], r, c); }
  }

  lemma {:induction false} WritesNonEmpty(objs: seq<Component>)
    ensures forall w | w in Writes(objs) :: w.value != Some("")
  {
    if objs != [] {
      WritesNonEmpty(objs[..|objs| - 1]);
      var o := objs[|objs| - 1];
      if o.refdes.Some? { WritesOfNonEmpty(o.refdes.value, o.attribs); }
    }
  }

  lemma {:induction false} WritesOfNonEmpty(r: string, attribs: seq<string>)
    ensures forall w | w in WritesOf(r, attribs) :: w.value != Some("")
  {
    if attribs != [] { WritesOfNonEmpty(r, attribs[..|attribs| - 1]); }
  }

  /**
   Loading a design into the sheet and reading the sheet back for saving loses no attribute: the
   pairs saved for a component are exactly those it carries, still in column order.
   */
  method LoadAndSave(objs: seq<Component>, i: nat, stray: bool, rowHeight: nat)
    returns (pairs: StringList, comps: StringList, attribs: StringList, ghost cols: seq<string>)
    requires i < |objs| && objs[i].refdes.Some? && objs[i].attribs != []
    requires UniqueRefdes(objs) && UniqueNames(objs[i].attribs)
    requires AllColumnNames(objs) != [] && Sortable(stray, objs)
    ensures comps.Valid() && attribs.Valid() && objs[i].refdes.value in comps.items && cols == attribs.items
    ensures pairs.Valid() && pairs.head != null && forall x :: x in pairs.items <==> Carries(objs[i].attribs, x)
    ensures pairs.items == RowPairs(Writes(objs), objs[i].refdes.value, cols, |cols|)
    ensures SortedBy(true, stray, cols) && NoRepeats(cols) && forall x :: x in cols <==> x in AllColumnNames(objs)
  {
    hide StringList.Valid, RowNames, ColumnNames, AllColumnNames, Writes, RowPairs, Carries, UniqueNames, Sortable, Holds, SortedBy, NoRepeats;
    var table;
    comps, attribs, table := LoadTable(objs, stray);
    cols := attribs.items;
    var r := objs[i].refdes.value;
    InLists(objs, i);
    NonEmpty(comps.items, RowNames(objs));
    NonEmpty(cols, AllColumnNames(objs));
    WritesNonEmpty(objs);
    ThroughSheet(table, comps, attribs, rowHeight, Writes(objs));
    PlainSorted(objs, cols);
    pairs := CreateAttribPair(r, table, comps, Count(attribs), Writes(objs), cols);
    AllPairs(objs, i, r, cols);
  }
}
