/**
 GtkSheet (gattrib/src/gtksheet_2_2.c) reduced to its cell store, its row and column records and
 their geometry. The fields are the ones the C structure keeps; the arrays that C reallocates are
 sequences that the methods reassign.
 */
module Sheet {
  import opened Wrappers
  import opened Grid
  import opened CellStore
  import opened SheetLines

  const DEFAULT_COLUMN_WIDTH := 80

  /** The spare pointers of every row buffer: sizeof(double) more bytes than it needs, one pointer of 64 bits. */
  const SPARE := 1

  class Sheet {
    var data: seq<RowPtr>
    var row: seq<Line>
    var column: seq<Line>
    var maxRow: int
    var maxCol: int
    var maxAllocRow: int
    var maxAllocCol: int
    var columnTitlesVisible: bool
    var rowTitlesVisible: bool
    var columnTitleHeight: nat
    var rowTitleWidth: nat
    var vOffset: int
    var hOffset: int
    const defaultRowHeight: nat

    /** Every row and column in use has its record. */
    ghost predicate Lined()
      reads this
    {
      -1 <= maxRow < |row| && -1 <= maxCol < |column|
    }

    /** What reading and writing cells rely on: the corner lies inside the sheet or one line beyond. */
    ghost predicate Stored()
      reads this
    {
      && Laid(data, maxAllocRow, maxAllocCol) && Lined()
      && maxAllocRow <= maxRow + 1 && maxAllocCol <= maxCol + 1
    }

    /** What an allocated line beyond the sheet holds is blank, so that it may become part of the sheet. */
    ghost predicate Kept()
      reads this
    {
      && Stored()
      && forall i, j {:trigger TextAt(data, maxAllocRow, maxAllocCol, i, j)} | i == maxRow + 1 || j == maxCol + 1 ::
           TextAt(data, maxAllocRow, maxAllocCol, i, j) == None
    }

    /** What every operation keeps: the allocated corner lies inside the sheet. */
    ghost predicate Valid()
      reads this
    {
      Stored() && maxAllocRow <= maxRow && maxAllocCol <= maxCol
    }

    /** The dense grid of texts the sheet shows. */
    ghost function Contents(): Grid
      reads this
      requires Stored()
    {
      Dense(data, maxAllocRow, maxAllocCol, maxRow + 1, maxCol + 1)
    }

    /** The records of the rows in use, without their cached pixels. */
    ghost function RowRecords(): seq<Line>
      reads this
      requires Lined()
    {
      Records(row[..maxRow + 1])
    }

    ghost function ColumnRecords(): seq<Line>
      reads this
      requires Lined()
    {
      Records(column[..maxCol + 1])
    }

    function RowHeader(): int
      reads this
    {
      if columnTitlesVisible then columnTitleHeight else 0
    }

    function ColumnHeader(): int
      reads this
    {
      if rowTitlesVisible then rowTitleWidth else 0
    }

    ghost predicate RowPixelsExact()
      reads this
      requires Lined()
    {
      PixelsExact(RowHeader(), row[..maxRow + 1])
    }

    ghost predicate ColumnPixelsExact()
      reads this
      requires Lined()
    {
      PixelsExact(ColumnHeader(), column[..maxCol + 1])
    }

    /**
     In terms of the fields: the first row stands below the column titles, if these are shown, and each
     further row below the one before it, if that is shown.
     */
    lemma RowPixels()
      requires Lined()
      ensures RowPixelsExact() <==>
        && (maxRow >= 0 ==> row[0].pixel == if columnTitlesVisible then columnTitleHeight else 0)
        && forall i | 0 < i <= maxRow :: row[i].pixel == row[i - 1].pixel + if row[i - 1].visible then row[i - 1].size else 0
    {
      hide PixelsExact;
      ghost var live := row[..maxRow + 1];
      ExactPixels(RowHeader(), live);
      assert forall i | 0 <= i <= maxRow :: live[i] == row[i];
    }

    /** The first column stands right of the row titles, if these are shown. */
    lemma ColumnPixels()
      requires Lined()
      ensures ColumnPixelsExact() <==>
        && (maxCol >= 0 ==> column[0].pixel == if rowTitlesVisible then rowTitleWidth else 0)
        && forall j | 0 < j <= maxCol ::
             column[j].pixel == column[j - 1].pixel + if column[j - 1].visible then column[j - 1].size else 0
    {
      hide PixelsExact;
      ghost var live := column[..maxCol + 1];
      ExactPixels(ColumnHeader(), live);
      assert forall j | 0 <= j <= maxCol :: live[j] == column[j];
    }

    /** The shape of what the sheet shows. */
    lemma Shape()
      requires Stored()
      ensures Contents().Valid() && |Contents().rows| == maxRow + 1 && Contents().width == maxCol + 1
      ensures |RowRecords()| == maxRow + 1 && |ColumnRecords()| == maxCol + 1
    {
      DenseAt(data, maxAllocRow, maxAllocCol, maxRow + 1, maxCol + 1);
    }

    // ---- reading and writing one cell ----

    /** gtk_sheet_cell_get_text */
    method GetText(i: int, j: int) returns (text: Text)
      requires Stored()
      ensures text == Contents().At(i, j)
    {
      DenseAt(data, maxAllocRow, maxAllocCol, maxRow + 1, maxCol + 1);
      if j > maxCol || i > maxRow { return None; }
      if j < 0 || i < 0 { return None; }
      if i > maxAllocRow || j > maxAllocCol { return None; }
      assert RowReady(data[i], maxAllocCol, i);
      if data[i].NoRow? { return None; }
      if data[i].slots[j].Empty? { return None; }
      if data[i].slots[j].cell.text.None? { return None; }
      if |data[i].slots[j].cell.text.value| == 0 { return None; }
      return data[i].slots[j].cell.text;
    }

    /** gtk_sheet_real_cell_clear */
    method RealCellClear(i: nat, j: nat, remove: bool)
      requires i <= maxAllocRow && j <= maxAllocCol ==>
        i < |data| && (data[i].Buffer? ==> j < |data[i].slots| && !data[i].slots[j].Uninit?)
      modifies `data
      ensures data ==
        if i <= maxAllocRow && j <= maxAllocCol && old(data)[i].Buffer? && (remove || (i <= maxRow && j <= maxCol))
        then old(data)[i := Buffer(old(data)[i].slots[j := Cleared(old(data)[i].slots[j], remove)])]
        else old(data)
    {
      if i > maxAllocRow || j > maxAllocCol { return; }
      if data[i].NoRow? { return; }
      ghost var before, slots := data, data[i].slots;
      assert slots[j := slots[j]] == slots && before[i := Buffer(slots)] == before;
      if data[i].slots[j].Empty? { return; }
      var cell := data[i].slots[j].cell;
      if i <= maxRow && j <= maxCol && Shown(cell.text).Some? {
        data := data[i := Buffer(data[i].slots[j := Full(cell.(text := None))])];
      }
      assert data[i].slots[j := Empty] == slots[j := Empty];
      if remove {
        data := data[i := Buffer(data[i].slots[j := Empty])];
      }
      assert remove || (i <= maxRow && j <= maxCol) ==> data == before[i := Buffer(slots[j := Cleared(slots[j], remove)])];
    }

    /** GrowSheet: moves the allocated corner and blanks exactly what it adds. */
    method GrowSheet(newRows: nat, newCols: nat)
      requires Laid(data, maxAllocRow, maxAllocCol)
      requires newRows > 0 ==> maxAllocCol <= maxCol + SPARE
      modifies `data, `maxAllocRow, `maxAllocCol
      ensures maxAllocRow == old(maxAllocRow) + newRows && maxAllocCol == old(maxAllocCol) + newCols
      ensures Laid(data, maxAllocRow, maxAllocCol)
      ensures forall i, j | 0 <= i <= maxAllocRow && 0 <= j <= maxAllocCol ::
        data[i].slots[j] ==
        if i <= old(maxAllocRow) && j <= old(maxAllocCol) then old(data)[i].slots[j] else Empty
    {
      hide Laid;
      ghost var was := data;
      var iniRow, iniCol := maxAllocRow + 1, maxAllocCol + 1;
      LaidRows(data, maxAllocRow, maxAllocCol);
      maxAllocCol := maxAllocCol + newCols;
      maxAllocRow := maxAllocRow + newRows;
      if newRows > 0 {
        AddBuffers(iniRow, iniCol);
      }
      ghost var tall := data;
      assert forall k | 0 <= k <= maxAllocRow :: RowReady(tall[k], iniCol - 1, k) by {
        assert forall k | 0 <= k < iniRow :: tall[k] == was[k];
      }
      if newCols > 0 {
        WidenBuffers(iniCol);
      }
      GrownLaid(was, iniRow - 1, tall, data, maxAllocRow, iniCol - 1, maxAllocCol);
    }

    /** Its loop over the new rows: buffers for the columns of the sheet, blank up to the allocated ones. */
    method AddBuffers(iniRow: nat, iniCol: nat)
      requires iniRow <= |data| && iniRow <= maxAllocRow && iniCol <= maxCol + 1 + SPARE
      modifies `data
      ensures |data| == maxAllocRow + 1 && forall k | 0 <= k < iniRow :: data[k] == old(data)[k]
      ensures forall k | iniRow <= k <= maxAllocRow :: RowBlank(data[k], iniCol - 1)
    {
      ghost var was := data;
      var junk: RowPtr := *;
      data := Realloc(data, maxAllocRow + 1, junk);
      var i := iniRow;
      while i <= maxAllocRow
        modifies `data
        invariant iniRow <= i <= maxAllocRow + 1 && |data| == maxAllocRow + 1
        invariant forall k | 0 <= k < iniRow :: data[k] == was[k]
        invariant forall k | iniRow <= k < i :: RowBlank(data[k], iniCol - 1)
      {
        var slots := seq(maxCol + 1 + SPARE, _ => Uninit);
        var j := 0;
        while j < iniCol
          invariant 0 <= j <= iniCol && |slots| == maxCol + 1 + SPARE
          invariant forall k | 0 <= k < j :: slots[k].Empty?
        {
          slots := slots[j := Empty];
          j := j + 1;
        }
        data := data[i := Buffer(slots)];
        i := i + 1;
      }
    }

    /** Its loop over all rows: every buffer gets blank slots for the new columns. */
    method WidenBuffers(iniCol: nat)
      requires maxAllocRow < |data| && iniCol <= maxAllocCol + 1
      requires forall k | 0 <= k <= maxAllocRow :: data[k].Buffer? && iniCol <= |data[k].slots|
      modifies `data
      ensures |data| == |old(data)|
      ensures forall k | 0 <= k <= maxAllocRow :: Widened(data[k], old(data)[k], iniCol, maxAllocCol)
    {
      ghost var tall := data;
      var i := 0;
      while i <= maxAllocRow
        modifies `data
        invariant 0 <= i && |data| == |tall|
        invariant forall k | i <= k <= maxAllocRow :: data[k] == tall[k]
        invariant forall k | 0 <= k < i && k <= maxAllocRow :: Widened(data[k], tall[k], iniCol, maxAllocCol)
      {
        var junk: Slot := *;
        var wide := Realloc(data[i].slots, maxAllocCol + 1 + SPARE, junk);
        var j := iniCol;
        while j <= maxAllocCol
          invariant iniCol <= j <= maxAllocCol + 1 && |wide| == maxAllocCol + 1 + SPARE
          invariant forall k | 0 <= k < iniCol :: wide[k] == tall[i].slots[k]
          invariant forall k | iniCol <= k < j :: wide[k].Empty?
        {
          wide := wide[j := Empty];
          j := j + 1;
        }
        data := data[i := Buffer(wide)];
        i := i + 1;
      }
    }

    /** CheckBounds */
    method CheckBounds(i: nat, j: nat)
      requires Stored() && i <= maxRow && j <= maxCol
      modifies `data, `maxAllocRow, `maxAllocCol
      ensures Stored() && (old(Valid()) ==> Valid()) && (old(Kept()) ==> Kept()) && i <= maxAllocRow && j <= maxAllocCol
      ensures (old(maxAllocRow <= maxRow) ==> maxAllocRow <= maxRow) && (old(maxAllocCol <= maxCol) ==> maxAllocCol <= maxCol)
      ensures maxAllocRow >= old(maxAllocRow) && maxAllocCol >= old(maxAllocCol)
      ensures Contents() == old(Contents())
    {
      var newRows, newCols := 0, 0;
      if j > maxAllocCol { newCols := j - maxAllocCol; }
      if i > maxAllocRow { newRows := i - maxAllocRow; }
      if newRows > 0 || newCols > 0 {
        GrowSheet(newRows, newCols);
        assert Grown(data, maxAllocRow, maxAllocCol, old(data), old(maxAllocRow), old(maxAllocCol));
        GrownShows(data, maxAllocRow, maxAllocCol, old(data), old(maxAllocRow), old(maxAllocCol));
        DenseAt(old(data), old(maxAllocRow), old(maxAllocCol), maxRow + 1, maxCol + 1);
        DenseIs(data, maxAllocRow, maxAllocCol, maxRow + 1, maxCol + 1, old(Contents()));
      }
    }

    /** gtk_sheet_set_cell */
    method SetCell(i: int, j: int, text: Option<string>)
      requires Stored()
      modifies `data, `maxAllocRow, `maxAllocCol
      ensures Stored() && (old(Valid()) ==> Valid()) && (old(Kept()) ==> Kept())
      ensures (old(maxAllocRow <= maxRow) ==> maxAllocRow <= maxRow) && (old(maxAllocCol <= maxCol) ==> maxAllocCol <= maxCol)
      ensures maxAllocRow >= old(maxAllocRow) && maxAllocCol >= old(maxAllocCol)
      ensures Contents() == SetText(old(Contents()), i, j, Shown(text))
    {
      hide Dense, SetText;
      Shape();
      if j > maxCol || i > maxRow || j < 0 || i < 0 {
        SetTextOutside(Contents(), i, j, Shown(text));
        return;
      }
      CheckBounds(i, j);
      assert RowReady(data[i], maxAllocCol, i);
      var cell := if data[i].slots[j].Empty? then Cell(0, 0, None) else data[i].slots[j].cell;
      cell := cell.(row := i);
      cell := cell.(col := j);
      if cell.text.Some? {
        cell := cell.(text := None);
      }
      if text.Some? {
        cell := cell.(text := text);
      }
      SetSlot(data, maxAllocRow, maxAllocCol, maxRow + 1, maxCol + 1, i, j, Full(cell));
      data := data[i := Buffer(data[i].slots[j := Full(cell)])];
    }

    /** gtk_sheet_cell_clear (remove is false) and gtk_sheet_cell_delete (remove is true) */
    method CellClear(i: int, j: int, remove: bool)
      requires Stored()
      modifies `data
      ensures Stored() && (old(Valid()) ==> Valid()) && (old(Kept()) ==> Kept())
      ensures Contents() == SetText(old(Contents()), i, j, None)
    {
      hide Dense, SetText;
      Shape();
      if j > maxCol || i > maxRow || j < 0 || i < 0 {
        SetTextOutside(Contents(), i, j, None);
        return;
      }
      if j > maxAllocCol || i > maxAllocRow {
        ClearBeyond(data, maxAllocRow, maxAllocCol, maxRow + 1, maxCol + 1, i, j);
        return;
      }
      assert RowReady(data[i], maxAllocCol, i);
      SetSlot(data, maxAllocRow, maxAllocCol, maxRow + 1, maxCol + 1, i, j, Cleared(data[i].slots[j], remove));
      RealCellClear(i, j, remove);
    }

    // ---- rows and columns at the end ----

    /** AddRow: what a row beyond the sheet holds shows. */
    method AddRow(n: nat)
      requires Stored()
      modifies `row, `maxRow
      ensures Stored() && (old(Valid()) ==> Valid()) && (old(Kept()) ==> Kept()) && (n > 0 ==> maxAllocRow <= maxRow)
      ensures maxRow == old(maxRow) + n && |row| == maxRow + 1
      ensures Contents() == old(Dense(data, maxAllocRow, maxAllocCol, maxRow + 1 + n, maxCol + 1))
      ensures old(Kept()) ==> Contents() == InsertRows(old(Contents()), old(maxRow) + 1, n)
      ensures RowRecords() == old(RowRecords()) + FreshLines(n, defaultRowHeight)
      ensures old(RowPixelsExact()) ==> (RowPixelsExact() <==>
        n == 0 || old(maxRow) == -1 || old(Extent(row[maxRow]) == row[maxRow].size))
    {
      hide Dense, InsertRows, Records, FreshLines, PixelsExact;
      if Kept() {
        MoreRows(data, maxAllocRow, maxAllocCol, maxRow + 1, maxCol + 1, maxRow + 1, n);
      }
      row := AddLines(row, maxRow, n, defaultRowHeight, RowHeader());
      maxRow := maxRow + n;
      assert row[..maxRow + 1] == row;
    }

    /** AddColumn: what a column beyond the sheet holds shows. */
    method AddColumn(n: nat)
      requires Stored()
      modifies `column, `maxCol
      ensures Stored() && (old(Valid()) ==> Valid()) && (old(Kept()) ==> Kept()) && (n > 0 ==> maxAllocCol <= maxCol)
      ensures maxCol == old(maxCol) + n && |column| == maxCol + 1
      ensures Contents() == old(Dense(data, maxAllocRow, maxAllocCol, maxRow + 1, maxCol + 1 + n))
      ensures old(Kept()) ==> Contents() == InsertColumns(old(Contents()), old(maxCol) + 1, n)
      ensures ColumnRecords() == old(ColumnRecords()) + FreshLines(n, DEFAULT_COLUMN_WIDTH)
      ensures old(ColumnPixelsExact()) ==> (ColumnPixelsExact() <==>
        n == 0 || old(maxCol) == -1 || old(Extent(column[maxCol]) == column[maxCol].size))
    {
      hide Dense, InsertColumns, Records, FreshLines, PixelsExact;
      if Kept() {
        MoreColumns(data, maxAllocRow, maxAllocCol, maxRow + 1, maxCol + 1, maxCol + 1, n);
      }
      column := AddLines(column, maxCol, n, DEFAULT_COLUMN_WIDTH, ColumnHeader());
      maxCol := maxCol + n;
      assert column[..maxCol + 1] == column;
    }

    // ---- insertion ----

    /** The inner loop of InsertRow and DeleteRow: every cell of row `i` learns its new row. */
    method RenumberRow(i: nat)
      requires i < |data| && data[i].Buffer? && -1 <= maxAllocCol < |data[i].slots|
      modifies `data
      ensures |data| == |old(data)| && forall k | 0 <= k < |data| && k != i :: data[k] == old(data)[k]
      ensures Renumbered(data[i], old(data)[i], maxAllocCol, i)
    {
      ghost var was := data;
      var j := 0;
      while j <= maxAllocCol
        modifies `data
        invariant 0 <= j <= maxAllocCol + 1
        invariant |data| == |was| && forall k | 0 <= k < |data| && k != i :: data[k] == was[k]
        invariant data[i].Buffer? && |data[i].slots| == |was[i].slots|
        invariant forall k | 0 <= k < |data[i].slots| ::
          data[i].slots[k] == if k < j then InRow(was[i].slots[k], i) else was[i].slots[k]
      {
        if data[i].slots[j].Full? {
          data := data[i := Buffer(data[i].slots[j := Full(data[i].slots[j].cell.(row := i))])];
        }
        j := j + 1;
      }
    }

    /** The descending swap loop of InsertRow, run on the grown row array. */
    method RotateRows(at: nat, n: nat)
      requires Laid(data, maxAllocRow, maxAllocCol) && at + n <= maxAllocRow + 1
      requires forall k | maxAllocRow - n < k <= maxAllocRow :: RowBlank(data[k], maxAllocCol)
      modifies `data
      ensures maxAllocRow < |data| == |old(data)|
      ensures forall k | 0 <= k <= maxAllocRow :: PushedDownRow(data[k], old(data), maxAllocCol, at, n, k)
    {
      ghost var g := data;
      var i := maxAllocRow;
      while i >= at + n
        modifies `data
        invariant at + n - 1 <= i <= maxAllocRow < |g| && |data| == |g|
        invariant forall k | i < k <= maxAllocRow :: PushedDownRow(data[k], g, maxAllocCol, at, n, k)
        invariant forall k | i - n < k <= i :: RowBlank(data[k], maxAllocCol)
        invariant forall k | 0 <= k <= i - n :: data[k] == g[k]
      {
        assert RowReady(g[i - n], maxAllocCol, i - n);
        var aux := data[i];
        data := data[i := data[i - n]];
        RenumberRow(i);
        data := data[i - n := aux];
        i := i - 1;
      }
    }

    /** The cell part of InsertRow, run once maxrow has grown by `n`. */
    method PushRowsDown(at: nat, n: nat)
      requires Laid(data, maxAllocRow, maxAllocCol) && maxAllocRow + n <= maxRow + 1 && maxAllocCol <= maxCol + 1
      requires n <= maxRow + 1 && -1 <= maxCol
      requires at <= maxRow + 1 - n || forall i, j | i >= maxRow + 1 - n :: TextAt(data, maxAllocRow, maxAllocCol, i, j) == None
      modifies `data, `maxAllocRow, `maxAllocCol
      ensures Laid(data, maxAllocRow, maxAllocCol) && maxAllocCol == old(maxAllocCol)
      ensures maxAllocRow == old(maxAllocRow) + if at <= old(maxAllocRow) then n else 0
      ensures if at <= old(maxAllocRow)
        then RowsMoved(data, maxAllocRow, old(data), old(maxAllocRow), maxAllocCol, at, n)
        else data == old(data)
      ensures Dense(data, maxAllocRow, maxAllocCol, maxRow + 1, maxCol + 1) ==
        InsertRows(old(Dense(data, maxAllocRow, maxAllocCol, maxRow + 1 - n, maxCol + 1)), at, n)
    {
      hide Dense, InsertRows, PushedDownRow, RowsMoved;
      ghost var mar, was := maxAllocRow, data;
      if at <= maxAllocRow {
        GrowSheet(n, 0);
        ghost var g := data;
        assert Grown(g, maxAllocRow, maxAllocCol, was, mar, maxAllocCol);
        RotateRows(at, n);
        InsertedRows(was, mar, maxAllocCol, maxRow + 1 - n, maxCol + 1, g, data, at, n);
      } else {
        MoreRows(was, mar, maxAllocCol, maxRow + 1 - n, maxCol + 1, at, n);
      }
    }

    /** InsertRow */
    method InsertRow(at: nat, n: nat)
      requires Stored() && (at <= maxRow + 1 || Kept())
      modifies `data, `row, `maxRow, `maxAllocRow, `maxAllocCol
      ensures Stored() && (old(Valid()) ==> Valid()) && (old(Kept()) ==> Kept()) && maxRow == old(maxRow) + n
      ensures (old(maxAllocRow <= maxRow) ==> maxAllocRow <= maxRow) && (old(maxAllocCol <= maxCol) ==> maxAllocCol <= maxCol)
      ensures n > 0 && at > old(maxRow) + 1 ==> maxAllocRow <= maxRow
      ensures Contents() == InsertRows(old(Contents()), at, n)
      ensures RowRecords() == Splice(old(RowRecords()), at, FreshLines(n, defaultRowHeight))
      ensures RowPixelsExact()
    {
      hide Dense, Laid, InsertRows, Records, Splice, FreshLines, PixelsExact;
      if Kept() && maxAllocRow < at { BlankBelow(); }
      AddRow(n);
      assert row[..maxRow + 1] == row;
      row := RotateLines(row, maxRow, at, n, defaultRowHeight, old(RowRecords()));
      assert row[..maxRow + 1] == row;
      PushRowsDown(at, n);
      row := RecalcPixels(row, maxRow, RowHeader());
    }

    /** Behind a sheet that is kept there is no text at all. */
    lemma BlankBelow()
      requires Kept()
      ensures forall i, j | i >= maxRow + 1 || j >= maxCol + 1 :: TextAt(data, maxAllocRow, maxAllocCol, i, j) == None
    {
    }

    /** Both column loops move a cell into a cleared slot of its row, and tell it its new column. */
    method MoveSlot(i: nat, to: nat, from: nat)
      requires i < |data| && data[i].Buffer? && to < |data[i].slots| && from < |data[i].slots|
      modifies `data
      ensures var p := old(data)[i].slots;
        data == old(data)[i := Buffer(p[to := InColumn(p[from], to)][from := Empty])]
    {
      ghost var was := data;
      ghost var p := data[i].slots;
      data := data[i := Buffer(data[i].slots[to := data[i].slots[from]])];
      if data[i].slots[to].Full? {
        data := data[i := Buffer(data[i].slots[to := Full(data[i].slots[to].cell.(col := to))])];
      }
      data := data[i := Buffer(data[i].slots[from := Empty])];
      assert data[i].slots == p[to := InColumn(p[from], to)][from := Empty];
      assert data == was[i := Buffer(p[to := InColumn(p[from], to)][from := Empty])];
    }

    /** The step of InsertColumn: the slot is cleared and takes the cell of another, or stays empty if it is that one. */
    method ReplaceSlot(i: nat, to: nat, from: nat)
      requires i <= maxAllocRow < |data| && data[i].Buffer? && from <= to <= maxAllocCol < |data[i].slots|
      requires !data[i].slots[to].Uninit?
      modifies `data
      ensures |data| == |old(data)| && forall k | 0 <= k < |data| && k != i :: data[k] == old(data)[k]
      ensures var p := old(data)[i].slots;
        && data[i].Buffer? && |data[i].slots| == |p|
        && forall k | 0 <= k < |p| :: data[i].slots[k] ==
             if k == from then Empty else if k == to then InColumn(p[from], to) else p[k]
    {
      RealCellClear(i, to, true);
      MoveSlot(i, to, from);
    }

    /** The inner loop of InsertColumn on row `i`, whose last `n` slots are still blank. */
    method PushRight(i: nat, at: nat, n: nat)
      requires i <= maxAllocRow < |data| && RowReady(data[i], maxAllocCol, i) && at + n <= maxAllocCol + 1
      requires forall j | maxAllocCol - n < j <= maxAllocCol :: data[i].slots[j].Empty?
      modifies `data
      ensures |data| == |old(data)| && forall k | 0 <= k < |data| && k != i :: data[k] == old(data)[k]
      ensures PushedRight(data[i], old(data)[i], maxAllocCol, at, n)
    {
      ghost var was := data;
      ghost var p := was[i].slots;
      hide InColumn;
      var j := maxAllocCol;
      while j >= at + n
        modifies `data
        invariant at + n - 1 <= j <= maxAllocCol
        invariant |data| == |was| && forall k | 0 <= k < |data| && k != i :: data[k] == was[k]
        invariant data[i].Buffer? && |data[i].slots| == |p|
        invariant forall k | j < k <= maxAllocCol :: data[i].slots[k] == PushedSlot(p, at, n, k)
        invariant forall k | j - n < k <= j :: data[i].slots[k].Empty?
        invariant forall k | 0 <= k <= j - n :: data[i].slots[k] == p[k]
      {
        assert Ready(p[j - n], i, j - n);
        ReplaceSlot(i, j, j - n);
        j := j - 1;
      }
    }

    /** The cell part of InsertColumn, run once maxcol has grown by `n`. */
    method PushColumnsRight(at: nat, n: nat)
      requires Laid(data, maxAllocRow, maxAllocCol) && maxAllocRow <= maxRow + 1 && maxAllocCol + n <= maxCol + 1
      requires -1 <= maxRow && n <= maxCol + 1
      requires at <= maxCol + 1 - n || forall i, j | j >= maxCol + 1 - n :: TextAt(data, maxAllocRow, maxAllocCol, i, j) == None
      modifies `data, `maxAllocRow, `maxAllocCol
      ensures Laid(data, maxAllocRow, maxAllocCol) && maxAllocRow == old(maxAllocRow)
      ensures maxAllocCol == old(maxAllocCol) + if at <= old(maxAllocCol) then n else 0
      ensures if at <= old(maxAllocCol)
        then ColumnsMoved(data, maxAllocCol, old(data), maxAllocRow, old(maxAllocCol), at, n)
        else data == old(data)
      ensures Dense(data, maxAllocRow, maxAllocCol, maxRow + 1, maxCol + 1) ==
        var was := old(Dense(data, maxAllocRow, maxAllocCol, maxRow + 1, maxCol + 1 - n));
        if n == 0 then EraseFrom(was, at) else InsertColumns(was, at, n)
    {
      hide Dense, InsertColumns, EraseFrom, PushedRight, ColumnsMoved;
      ghost var mac, was := maxAllocCol, data;
      if at <= maxAllocCol {
        GrowSheet(0, n);
        ghost var g := data;
        assert Grown(g, maxAllocRow, maxAllocCol, was, maxAllocRow, mac);
        var i := 0;
        while i <= maxAllocRow
          modifies `data
          invariant 0 <= i <= maxAllocRow + 1 && |data| == |g|
          invariant forall k | 0 <= k < i :: PushedRight(data[k], g[k], maxAllocCol, at, n)
          invariant forall k | i <= k < |g| :: data[k] == g[k]
        {
          assert RowReady(g[i], maxAllocCol, i);
          PushRight(i, at, n);
          i := i + 1;
        }
        InsertedColumns(was, maxAllocRow, mac, maxRow + 1, maxCol + 1 - n, g, data, at, n);
      } else if n > 0 {
        MoreColumns(was, maxAllocRow, mac, maxRow + 1, maxCol + 1 - n, at, n);
      } else {
        EraseBeyond(was, maxAllocRow, mac, maxRow + 1, maxCol + 1, at);
      }
    }

    /** InsertColumn. With n = 0 it erases what stands from `at` on: see SheetRuns.InsertNoColumn. */
    method InsertColumn(at: nat, n: nat)
      requires Stored() && (at <= maxCol + 1 || Kept())
      modifies `data, `column, `maxCol, `maxAllocRow, `maxAllocCol
      ensures Stored() && (old(Valid()) ==> Valid()) && (old(Kept()) ==> Kept()) && maxCol == old(maxCol) + n
      ensures (old(maxAllocRow <= maxRow) ==> maxAllocRow <= maxRow) && (old(maxAllocCol <= maxCol) ==> maxAllocCol <= maxCol)
      ensures n > 0 && at > old(maxCol) + 1 ==> maxAllocCol <= maxCol
      ensures Contents() == if n == 0 then EraseFrom(old(Contents()), at) else InsertColumns(old(Contents()), at, n)
      ensures ColumnRecords() == Splice(old(ColumnRecords()), at, FreshLines(n, DEFAULT_COLUMN_WIDTH))
      ensures ColumnPixelsExact()
    {
      hide Dense, Laid, InsertColumns, EraseFrom, Records, Splice, FreshLines, PixelsExact;
      if Kept() && maxAllocCol < at { BlankBelow(); }
      AddColumn(n);
      assert column[..maxCol + 1] == column;
      column := RotateLines(column, maxCol, at, n, DEFAULT_COLUMN_WIDTH, old(ColumnRecords()));
      assert column[..maxCol + 1] == column;
      PushColumnsRight(at, n);
      column := RecalcPixels(column, maxCol, ColumnHeader());
    }

    // ---- deletion ----

    method ClearRow(i: nat)
      requires -1 <= maxAllocCol && i <= maxAllocRow < |data| && data[i].Buffer? && maxAllocCol < |data[i].slots|
      requires forall j | 0 <= j <= maxAllocCol :: !data[i].slots[j].Uninit?
      modifies `data
      ensures |data| == |old(data)| && forall k | 0 <= k < |data| && k != i :: data[k] == old(data)[k]
      ensures RowBlank(data[i], maxAllocCol)
    {
      ghost var was := data;
      var j := 0;
      while j <= maxAllocCol
        modifies `data
        invariant 0 <= j <= maxAllocCol + 1
        invariant |data| == |was| && forall k | 0 <= k < |data| && k != i :: data[k] == was[k]
        invariant data[i].Buffer? && maxAllocCol < |data[i].slots|
        invariant forall k | 0 <= k < j :: data[i].slots[k].Empty?
        invariant forall k | j <= k <= maxAllocCol :: !data[i].slots[k].Uninit?
      {
        RealCellClear(i, j, true);
        j := j + 1;
      }
    }

    /** The first loop over the cells in DeleteRow: each row in turn is cleared and swapped with the one `n` below. */
    method PullRowsUp(at: nat, n: nat)
      requires Laid(data, maxAllocRow, maxAllocCol) && 0 < n && at + n <= maxRow + 1
      modifies `data
      ensures |data| == |old(data)|
      ensures PulledUp(data, old(data), maxAllocRow, maxAllocCol, at, n, maxRow + 1 - n)
    {
      ghost var was := data;
      var i := at;
      while i <= maxRow - n
        modifies `data
        invariant at <= i <= maxRow - n + 1 && |data| == |was|
        invariant PulledUp(data, was, maxAllocRow, maxAllocCol, at, n, i)
      {
        ghost var before := data;
        if i <= maxAllocRow {
          assert RowReady(was[i], maxAllocCol, i) && PulledUpRow(data[i], was, maxAllocRow, maxAllocCol, at, n, i, i);
          ClearRow(i);
        }
        if i + n <= maxAllocRow {
          assert RowReady(was[i + n], maxAllocCol, i + n);
          assert PulledUpRow(data[i + n], was, maxAllocRow, maxAllocCol, at, n, i, i + n);
          var aux := data[i];
          data := data[i := data[i + n]];
          data := data[i + n := aux];
          RenumberRow(i);
        }
        forall k | 0 <= k <= maxAllocRow
          ensures PulledUpRow(data[k], was, maxAllocRow, maxAllocCol, at, n, i + 1, k)
        {
          assert PulledUpRow(before[k], was, maxAllocRow, maxAllocCol, at, n, i, k);
        }
        i := i + 1;
      }
    }

    /** The last loop of DeleteRow over the rows: the buffers from `first` on are freed, but for the very first. */
    method FreeRows(first: nat)
      requires maxAllocRow < |data|
      modifies `data
      ensures |data| == |old(data)|
      ensures forall k | 0 <= k < |data| ::
        data[k] == if first <= k <= maxAllocRow && k > 0 then NoRow else old(data)[k]
    {
      ghost var moved := data;
      var i := first;
      while i <= maxAllocRow
        modifies `data
        invariant first <= i && |data| == |moved|
        invariant forall k | 0 <= k < |data| ::
          data[k] == if first <= k < i && k <= maxAllocRow && k > 0 then NoRow else moved[k]
      {
        if i > 0 && data[i].Buffer? {
          data := data[i := NoRow];
        }
        i := i + 1;
      }
    }

    /**
     The cell part of DeleteRow, before maxrow shrinks. If a row beyond the sheet was allocated, its
     place in the corner is taken by a freed buffer, or by the first one, which is neither cleared nor freed.
     */
    method PullAndFreeRows(at: nat, n: nat)
      requires Stored() && 0 < n && at + n <= maxRow + 1
      modifies `data, `maxAllocRow
      ensures maxAllocRow == old(maxAllocRow) - if at <= old(maxAllocRow) then Min(n, old(maxAllocRow) - at + 1) else 0
      ensures var left := Min(maxAllocRow, maxRow - n);
        && Laid(data, left, maxAllocCol)
        && (forall i, j {:trigger TextAt(data, left, maxAllocCol, i, j)} | i < maxRow + 1 - n ::
              TextAt(data, left, maxAllocCol, i, j) ==
              old(TextAt(data, maxAllocRow, maxAllocCol, if i < at then i else i + n, j)))
        && Dense(data, left, maxAllocCol, maxRow + 1 - n, maxCol + 1) ==
             DeleteRows(old(Dense(data, maxAllocRow, maxAllocCol, maxRow + 1, maxCol + 1)), at, n)
      ensures old(maxAllocRow) > maxRow ==>
        && maxAllocRow == maxRow + 1 - n < |data|
        && data[maxAllocRow] == if maxAllocRow == 0 then old(data)[0] else NoRow
    {
      hide Dense, DeleteRows, PulledUp;
      if at > maxAllocRow {
        FewerRows(data, maxAllocRow, maxAllocCol, maxRow + 1, maxCol + 1, at, n);
        return;
      }
      PullRowsUp(at, n);
      ghost var moved := data;
      FreeRows(maxRow - n + 1);
      DeletedRows(old(data), maxAllocRow, maxAllocCol, maxRow + 1, maxCol + 1, moved, data, at, n);
      if maxRow + 1 == n {
        FirstRowStays(old(data), moved, maxAllocRow, maxAllocCol, at, n);
      }
      maxAllocRow := maxAllocRow - Min(n, maxAllocRow - at + 1);
      maxAllocRow := Min(maxAllocRow, maxRow);
    }

    /** DeleteRow. Only a row allocated beyond the sheet can keep it from showing what the grid shows. */
    method DeleteRow(at: nat, count: int)
      requires Stored()
      modifies `data, `row, `maxRow, `maxAllocRow
      ensures Lined() && (old(Valid()) ==> Valid())
      ensures maxRow == old(maxRow) - if count <= 0 || at > old(maxRow) then 0 else Min(count, old(maxRow) - at + 1)
      ensures Laid(data, Min(maxAllocRow, maxRow), maxAllocCol)
        && Dense(data, Min(maxAllocRow, maxRow), maxAllocCol, maxRow + 1, maxCol + 1) ==
             if count <= 0 then old(Contents()) else DeleteRows(old(Contents()), at, count)
      ensures old(maxAllocRow <= maxRow) ==> maxAllocRow <= maxRow
      ensures old(maxAllocRow <= maxRow) || maxRow == old(maxRow) ==>
        && Stored() && (old(Kept()) ==> Kept())
        && Contents() == if count <= 0 then old(Contents()) else DeleteRows(old(Contents()), at, count)
      ensures old(maxAllocRow > maxRow) && maxRow < old(maxRow) ==>
        && maxAllocRow == maxRow + 1 < |data|
        && data[maxAllocRow] == if maxAllocRow == 0 then old(data)[0] else NoRow
      ensures RowRecords() == if count <= 0 then old(RowRecords()) else Cut(old(RowRecords()), at, count)
      ensures if count > 0 && at <= old(maxRow) then RowPixelsExact() else row == old(row)
    {
      hide Dense, Laid, Records, Cut, PixelsExact;
      Shape();
      DenseClip(data, maxAllocRow, maxAllocCol, maxRow + 1, maxCol + 1);
      if count <= 0 { return; }
      if at > maxRow {
        CutBeyond(Contents().rows, at, count);
        CutBeyond(RowRecords(), at, count);
        return;
      }
      var n := Min(count, maxRow - at + 1);
      CutClip(Contents().rows, at, n, count);
      CutClip(RowRecords(), at, n, count);
      RemoveRows(at, n);
    }

    /** Its effect for rows that are there. */
    method RemoveRows(at: nat, n: nat)
      requires Stored() && 0 < n && at + n <= maxRow + 1
      modifies `data, `row, `maxRow, `maxAllocRow
      ensures Lined() && (old(Valid()) ==> Valid()) && maxRow == old(maxRow) - n
      ensures Laid(data, Min(maxAllocRow, maxRow), maxAllocCol)
        && Dense(data, Min(maxAllocRow, maxRow), maxAllocCol, maxRow + 1, maxCol + 1) == DeleteRows(old(Contents()), at, n)
      ensures old(maxAllocRow <= maxRow) ==>
        && maxAllocRow <= maxRow && Stored() && (old(Kept()) ==> Kept())
        && Contents() == DeleteRows(old(Contents()), at, n)
      ensures old(maxAllocRow > maxRow) ==>
        && maxAllocRow == maxRow + 1 < |data|
        && data[maxAllocRow] == if maxAllocRow == 0 then old(data)[0] else NoRow
      ensures RowRecords() == Cut(old(RowRecords()), at, n) && RowPixelsExact()
    {
      hide Dense, Records, Cut, PixelsExact, RowReady, DeleteRows;
      row := DeleteLines(row, maxRow, at, n);
      PullAndFreeRows(at, n);
      maxRow := maxRow - n;
      row := RecalcPixels(row, maxRow, RowHeader());
    }

    /** The inner loop of DeleteColumn: column `i` is cleared and, as far as there is one, takes column `i + n`. */
    method PullColumn(at: nat, n: nat, i: nat, ghost was: seq<RowPtr>)
      requires Laid(was, maxAllocRow, maxAllocCol)
      requires at <= i <= maxAllocCol && 0 < n && |data| == |was|
      requires forall k | 0 <= k <= maxAllocRow :: PulledLeft(data[k], was[k], maxAllocCol, at, n, i)
      modifies `data
      ensures |data| == |was|
      ensures forall k | 0 <= k <= maxAllocRow :: PulledLeft(data[k], was[k], maxAllocCol, at, n, i + 1)
    {
      var j := 0;
      while j <= maxAllocRow
        modifies `data
        invariant 0 <= j <= maxAllocRow + 1 && |data| == |was|
        invariant forall k | 0 <= k < j :: PulledLeft(data[k], was[k], maxAllocCol, at, n, i + 1)
        invariant forall k | j <= k <= maxAllocRow :: PulledLeft(data[k], was[k], maxAllocCol, at, n, i)
      {
        ghost var before := data[j];
        assert RowReady(was[j], maxAllocCol, j);
        assert before.slots[i] == PulledSlot(was[j].slots, maxAllocCol, at, n, i, i);
        RealCellClear(j, i, true);
        if i + n <= maxAllocCol {
          assert before.slots[i + n] == PulledSlot(was[j].slots, maxAllocCol, at, n, i, i + n);
          MoveSlot(j, i, i + n);
        }
        forall c | 0 <= c <= maxAllocCol
          ensures data[j].slots[c] == PulledSlot(was[j].slots, maxAllocCol, at, n, i + 1, c)
        {
          assert before.slots[c] == PulledSlot(was[j].slots, maxAllocCol, at, n, i, c);
        }
        j := j + 1;
      }
    }

    /** The cell part of DeleteColumn, before maxcol shrinks. */
    method PullColumnsLeft(at: nat, n: nat)
      requires Stored() && 0 < n && at + n <= maxCol + 1
      modifies `data, `maxAllocCol
      ensures Laid(data, maxAllocRow, maxAllocCol)
      ensures maxAllocCol == old(maxAllocCol) - if at <= old(maxAllocCol) then Min(n, old(maxAllocCol) - at + 1) else 0
      ensures if at <= old(maxAllocCol)
        then ColumnsPulled(data, maxAllocCol, old(data), maxAllocRow, old(maxAllocCol), maxCol + 1, at, n)
        else data == old(data)
      ensures Dense(data, maxAllocRow, maxAllocCol, maxRow + 1, maxCol + 1 - n) ==
        DeleteColumns(old(Dense(data, maxAllocRow, maxAllocCol, maxRow + 1, maxCol + 1)), at, n)
    {
      hide Dense, DeleteColumns, ColumnsPulled;
      if at > maxAllocCol {
        FewerColumns(data, maxAllocRow, maxAllocCol, maxRow + 1, maxCol + 1, at, n);
        return;
      }
      ghost var was := data;
      forall k | 0 <= k <= maxAllocRow ensures PulledLeft(data[k], was[k], maxAllocCol, at, n, at) {
        assert RowReady(was[k], maxAllocCol, k);
      }
      var i := at;
      while i <= maxCol - n
        modifies `data
        invariant at <= i <= maxCol - n + 1 && |data| == |was|
        invariant forall k | 0 <= k <= maxAllocRow :: PulledLeft(data[k], was[k], maxAllocCol, at, n, i)
      {
        if i <= maxAllocCol {
          PullColumn(at, n, i, was);
        } else {
          forall k | 0 <= k <= maxAllocRow ensures PulledLeft(data[k], was[k], maxAllocCol, at, n, i + 1) {
            PulledLeftBeyond(data[k], was[k], maxAllocCol, at, n, i);
          }
        }
        i := i + 1;
      }
      DeletedColumns(was, maxAllocRow, maxAllocCol, maxRow + 1, maxCol + 1, data, at, n);
      maxAllocCol := maxAllocCol - Min(n, maxAllocCol - at + 1);
      maxAllocCol := Min(maxAllocCol, maxCol);
    }

    /**
     DeleteColumn shows what the grid shows. But if a column was allocated beyond the sheet, one is
     afterwards, and it still holds the texts of the column that stood there if that one was deleted.
     */
    method DeleteColumn(at: nat, count: int)
      requires Stored()
      modifies `data, `column, `maxCol, `maxAllocCol
      ensures Stored() && (old(Valid()) ==> Valid()) && (old(maxAllocCol <= maxCol) && old(Kept()) ==> Kept())
      ensures old(maxAllocCol <= maxCol) ==> maxAllocCol <= maxCol
      ensures maxCol == old(maxCol) - if count <= 0 || at > old(maxCol) then 0 else Min(count, old(maxCol) - at + 1)
      ensures maxCol == old(maxCol) ==> (old(Kept()) ==> Kept())
      ensures Contents() == if count <= 0 then old(Contents()) else DeleteColumns(old(Contents()), at, count)
      ensures old(maxAllocCol > maxCol) && maxCol < old(maxCol) ==>
        var c, n := maxCol + 1, old(maxCol) - maxCol;
        && maxAllocCol == c
        && forall i :: TextAt(data, maxAllocRow, maxAllocCol, i, c) ==
             if at + n <= c then None else old(TextAt(data, maxAllocRow, maxAllocCol, i, c))
      ensures ColumnRecords() == if count <= 0 then old(ColumnRecords()) else Cut(old(ColumnRecords()), at, count)
      ensures if count > 0 && at <= old(maxCol) then ColumnPixelsExact() else column == old(column) && maxCol == old(maxCol)
    {
      hide Dense, Laid, Records, Cut, PixelsExact, DeleteColumns;
      var n := Min(count, maxCol - at + 1);
      Shape();
      if n <= 0 || at > maxCol {
        if count > 0 {
          DeleteColumnsClip(Contents(), at, 0, count);
          CutBeyond(ColumnRecords(), at, count);
        }
        return;
      }
      DeleteColumnsClip(Contents(), at, n, count);
      CutClip(ColumnRecords(), at, n, count);
      column := DeleteLines(column, maxCol, at, n);
      PullColumnsLeft(at, n);
      maxCol := maxCol - n;
      column := RecalcPixels(column, maxCol, ColumnHeader());
    }

    // ---- geometry ----

    /** gtk_sheet_set_row_height */
    method SetRowHeight(i: int, height: nat, least: nat)
      requires Stored()
      modifies `row
      ensures Stored() && (old(Valid()) ==> Valid()) && (old(Kept()) ==> Kept()) && RowRecords() == Resized(old(RowRecords()), i, height, least)
      ensures old(RowPixelsExact()) || (0 <= i <= maxRow && least <= height) ==> RowPixelsExact()
      ensures 0 <= i <= maxRow ==>
        row[i] == old(row[i]).(requisition := least, size := if height < least then old(row[i].size) else height, pixel := row[i].pixel)
      ensures forall k | 0 <= k <= maxRow && k != i :: row[k] == old(row[k]).(pixel := row[k].pixel)
      ensures old(RowPixelsExact()) ==> forall k | 0 <= k <= maxRow ::
        row[k].pixel == old(row[k].pixel) + if 0 <= i < k && row[i].visible then row[i].size - old(row[i].size) else 0
    {
      hide Dense, Laid, Records, PixelsExact;
      ghost var was := row[..maxRow + 1];
      row := SetSize(row, maxRow, RowHeader(), i, height, least);
      ghost var now := row[..maxRow + 1];
      if 0 <= i <= maxRow {
        OneRecord(was, now, i, was[i].(requisition := least, size := if height < least then was[i].size else height));
      } else {
        SameRecords(was, now);
      }
      if old(RowPixelsExact()) { LinesMove(RowHeader(), was, RowHeader(), now, i); }
    }

    /** gtk_sheet_set_column_width */
    method SetColumnWidth(j: int, width: nat, least: nat)
      requires Stored()
      modifies `column
      ensures Stored() && (old(Valid()) ==> Valid()) && (old(Kept()) ==> Kept()) && ColumnRecords() == Resized(old(ColumnRecords()), j, width, least)
      ensures old(ColumnPixelsExact()) || (0 <= j <= maxCol && least <= width) ==> ColumnPixelsExact()
      ensures 0 <= j <= maxCol ==>
        column[j] == old(column[j]).(requisition := least, size := if width < least then old(column[j].size) else width, pixel := column[j].pixel)
      ensures forall k | 0 <= k <= maxCol && k != j :: column[k] == old(column[k]).(pixel := column[k].pixel)
      ensures old(ColumnPixelsExact()) ==> forall k | 0 <= k <= maxCol ::
        column[k].pixel == old(column[k].pixel) + if 0 <= j < k && column[j].visible then column[j].size - old(column[j].size) else 0
    {
      hide Dense, Laid, Records, PixelsExact;
      ghost var was := column[..maxCol + 1];
      column := SetSize(column, maxCol, ColumnHeader(), j, width, least);
      ghost var now := column[..maxCol + 1];
      if 0 <= j <= maxCol {
        OneRecord(was, now, j, was[j].(requisition := least, size := if width < least then was[j].size else width));
      } else {
        SameRecords(was, now);
      }
      if old(ColumnPixelsExact()) { LinesMove(ColumnHeader(), was, ColumnHeader(), now, j); }
    }

    /** gtk_sheet_set_column_titles_height: a height below the default one is refused; all rows move. */
    method SetTitlesHeight(height: nat)
      requires Stored()
      modifies `row, `column, `columnTitleHeight
      ensures Stored() && (old(Valid()) ==> Valid()) && (old(Kept()) ==> Kept())
      ensures columnTitleHeight == if height < defaultRowHeight then old(columnTitleHeight) else height
      ensures RowRecords() == old(RowRecords()) && ColumnRecords() == old(ColumnRecords())
      ensures old(RowPixelsExact()) || height >= defaultRowHeight ==> RowPixelsExact()
      ensures old(ColumnPixelsExact()) || height >= defaultRowHeight ==> ColumnPixelsExact()
      ensures height >= defaultRowHeight && maxRow >= 0 ==> row[0].pixel == if columnTitlesVisible then height else 0
      ensures old(RowPixelsExact()) ==> forall k | 0 <= k <= maxRow ::
        row[k].pixel == old(row[k].pixel) + if columnTitlesVisible then columnTitleHeight - old(columnTitleHeight) else 0
      ensures old(ColumnPixelsExact()) ==> forall k | 0 <= k <= maxCol :: column[k].pixel == old(column[k].pixel)
    {
      hide Dense, Laid, Records, PixelsExact;
      if height < defaultRowHeight {
        return;
      }
      ghost var rows, columns, header := row[..maxRow + 1], column[..maxCol + 1], RowHeader();
      columnTitleHeight := height;
      row := RecalcPixels(row, maxRow, RowHeader());
      column := RecalcPixels(column, maxCol, ColumnHeader());
      RowPixels();
      SameRecords(rows, row[..maxRow + 1]);
      SameRecords(columns, column[..maxCol + 1]);
      if old(RowPixelsExact()) { LinesMove(header, rows, RowHeader(), row[..maxRow + 1], -1); }
      if old(ColumnPixelsExact()) { LinesMove(ColumnHeader(), columns, ColumnHeader(), column[..maxCol + 1], -1); }
    }

    /**
     gtk_sheet_column_button_add_label: the column is widened, and the titles are made higher, to the
     `asked` size of its new button. `least` is the width its cells ask for.
     */
    method SetColumnLabel(j: int, text: string, asked: Size, least: nat)
      requires Stored()
      modifies `row, `column, `columnTitleHeight
      ensures Stored() && (old(Valid()) ==> Valid()) && (old(Kept()) ==> Kept())
      ensures RowRecords() == old(RowRecords())
      ensures ColumnRecords() == Labelled(old(ColumnRecords()), j, text, asked.width, least)
      ensures old(RowPixelsExact()) ==> RowPixelsExact()
      ensures old(ColumnPixelsExact()) ==> ColumnPixelsExact()
      ensures columnTitleHeight ==
        if 0 <= j <= maxCol && asked.height > old(columnTitleHeight) && asked.height >= defaultRowHeight then asked.height
        else old(columnTitleHeight)
      ensures 0 <= j <= maxCol ==>
        && column[j].caption == Some(text)
        && column[j].size == (if asked.width > old(column[j].size) && asked.width >= least then asked.width else old(column[j].size))
        && column[j].requisition == if asked.width > old(column[j].size) then least else old(column[j].requisition)
      ensures forall k | 0 <= k <= maxCol && k != j :: column[k] == old(column[k]).(pixel := column[k].pixel)
    {
      hide Dense, Laid, PixelsExact, Records;
      if j < 0 || j > maxCol {
        return;
      }
      PutCaption(j, text);
      if asked.width > column[j].size {
        SetColumnWidth(j, asked.width, least);
      }
      if asked.height > columnTitleHeight {
        SetTitlesHeight(asked.height);
      }
    }

    /** Its first lines: the label itself. */
    method PutCaption(j: nat, text: string)
      requires Stored() && j <= maxCol
      modifies `column
      ensures Stored() && (old(Valid()) ==> Valid()) && (old(Kept()) ==> Kept())
      ensures column == old(column)[j := old(column[j]).(caption := Some(text))]
      ensures ColumnRecords() == old(ColumnRecords())[j := old(ColumnRecords())[j].(caption := Some(text))]
      ensures old(ColumnPixelsExact()) ==> ColumnPixelsExact()
    {
      hide Dense, Laid, PixelsExact;
      ghost var live := column[..maxCol + 1];
      column := column[j := column[j].(caption := Some(text))];
      SameGeometry(ColumnHeader(), live, column[..maxCol + 1]);
    }

    /** gtk_sheet_column_button_get_label */
    method GetColumnLabel(j: int) returns (text: Option<string>)
      requires Stored()
      ensures text == if 0 <= j <= maxCol then ColumnRecords()[j].caption else None
    {
      hide Dense;
      if j < 0 || j > maxCol {
        return None;
      }
      return column[j].caption;
    }

    /** gtk_sheet_row_set_visibility */
    method SetRowVisibility(i: int, visible: bool)
      requires Stored()
      modifies `row
      ensures Stored() && (old(Valid()) ==> Valid()) && (old(Kept()) ==> Kept()) && RowRecords() == WithVisibility(old(RowRecords()), i, visible)
      ensures old(RowPixelsExact()) || (0 <= i <= maxRow && old(row[i].visible) != visible) ==> RowPixelsExact()
      ensures 0 <= i <= maxRow ==> row[i] == old(row[i]).(visible := visible, pixel := row[i].pixel)
      ensures forall k | 0 <= k <= maxRow && k != i :: row[k] == old(row[k]).(pixel := row[k].pixel)
      ensures old(RowPixelsExact()) ==> forall k | 0 <= k <= maxRow ::
        row[k].pixel == old(row[k].pixel) +
          if 0 <= i < k && old(row[i].visible) != visible then row[i].size * (if visible then 1 else -1) else 0
    {
      hide Dense, Laid, Records, PixelsExact;
      ghost var was := row[..maxRow + 1];
      row := SetVisible(row, maxRow, RowHeader(), i, visible);
      ghost var now := row[..maxRow + 1];
      if 0 <= i <= maxRow {
        OneRecord(was, now, i, was[i].(visible := visible));
      } else {
        SameRecords(was, now);
      }
      if old(RowPixelsExact()) { LinesMove(RowHeader(), was, RowHeader(), now, i); }
    }

    /** gtk_sheet_column_set_visibility */
    method SetColumnVisibility(j: int, visible: bool)
      requires Stored()
      modifies `column
      ensures Stored() && (old(Valid()) ==> Valid()) && (old(Kept()) ==> Kept()) && ColumnRecords() == WithVisibility(old(ColumnRecords()), j, visible)
      ensures old(ColumnPixelsExact()) || (0 <= j <= maxCol && old(column[j].visible) != visible) ==>
        ColumnPixelsExact()
      ensures 0 <= j <= maxCol ==> column[j] == old(column[j]).(visible := visible, pixel := column[j].pixel)
      ensures forall k | 0 <= k <= maxCol && k != j :: column[k] == old(column[k]).(pixel := column[k].pixel)
      ensures old(ColumnPixelsExact()) ==> forall k | 0 <= k <= maxCol ::
        column[k].pixel == old(column[k].pixel) +
          if 0 <= j < k && old(column[j].visible) != visible then column[j].size * (if visible then 1 else -1) else 0
    {
      hide Dense, Laid, Records, PixelsExact;
      ghost var was := column[..maxCol + 1];
      column := SetVisible(column, maxCol, ColumnHeader(), j, visible);
      ghost var now := column[..maxCol + 1];
      if 0 <= j <= maxCol {
        OneRecord(was, now, j, was[j].(visible := visible));
      } else {
        SameRecords(was, now);
      }
      if old(ColumnPixelsExact()) { LinesMove(ColumnHeader(), was, ColumnHeader(), now, j); }
    }

    /** new_row_height: the drag of a row's lower edge, on release, to pixel `y`. */
    method NewRowHeight(i: nat, y: int) returns (height: nat)
      requires Stored() && i <= maxRow
      modifies `row
      ensures Stored() && (old(Valid()) ==> Valid()) && (old(Kept()) ==> Kept()) && RowPixelsExact()
      ensures height == Max(old(row[i].requisition), y - (vOffset + old(row[i].pixel)))
      ensures RowRecords() == old(RowRecords())[i := Record(old(row[i])).(size := height)]
      ensures old(RowPixelsExact() && row[i].visible) && 0 < height <= y - (vOffset + old(row[i].pixel)) ==>
        IsLineAt(vOffset + RowHeader(), row[..maxRow + 1], y, i)
      ensures row[i] == old(row[i]).(size := height, pixel := row[i].pixel)
      ensures forall k | 0 <= k <= maxRow && k != i :: row[k] == old(row[k]).(pixel := row[k].pixel)
      ensures old(RowPixelsExact()) ==> forall k | 0 <= k <= maxRow ::
        row[k].pixel == old(row[k].pixel) + if k > i && row[i].visible then height - old(row[i].size) else 0
    {
      hide Dense, Laid, Records, PixelsExact, IsLineAt;
      ghost var was := row[..maxRow + 1];
      row, height := DragSize(row, maxRow, RowHeader(), vOffset, i, y);
      OneRecord(was, row[..maxRow + 1], i, was[i].(size := height));
      if old(RowPixelsExact()) { LinesMove(RowHeader(), was, RowHeader(), row[..maxRow + 1], i); }
    }

    /** new_column_width */
    method NewColumnWidth(j: nat, x: int) returns (width: nat)
      requires Stored() && j <= maxCol
      modifies `column
      ensures Stored() && (old(Valid()) ==> Valid()) && (old(Kept()) ==> Kept()) && ColumnPixelsExact()
      ensures width == Max(old(column[j].requisition), x - (hOffset + old(column[j].pixel)))
      ensures ColumnRecords() == old(ColumnRecords())[j := Record(old(column[j])).(size := width)]
      ensures old(ColumnPixelsExact() && column[j].visible) && 0 < width <= x - (hOffset + old(column[j].pixel)) ==>
        IsLineAt(hOffset + ColumnHeader(), column[..maxCol + 1], x, j)
      ensures column[j] == old(column[j]).(size := width, pixel := column[j].pixel)
      ensures forall k | 0 <= k <= maxCol && k != j :: column[k] == old(column[k]).(pixel := column[k].pixel)
      ensures old(ColumnPixelsExact()) ==> forall k | 0 <= k <= maxCol ::
        column[k].pixel == old(column[k].pixel) + if k > j && column[j].visible then width - old(column[j].size) else 0
    {
      hide Dense, Laid, Records, PixelsExact, IsLineAt;
      ghost var was := column[..maxCol + 1];
      column, width := DragSize(column, maxCol, ColumnHeader(), hOffset, j, x);
      OneRecord(was, column[..maxCol + 1], j, was[j].(size := width));
      if old(ColumnPixelsExact()) { LinesMove(ColumnHeader(), was, ColumnHeader(), column[..maxCol + 1], j); }
    }

    /** ROW_FROM_YPIXEL finds every row under its own pixels: ROW_TOP_YPIXEL(i) + d leads back to i. */
    method RowUnderPixel(i: nat, d: nat) returns (r: int)
      requires Stored() && RowPixelsExact()
      requires i <= maxRow && row[i].visible && 1 <= d <= row[i].size
      ensures r == i
    {
      ghost var live := row[..maxRow + 1];
      var y := vOffset + row[i].pixel + d;
      r := LineFromPixel(row, maxRow, vOffset + RowHeader(), y);
      assert live[i].pixel == Top(RowHeader(), live, i);
      TopShift(RowHeader(), vOffset, live, i);
      LineAtInverse(vOffset + RowHeader(), live, i, d);
      LineAtUnique(vOffset + RowHeader(), live, y, r, i);
    }

    /** COLUMN_FROM_XPIXEL finds every column under its own pixels. */
    method ColumnUnderPixel(j: nat, d: nat) returns (r: int)
      requires Stored() && ColumnPixelsExact()
      requires j <= maxCol && column[j].visible && 1 <= d <= column[j].size
      ensures r == j
    {
      ghost var live := column[..maxCol + 1];
      var x := hOffset + column[j].pixel + d;
      r := LineFromPixel(column, maxCol, hOffset + ColumnHeader(), x);
      assert live[j].pixel == Top(ColumnHeader(), live, j);
      TopShift(ColumnHeader(), hOffset, live, j);
      LineAtInverse(hOffset + ColumnHeader(), live, j, d);
      LineAtUnique(hOffset + ColumnHeader(), live, x, r, j);
    }

    // ---- whole runs ----

    /** The first cells of a new sheet: two rows and two columns of them, whatever its size will be. */
    method FirstCells(ghost rows: nat, ghost cols: nat)
      requires data == [Buffer([Empty])] && maxRow == maxCol == maxAllocRow == maxAllocCol == 0
      modifies `data, `maxAllocRow, `maxAllocCol
      ensures maxAllocRow == maxAllocCol == 1 && Laid(data, 1, 1) && Dense(data, 1, 1, rows, cols) == NewGrid(rows, cols)
      ensures forall i, j {:trigger TextAt(data, 1, 1, i, j)} :: TextAt(data, 1, 1, i, j) == None
    {
      hide Dense, NewGrid;
      assert Laid(data, 0, 0);
      GrowSheet(1, 1);
      BlankStore(data, rows, cols);
    }

    /** The records of a new sheet: AddRow(-1), AddColumn(-1), AddRow(rows - 1) and AddColumn(cols - 1). */
    method FirstRecords(rows: nat, cols: nat)
      requires rows >= 1 && cols >= 1 && maxRow == maxCol == 0
      requires columnTitlesVisible && rowTitlesVisible && columnTitleHeight == defaultRowHeight && rowTitleWidth == DEFAULT_COLUMN_WIDTH
      modifies `row, `column, `maxRow, `maxCol
      ensures maxRow == rows - 1 && maxCol == cols - 1 && Lined() && RowPixelsExact() && ColumnPixelsExact()
      ensures RowRecords() == FreshLines(rows, defaultRowHeight) && ColumnRecords() == FreshLines(cols, DEFAULT_COLUMN_WIDTH)
      ensures forall i | 0 <= i < rows :: row[i] == Line(defaultRowHeight, defaultRowHeight, row[i].pixel, None, None, true, true)
      ensures forall j | 0 <= j < cols :: column[j] == Line(80, 80, column[j].pixel, None, None, true, true)
      ensures row[0].pixel == defaultRowHeight && forall i | 0 < i < rows :: row[i].pixel == row[i - 1].pixel + defaultRowHeight
      ensures column[0].pixel == 80 && forall j | 0 < j < cols :: column[j].pixel == column[j - 1].pixel + 80
    {
      hide PixelsExact, Records, FreshLines;
      row := FirstLines(rows, defaultRowHeight, RowHeader());
      column := FirstLines(cols, DEFAULT_COLUMN_WIDTH, ColumnHeader());
      maxRow := maxRow + (rows - 1);
      maxCol := maxCol + (cols - 1);
      assert |row| == |FreshLines(rows, defaultRowHeight)| && |column| == |FreshLines(cols, DEFAULT_COLUMN_WIDTH)|;
      assert row[..rows] == row && column[..cols] == column;
      RowPixels();
      ColumnPixels();
      FreshFields(row, defaultRowHeight);
      FreshFields(column, DEFAULT_COLUMN_WIDTH);
    }

    /** gtk_sheet_new and gtk_sheet_construct */
    constructor (rows: nat, cols: nat, rowHeight: nat)
      requires rows >= 1 && cols >= 1
      ensures Kept() && (Valid() <==> rows >= 2 && cols >= 2)
      ensures Contents() == NewGrid(rows, cols)
      ensures RowRecords() == FreshLines(rows, rowHeight) && RowPixelsExact()
      ensures ColumnRecords() == FreshLines(cols, DEFAULT_COLUMN_WIDTH) && ColumnPixelsExact()
      ensures maxRow == rows - 1 && maxCol == cols - 1 && maxAllocRow == 1 && maxAllocCol == 1
      ensures columnTitlesVisible && rowTitlesVisible && columnTitleHeight == rowHeight && rowTitleWidth == 80
      ensures vOffset == hOffset == 0 && defaultRowHeight == rowHeight
      ensures forall i | 0 <= i < rows :: row[i] == Line(rowHeight, rowHeight, row[i].pixel, None, None, true, true)
      ensures forall j | 0 <= j < cols :: column[j] == Line(80, 80, column[j].pixel, None, None, true, true)
      ensures row[0].pixel == rowHeight && forall i | 0 < i < rows :: row[i].pixel == row[i - 1].pixel + rowHeight
      ensures column[0].pixel == 80 && forall j | 0 < j < cols :: column[j].pixel == column[j - 1].pixel + 80
    {
      hide Dense, Laid, NewGrid, Records, PixelsExact;
      defaultRowHeight := rowHeight;
      data := [Buffer([Empty])];
      row, column := [], [];
      maxRow, maxCol, maxAllocRow, maxAllocCol := 0, 0, 0, 0;
      columnTitlesVisible, rowTitlesVisible := true, true;
      columnTitleHeight, rowTitleWidth := rowHeight, DEFAULT_COLUMN_WIDTH;
      vOffset, hOffset := 0, 0;
      new;
      FirstCells(rows, cols);
      FirstRecords(rows, cols);
    }
  }
}
