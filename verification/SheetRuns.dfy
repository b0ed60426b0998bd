/**
 Whole runs of the sheet: every sequence of operations acts on the shown texts as the same sequence
 of plain grid operations, and keeps the store laid out and, but for appending after a hidden
 line, the cached pixels right.
 */
module SheetRuns {
  import opened Wrappers
  import opened Grid
  import opened CellStore
  import opened SheetLines
  import opened Sheet

  datatype Op =
    | Put(i: int, j: int, text: Option<string>)
    | Clear(i: int, j: int, remove: bool)
    | AppendRows(n: nat)
    | AppendColumns(n: nat)
    | AddRowsAt(at: nat, n: nat)
    | AddColumnsAt(at: nat, n: nat)
    | DropRows(at: nat, count: int)
    | DropColumns(at: nat, count: int)
    | Height(i: int, height: nat, least: nat)
    | Width(j: int, width: nat, least: nat)
    | ShowRow(i: int, visible: bool)
    | ShowColumn(j: int, visible: bool)

  /** What an operation does to the grid of texts. */
  function Step(g: Grid, op: Op): Grid {
    match op
    case Put(i, j, text) => SetText(g, i, j, Shown(text))
    case Clear(i, j, _) => SetText(g, i, j, None)
    case AppendRows(n) => InsertRows(g, |g.rows|, n)
    case AppendColumns(n) => InsertColumns(g, g.width, n)
    case AddRowsAt(at, n) => InsertRows(g, at, n)
    case AddColumnsAt(at, n) => if n == 0 then EraseFrom(g, at) else InsertColumns(g, at, n)
    case DropRows(at, count) => if count <= 0 then g else DeleteRows(g, at, count)
    case DropColumns(at, count) => if count <= 0 then g else DeleteColumns(g, at, count)
    case _ => g
  }

  function Steps(g: Grid, ops: seq<Op>): Grid {
    if ops == [] then g else Step(Steps(g, ops[..|ops| - 1]), ops[|ops| - 1])
  }

  // ---- lines allocated beyond the sheet ----

  /** Whether a row, or a column, may be allocated beyond the last one of the sheet. */
  datatype Spare = Spare(row: bool, col: bool)

  /** Appending a line takes in a spare one, and so does inserting beyond the end. */
  function SpareAfter(g: Grid, spare: Spare, op: Op): Spare {
    match op
    case AppendRows(n) => spare.(row := spare.row && n == 0)
    case AppendColumns(n) => spare.(col := spare.col && n == 0)
    case AddRowsAt(at, n) => spare.(row := spare.row && (n == 0 || at <= |g.rows|))
    case AddColumnsAt(at, n) => spare.(col := spare.col && (n == 0 || at <= g.width))
    case _ => spare
  }

  /** Lines are not deleted while there is a spare one of their kind. */
  predicate Safe(g: Grid, spare: Spare, op: Op) {
    && (op.DropRows? && op.count > 0 && op.at < |g.rows| ==> !spare.row)
    && (op.DropColumns? && op.count > 0 && op.at < g.width ==> !spare.col)
  }

  function SpareAfterAll(g: Grid, spare: Spare, ops: seq<Op>): Spare {
    if ops == [] then spare
    else
      var before := ops[..|ops| - 1];
      SpareAfter(Steps(g, before), SpareAfterAll(g, spare, before), ops[|ops| - 1])
  }

  predicate AllSafe(g: Grid, spare: Spare, ops: seq<Op>) {
    ops == [] ||
    (var before := ops[..|ops| - 1];
     AllSafe(g, spare, before) && Safe(Steps(g, before), SpareAfterAll(g, spare, before), ops[|ops| - 1]))
  }

  /** In a sheet allocated up to its end at most, every run is safe. */
  lemma {:induction false} SafeInside(g: Grid, ops: seq<Op>)
    ensures SpareAfterAll(g, Spare(false, false), ops) == Spare(false, false) && AllSafe(g, Spare(false, false), ops)
  {
    if ops != [] { SafeInside(g, ops[..|ops| - 1]); }
  }

  /** The beginnings of a safe run are safe. */
  lemma {:induction false} SafePrefix(g: Grid, spare: Spare, ops: seq<Op>, k: nat)
    requires AllSafe(g, spare, ops) && k < |ops|
    ensures AllSafe(g, spare, ops[..k]) && Safe(Steps(g, ops[..k]), SpareAfterAll(g, spare, ops[..k]), ops[k])
  {
    if k < |ops| - 1 {
      assert ops[..|ops| - 1][..k] == ops[..k];
      SafePrefix(g, spare, ops[..|ops| - 1], k);
    }
  }

  ghost predicate Inside(s: Sheet, spare: Spare)
    reads s
  {
    (!spare.row ==> s.maxAllocRow <= s.maxRow) && (!spare.col ==> s.maxAllocCol <= s.maxCol)
  }

  // ---- runs ----

  /** One operation on the sheet. */
  method Do(s: Sheet, op: Op, ghost spare: Spare)
    requires s.Kept() && Inside(s, spare) && Safe(s.Contents(), spare, op)
    modifies s
    ensures s.Kept() && s.Contents() == Step(old(s.Contents()), op)
    ensures Inside(s, SpareAfter(old(s.Contents()), spare, op))
    ensures !op.AppendRows? && old(s.RowPixelsExact()) ==> s.RowPixelsExact()
    ensures !op.AppendColumns? && old(s.ColumnPixelsExact()) ==> s.ColumnPixelsExact()
  {
    hide Dense, Laid, PixelsExact, Records, Splice, Cut, FreshLines, Extent, Sheet.Kept;
    hide InsertRows, InsertColumns, DeleteRows, DeleteColumns, SetText, EraseFrom, Sheet.Valid;
    KeptStored(s);
    s.Shape();
    match op
    case Put(i, j, text) => s.SetCell(i, j, text);
    case Clear(i, j, remove) => s.CellClear(i, j, remove);
    case Height(_, _, _) => DoView(s, op);
    case Width(_, _, _) => DoView(s, op);
    case ShowRow(_, _) => DoView(s, op);
    case ShowColumn(_, _) => DoView(s, op);
    case AppendRows(n) => s.AddRow(n);
    case AppendColumns(n) => s.AddColumn(n);
    case AddRowsAt(at, n) => s.InsertRow(at, n);
    case AddColumnsAt(at, n) => s.InsertColumn(at, n);
    case DropRows(at, count) => s.DeleteRow(at, count);
    case DropColumns(at, count) => s.DeleteColumn(at, count);
  }

  /** The operations on the view only. */
  method DoView(s: Sheet, op: Op)
    requires s.Kept() && (op.Height? || op.Width? || op.ShowRow? || op.ShowColumn?)
    modifies s`row, s`column
    ensures s.Kept() && s.Contents() == old(s.Contents())
    ensures old(s.RowPixelsExact()) ==> s.RowPixelsExact()
    ensures old(s.ColumnPixelsExact()) ==> s.ColumnPixelsExact()
  {
    hide Dense, Laid, PixelsExact, Records, Sheet.Kept;
    KeptStored(s);
    match op
    case Height(i, height, least) => s.SetRowHeight(i, height, least);
    case Width(j, width, least) => s.SetColumnWidth(j, width, least);
    case ShowRow(i, visible) => s.SetRowVisibility(i, visible);
    case ShowColumn(j, visible) => s.SetColumnVisibility(j, visible);
    case _ =>
  }

  lemma KeptStored(s: Sheet)
    requires s.Kept()
    ensures s.Stored()
  {
  }

  /**
   Any run: the sheet shows what the plain grid shows after the same operations, at every position
   gtk_sheet_cell_get_text can be asked for. The run has to be safe; in a sheet whose allocated corner
   lies inside, every run is.
   */
  method Run(s: Sheet, ops: seq<Op>, ghost spare: Spare)
    requires s.Kept() && Inside(s, spare) && AllSafe(s.Contents(), spare, ops)
    modifies s
    ensures s.Kept() && s.Contents() == Steps(old(s.Contents()), ops)
    ensures Inside(s, SpareAfterAll(old(s.Contents()), spare, ops))
    ensures old(s.RowPixelsExact()) && (forall op | op in ops :: !op.AppendRows?) ==> s.RowPixelsExact()
    ensures old(s.ColumnPixelsExact()) && (forall op | op in ops :: !op.AppendColumns?) ==> s.ColumnPixelsExact()
  {
    hide Dense, PixelsExact, Step, Laid, Safe, SpareAfter, Inside, Sheet.Kept;
    KeptStored(s);
    ghost var g := s.Contents();
    var k := 0;
    assert ops[..0] == [];
    while k < |ops|
      invariant 0 <= k <= |ops|
      invariant s.Kept() && s.Stored() && s.Contents() == Steps(g, ops[..k])
      invariant Inside(s, SpareAfterAll(g, spare, ops[..k]))
      invariant old(s.RowPixelsExact()) && (forall op | op in ops :: !op.AppendRows?) ==> s.RowPixelsExact()
      invariant old(s.ColumnPixelsExact()) && (forall op | op in ops :: !op.AppendColumns?) ==> s.ColumnPixelsExact()
    {
      assert ops[k] in ops;
      SafePrefix(g, spare, ops, k);
      Do(s, ops[k], SpareAfterAll(g, spare, ops[..k]));
      KeptStored(s);
      assert ops[..k + 1][..k] == ops[..k];
      k := k + 1;
    }
    assert ops[..k] == ops;
  }

  /** From a new sheet of two rows and two columns at least, every run shows what it does to a blank grid. */
  method NewSheetRun(rows: nat, cols: nat, rowHeight: nat, ops: seq<Op>, i: int, j: int) returns (text: Text)
    requires rows >= 2 && cols >= 2
    ensures text == Steps(NewGrid(rows, cols), ops).At(i, j)
  {
    SafeInside(NewGrid(rows, cols), ops);
    text := SafeSheetRun(rows, cols, rowHeight, ops, i, j);
  }

  /**
   A single row, or a single column, is allocated together with a spare one. Such a sheet shows what
   the grid shows as long as no line of that kind is deleted before one is appended.
   */
  method SafeSheetRun(rows: nat, cols: nat, rowHeight: nat, ops: seq<Op>, i: int, j: int) returns (text: Text)
    requires rows >= 1 && cols >= 1 && AllSafe(NewGrid(rows, cols), Spare(rows == 1, cols == 1), ops)
    ensures text == Steps(NewGrid(rows, cols), ops).At(i, j)
  {
    hide Dense, Steps, AllSafe;
    var s := new Sheet(rows, cols, rowHeight);
    Run(s, ops, Spare(rows == 1, cols == 1));
    text := s.GetText(i, j);
  }

  /** In every one-column sheet: a text is entered, its column deleted, a column appended; it shows again. */
  method OneColumnRun(rows: nat, rowHeight: nat, ghost ops: seq<Op>) returns (text: Text)
    requires rows >= 1 && ops == [Put(0, 0, Some("x")), DropColumns(0, 1), AppendColumns(1)]
    ensures text == Some("x") && Steps(NewGrid(rows, 1), ops).At(0, 0) == None
  {
    hide Dense, DeleteColumns, InsertColumns;
    OneColumnGrid(rows, ops);
    var s := new Sheet(rows, 1, rowHeight);
    s.SetCell(0, 0, Some("x"));
    SetTextAt(NewGrid(rows, 1), 0, 0, Some("x"));
    assert s.Contents().At(0, 0) == Some("x");
    DenseAt(s.data, s.maxAllocRow, s.maxAllocCol, s.maxRow + 1, s.maxCol + 1);
    assert TextAt(s.data, s.maxAllocRow, s.maxAllocCol, 0, 0) == Some("x");
    s.DeleteColumn(0, 1);
    assert TextAt(s.data, s.maxAllocRow, s.maxAllocCol, 0, 0) == Some("x");
    s.AddColumn(1);
    assert TextAt(s.data, s.maxAllocRow, s.maxAllocCol, 0, 0) == Some("x");
    DenseAt(s.data, s.maxAllocRow, s.maxAllocCol, s.maxRow + 1, s.maxCol + 1);
    text := s.GetText(0, 0);
  }

  lemma OneColumnGrid(rows: nat, ops: seq<Op>)
    requires rows >= 1 && ops == [Put(0, 0, Some("x")), DropColumns(0, 1), AppendColumns(1)]
    ensures Steps(NewGrid(rows, 1), ops).At(0, 0) == None
  {
    var g := SetText(NewGrid(rows, 1), 0, 0, Some("x"));
    assert ops[..1][..0] == [] && Steps(NewGrid(rows, 1), ops[..1]) == g;
    assert ops[..2][..1] == ops[..1] && Steps(NewGrid(rows, 1), ops[..2]) == DeleteColumns(g, 0, 1);
    SetTextAt(NewGrid(rows, 1), 0, 0, Some("x"));
    DeleteColumnsAt(g, 0, 1);
    InsertColumnsAt(DeleteColumns(g, 0, 1), 0, 1);
  }

  /** In every one-row sheet likewise. */
  method OneRowRun(cols: nat, rowHeight: nat, ghost ops: seq<Op>) returns (text: Text)
    requires cols >= 1 && ops == [Put(0, 0, Some("x")), DropRows(0, 1), AppendRows(1)]
    ensures text == Some("x") && Steps(NewGrid(1, cols), ops).At(0, 0) == None
  {
    hide Dense, DeleteRows, InsertRows;
    OneRowGrid(cols, ops);
    var s := new Sheet(1, cols, rowHeight);
    s.SetCell(0, 0, Some("x"));
    SetTextAt(NewGrid(1, cols), 0, 0, Some("x"));
    assert s.Contents().At(0, 0) == Some("x");
    DenseAt(s.data, s.maxAllocRow, s.maxAllocCol, s.maxRow + 1, s.maxCol + 1);
    assert TextAt(s.data, s.maxAllocRow, s.maxAllocCol, 0, 0) == Some("x");
    ghost var first := s.data[0];
    s.DeleteRow(0, 1);
    assert s.data[0] == first && RowReady(first, s.maxAllocCol, 0);
    assert TextAt(s.data, s.maxAllocRow, s.maxAllocCol, 0, 0) == Some("x");
    s.AddRow(1);
    assert TextAt(s.data, s.maxAllocRow, s.maxAllocCol, 0, 0) == Some("x");
    DenseAt(s.data, s.maxAllocRow, s.maxAllocCol, s.maxRow + 1, s.maxCol + 1);
    text := s.GetText(0, 0);
  }

  lemma OneRowGrid(cols: nat, ops: seq<Op>)
    requires cols >= 1 && ops == [Put(0, 0, Some("x")), DropRows(0, 1), AppendRows(1)]
    ensures Steps(NewGrid(1, cols), ops).At(0, 0) == None
  {
    var g := SetText(NewGrid(1, cols), 0, 0, Some("x"));
    assert ops[..1][..0] == [] && Steps(NewGrid(1, cols), ops[..1]) == g;
    assert ops[..2][..1] == ops[..1] && Steps(NewGrid(1, cols), ops[..2]) == DeleteRows(g, 0, 1);
    SetTextAt(NewGrid(1, cols), 0, 0, Some("x"));
    DeleteRowsAt(g, 0, 1);
    InsertRowsAt(DeleteRows(g, 0, 1), 0, 1);
  }

  /** Inserting rows and deleting them again leaves every text and every row record as it was. */
  method InsertThenDelete(s: Sheet, at: nat, n: nat)
    requires s.Stored() && s.maxAllocRow <= s.maxRow && at <= s.maxRow + 1
    modifies s
    ensures s.Stored() && s.Contents() == old(s.Contents()) && s.RowRecords() == old(s.RowRecords())
    ensures s.ColumnRecords() == old(s.ColumnRecords())
  {
    hide Dense, PixelsExact, Laid, Records, InsertRows, DeleteRows, Splice, Cut;
    s.Shape();
    InsertThenDeleteRows(s.Contents(), at, n);
    InsertThenDeleteRecords(s.RowRecords(), at, FreshLines(n, s.defaultRowHeight));
    InsertNone(s.Contents(), s.RowRecords(), at);
    s.InsertRow(at, n);
    s.DeleteRow(at, n);
  }

  /** The same for columns, provided some are inserted. */
  method InsertThenDeleteCols(s: Sheet, at: nat, n: nat)
    requires s.Stored() && at <= s.maxCol + 1 && n > 0
    modifies s
    ensures s.Stored() && s.Contents() == old(s.Contents()) && s.ColumnRecords() == old(s.ColumnRecords())
    ensures s.RowRecords() == old(s.RowRecords())
  {
    hide Dense, PixelsExact, Laid, Records, InsertColumns, DeleteColumns, Splice, Cut;
    s.Shape();
    InsertThenDeleteColumns(s.Contents(), at, n);
    InsertThenDeleteRecords(s.ColumnRecords(), at, FreshLines(n, DEFAULT_COLUMN_WIDTH));
    s.InsertColumn(at, n);
    s.DeleteColumn(at, n);
  }

  lemma InsertNone(g: Grid, records: seq<Line>, at: nat)
    ensures InsertRows(g, at, 0) == g && Splice(records, at, []) == records
  {
    assert Splice(g.rows, at, []) == g.rows;
  }

  /** Inserting no column at all keeps the texts exactly when there is none to its right to lose. */
  lemma InsertNoColumn(g: Grid, at: nat)
    requires g.Valid()
    ensures Step(g, AddColumnsAt(at, 0)) == g <==> forall i, j | at <= j :: g.At(i, j) == None
    ensures InsertColumns(g, at, 0) == g
  {
    NoColumnInserted(g, at);
    ErasesNothingIff(g, at);
  }

  lemma NoColumnInserted(g: Grid, at: nat)
    requires g.Valid()
    ensures InsertColumns(g, at, 0) == g
  {
    InsertColumnsAt(g, at, 0);
    hide InsertColumns;
    Extensional(InsertColumns(g, at, 0), g);
  }

  lemma ErasesNothingIff(g: Grid, at: nat)
    requires g.Valid()
    ensures EraseFrom(g, at) == g <==> forall i, j | at <= j :: g.At(i, j) == None
  {
    EraseFromAt(g, at);
    hide EraseFrom;
    if forall i, j | at <= j :: g.At(i, j) == None {
      Extensional(EraseFrom(g, at), g);
    }
    if EraseFrom(g, at) == g {
      forall i, j | at <= j ensures g.At(i, j) == None {
        assert EraseFrom(g, at).At(i, j) == None;
      }
    }
  }
}
