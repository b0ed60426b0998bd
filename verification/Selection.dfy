/**
 The selection of the sheet (gattrib/src/gtksheet_2_2.c): which cells are selected, the anchor a
 selection is stretched from, and the moving and resizing of a selected block with the pointer.
 Cells under the pointer, visibility of a clicked cell and the key pressed are parameters of the
 events; no handler vetoes, as none is connected.
 */
module Selection {
  datatype Cell = Cell(row: int, col: int)

  datatype Range = Range(row0: int, col0: int, rowi: int, coli: int) {
    predicate Within(maxRow: int, maxCol: int) {
      0 <= row0 <= rowi <= maxRow && 0 <= col0 <= coli <= maxCol
    }

    predicate Has(c: Cell) {
      row0 <= c.row <= rowi && col0 <= c.col <= coli
    }

    /** The same block elsewhere. */
    function Shift(d: Cell): Range {
      Range(row0 + d.row, col0 + d.col, rowi + d.row, coli + d.col)
    }

    predicate Covers(r: Range) {
      row0 <= r.row0 && r.rowi <= rowi && col0 <= r.col0 && r.coli <= coli
    }
  }

  datatype State = Normal | RowSelected | ColumnSelected | RangeSelected

  function Min(a: int, b: int): int {
    if a <= b then a else b
  }

  function Max(a: int, b: int): int {
    if a >= b then a else b
  }

  /** The smallest range with both cells. */
  function Box(a: Cell, b: Cell): Range {
    Range(Min(a.row, b.row), Min(a.col, b.col), Max(a.row, b.row), Max(a.col, b.col))
  }

  /** What the widget knows of its selection. */
  datatype View = View(
    maxRow: int,
    maxCol: int,
    state: State,
    range: Range,
    active: Cell,
    selection: Cell,
    dragRange: Range,
    dragCell: Cell,
    inSelection: bool,
    inDrag: bool,
    inResize: bool)
  {
    predicate InSheet(c: Cell) {
      0 <= c.row <= maxRow && 0 <= c.col <= maxCol
    }

    /** The selection lies in the sheet and is the box from the anchor to the last cell reached. */
    predicate Good() {
      && range.Within(maxRow, maxCol) && InSheet(active) && InSheet(selection)
      && (state.Normal? ==> active == selection)
      && (state.Normal? || state.RangeSelected? ==> range == Box(active, selection))
      && (inDrag || inResize ==> dragRange.Within(maxRow, maxCol))
    }

    /** Selected rows are selected from end to end, and so are columns. */
    predicate WholeLines() {
      && (state.RowSelected? ==> range.col0 == 0 && range.coli == maxCol && active.col == 0)
      && (state.ColumnSelected? ==> range.row0 == 0 && range.rowi == maxRow && active.row == 0)
    }
  }

  // ---- what each step does ----

  function SelectedRange(v: View, r: Range): View {
    if r.row0 < 0 || r.rowi < 0 || r.col0 < 0 || r.coli < 0 then v
    else v.(range := r, active := Cell(r.row0, r.col0), selection := Cell(r.rowi, r.coli), state := RangeSelected)
  }

  function Activated(v: View, c: Cell): View {
    if !v.InSheet(c) then v
    else v.(state := Normal, range := Box(c, c), active := c, selection := c, inSelection := false)
  }

  /** A click is ignored outside the sheet and on a hidden cell. */
  predicate Accepts(v: View, c: Cell, visible: bool) {
    c.row <= v.maxRow && c.col <= v.maxCol && (c.row >= 0 && c.col >= 0 ==> visible)
  }

  /** gtk_sheet_click_cell, where -1 stands for a title. */
  function Clicked(v: View, c: Cell, visible: bool): View {
    if !Accepts(v, c, visible) then v
    else if c.row == -1 && c.col == -1 then
      var all := Range(0, 0, v.maxRow, v.maxCol);
      SelectedRange(v.(range := all, active := Cell(0, 0)), all)
    else if c.row == -1 && c.col >= 0 then
      v.(state := ColumnSelected, range := Range(0, c.col, v.maxRow, c.col), active := Cell(0, c.col))
    else if c.col == -1 && c.row >= 0 then
      v.(state := RowSelected, range := Range(c.row, 0, c.row, v.maxCol), active := Cell(c.row, 0))
    else if c.row != -1 && c.col != -1 then
      v.(state := Normal, range := Box(c, c), active := c, selection := c, inSelection := true)
    else
      Activated(v, v.active)
  }

  /** The cell a selection is stretched to: the end of the line where lines are selected. */
  function Target(v: View, c: Cell): Cell {
    match v.state
    case RowSelected => Cell(c.row, v.maxCol)
    case ColumnSelected => Cell(v.maxRow, c.col)
    case _ => c
  }

  function Extended(v: View, c: Cell): View {
    if c == v.selection || v.inDrag then v
    else
      v.(state := if v.state.Normal? then RangeSelected else v.state,
         selection := Target(v, c),
         range := Taken(v, Box(v.active, Target(v, c))))
  }

  /** gtk_sheet_real_select_range turns down negative ranges; from a single cell the anchor is then left. */
  function Taken(v: View, r: Range): Range {
    if r.row0 < 0 || r.rowi < 0 || r.col0 < 0 || r.coli < 0 then
      if v.state.Normal? then Box(v.active, v.active) else v.range
    else r
  }

  /** How far the block follows the pointer; selected lines move only across. */
  function Offset(v: View, c: Cell): Cell {
    Cell(if v.state.ColumnSelected? then 0 else c.row - v.dragCell.row,
         if v.state.RowSelected? then 0 else c.col - v.dragCell.col)
  }

  /** The block moved so far, if that stays in the sheet. */
  function DragMoved(v: View, c: Cell): View {
    var moved := v.range.Shift(Offset(v, c));
    if moved.row0 >= 0 && moved.rowi <= v.maxRow && moved.col0 >= 0 && moved.coli <= v.maxCol then
      v.(dragRange := moved)
    else v
  }

  /** How far one end of a block grows: down or right at once, up or left past its own length. */
  function Growth(offset: int, low: int, high: int): int {
    if offset < low - high - 1 then offset + (high - low + 1) else Max(offset, 0)
  }

  function ResizeMoved(v: View, c: Cell, sideways: bool): View {
    var r, d := v.range, Offset(v, c);
    var row := if sideways then 0 else Growth(d.row, r.row0, r.rowi);
    var col := if sideways then Growth(d.col, r.col0, r.coli) else 0;
    if r.row0 + row >= 0 && r.rowi + row <= v.maxRow && r.col0 + col >= 0 && r.coli + col <= v.maxCol then
      v.(dragRange := Range(r.row0 + Min(row, 0), r.col0 + Min(col, 0), r.rowi + Max(row, 0), r.coli + Max(col, 0)))
    else v
  }

  /** Pointer motion with the button held down. */
  function Moved(v: View, c: Cell, sideways: bool): View {
    if v.inDrag then DragMoved(v, c)
    else if v.inResize then ResizeMoved(v, c, sideways)
    else if v.inSelection && !(v.state.Normal? && c == v.active) then Extended(v, c)
    else v
  }

  /** A press on the border or on the corner of the block. */
  function Grabbed(v: View): View {
    var w := if v.state.Normal? then SelectedRange(v.(state := RangeSelected, dragRange := v.range), v.range) else v;
    w.(dragRange := w.range)
  }

  /** Where it is grabbed: a single cell anywhere counts as itself. */
  function GrabbedAt(v: View, c: Cell): Cell {
    if v.state.Normal? then v.active else c
  }

  function PressedBorder(v: View, c: Cell): View {
    var w, g := Grabbed(v), GrabbedAt(v, c);
    w.(dragCell := Cell(Toward(g.row, w.range.row0, w.range.rowi), Toward(g.col, w.range.col0, w.range.coli)),
       inDrag := true)
  }

  function PressedCorner(v: View, c: Cell): View {
    var w, g := Grabbed(v), GrabbedAt(v, c);
    w.(dragCell := Cell(if g.row > w.range.rowi then g.row - 1 else g.row,
                        if g.col > w.range.coli then g.col - 1 else g.col),
       inResize := true)
  }

  function Toward(i: int, low: int, high: int): int {
    var j := if i < low then i + 1 else i;
    if j > high then j - 1 else j
  }

  /** The end of a move: the block is selected at its new place. */
  function Dropped(v: View): View {
    var d := Cell(v.dragRange.row0 - v.range.row0, v.dragRange.col0 - v.range.col0);
    SelectedRange(
      v.(inDrag := false, range := v.dragRange, dragRange := v.range,
         active := Cell(v.active.row + d.row, v.active.col + d.col),
         selection := Cell(v.selection.row + d.row, v.selection.col + d.col)),
      v.dragRange)
  }

  function Resized(v: View): View {
    var r, d := v.range, v.dragRange;
    SelectedRange(
      v.(inResize := false, range := d, dragRange := r,
         active := Cell(v.active.row + d.row0 - r.row0, v.active.col + d.col0 - r.col0),
         selection := Cell(
           if d.rowi >= r.rowi then d.rowi else if d.row0 < r.row0 then d.row0 else v.selection.row,
           if d.coli >= r.coli then d.coli else if d.col0 < r.col0 then d.col0 else v.selection.col),
         state := if v.state.Normal? then RangeSelected else v.state),
      d)
  }

  function Released(v: View): View {
    var v1 := if v.inDrag then Dropped(v) else v;
    var v2 := if v1.inResize then Resized(v1) else v1;
    var v3 := v2.(inSelection := false);
    if v2.state.Normal? && v2.inSelection then Activated(v3, v3.active) else v3
  }

  /** More rows or columns: selected lines grow with the sheet. */
  function Grown(v: View, rows: nat, cols: nat): View {
    v.(maxRow := v.maxRow + rows, maxCol := v.maxCol + cols,
       range := v.range.(
         rowi := v.range.rowi + (if v.state.ColumnSelected? then rows else 0),
         coli := v.range.coli + (if v.state.RowSelected? then cols else 0)))
  }

  /** Fewer rows or columns: the cell that is active is clicked again, or the nearest left to it. */
  function Shrunk(v: View, rows: nat, cols: nat, visible: bool): View {
    var w := v.(maxRow := v.maxRow - rows, maxCol := v.maxCol - cols, active := Cell(-1, -1));
    var clicked := Clicked(w, Nearest(v, rows, cols), visible);
    Activated(clicked, clicked.active)
  }

  function Nearest(v: View, rows: nat, cols: nat): Cell {
    if cols == 0 then Cell(Max(Min(v.active.row, v.maxRow - rows), 0), v.active.col)
    else Cell(v.active.row, Max(Min(v.active.col, v.maxCol - cols), 0))
  }

  function Pressed(v: View, c: Cell, visible: bool): View {
    var w := Clicked(v, c, visible);
    w.(inSelection := w.inSelection || c.row == -1 || c.col == -1 || Accepts(v, c, visible))
  }

  /** A key that moves to another cell. */
  function Went(v: View, c: Cell, visible: bool): View {
    var w := Clicked(v.(inSelection := false), c, visible);
    Activated(w, w.active)
  }

  /** A key that stretches the selection to another row, or to the one it is in; first a single cell is clicked. */
  function Stretched(v: View, row: int, visible: bool): View {
    var w := v.(inSelection := false);
    if w.state.Normal? && !Accepts(w, w.active, visible) then w
    else
      var u := if w.state.Normal? then Clicked(w, w.active, visible) else w;
      Extended(u, Cell(row, u.selection.col))
  }

  /** Any other key: in selected lines the first cell in view becomes the active one. */
  function Typed(v: View, view: Cell): View {
    v.(active := Cell(
      if v.state.ColumnSelected? then view.row else v.active.row,
      if v.state.RowSelected? then view.col else v.active.col))
  }

  datatype Event =
    | Press(c: Cell, visible: bool)
    | PressBorder(c: Cell)
    | PressCorner(c: Cell)
    | Move(c: Cell, sideways: bool)
    | Release
    | Go(c: Cell, visible: bool)
    | Stretch(row: int, visible: bool)
    | Type(view: Cell)
    | Unselect
    | Grow(rows: nat, cols: nat)
    | Shrink(fewerRows: nat, fewerCols: nat, shown: bool)

  function Step(v: View, e: Event): View {
    match e
    case Press(c, visible) => Pressed(v, c, visible)
    case PressBorder(c) => PressedBorder(v, c)
    case PressCorner(c) => PressedCorner(v, c)
    case Move(c, sideways) => Moved(v, c, sideways)
    case Release => Released(v)
    case Go(c, visible) => Went(v, c, visible)
    case Stretch(row, visible) => Stretched(v, row, visible)
    case Type(view) => Typed(v, view)
    case Unselect => Activated(v.(state := Normal), v.active)
    case Grow(rows, cols) => Grown(v, rows, cols)
    case Shrink(rows, cols, shown) => Shrunk(v, rows, cols, shown)
  }

  function Steps(v: View, es: seq<Event>): View {
    if es == [] then v else Step(Steps(v, es[..|es| - 1]), es[|es| - 1])
  }

  /** Cells under the pointer and in view are cells of the sheet; no more lines go than there are. */
  predicate Legal(v: View, e: Event) {
    match e
    case PressBorder(c) => v.InSheet(c)
    case PressCorner(c) => v.InSheet(c)
    case Move(c, _) => v.InSheet(c)
    case Press(c, _) => c.row >= -1 && c.col >= -1
    case Go(c, _) => c.row >= -1 && c.col >= -1
    case Stretch(row, _) => 0 <= row <= v.maxRow
    case Type(view) => v.InSheet(view)
    case Shrink(rows, cols, _) => rows <= v.maxRow + 1 && cols <= v.maxCol + 1 && (rows == 0 || cols == 0)
    case _ => true
  }

  /** A deletion of lines that leaves no cell to click, a hidden one, or a block being moved outside. */
  predicate Loses(v: View, e: Event) {
    && e.Shrink?
    && !(&& e.shown && e.fewerRows <= v.maxRow && e.fewerCols <= v.maxCol
         && (v.inDrag || v.inResize ==> v.dragRange.Within(v.maxRow - e.fewerRows, v.maxCol - e.fewerCols)))
  }

  // ---- what every step keeps ----

  /** Exactly the losing deletions spoil the selection; they leave it without an active cell. */
  lemma StepKeeps(v: View, e: Event)
    requires v.Good() && Legal(v, e)
    ensures Step(v, e).Good() <==> !Loses(v, e)
  {
    hide Clicked, Grabbed, Moved, Released, Shrunk, Stretched;
    match e
    case Press(c, visible) => ClickKeeps(v, c, visible);
    case PressBorder(_) => GrabKeeps(v);
    case PressCorner(_) => GrabKeeps(v);
    case Move(c, sideways) => MoveKeeps(v, c, sideways);
    case Release => ReleaseKeeps(v);
    case Stretch(row, visible) => StretchKeeps(v, row, visible);
    case Go(c, visible) => ClickKeeps(v.(inSelection := false), c, visible);
    case Shrink(rows, cols, shown) => ShrinkKeeps(v, rows, cols, shown);
    case _ =>
  }

  lemma ClickKeeps(v: View, c: Cell, visible: bool)
    requires v.Good() && c.row >= -1 && c.col >= -1
    ensures Clicked(v, c, visible).Good()
  {
    if c.row == -1 && c.col == -1 {
      hide Activated;
    } else {
      hide SelectedRange;
    }
  }

  lemma StretchKeeps(v: View, row: int, visible: bool)
    requires v.Good() && 0 <= row <= v.maxRow
    ensures Stretched(v, row, visible).Good()
  {
    ClickKeeps(v.(inSelection := false), v.active, visible);
  }

  lemma StretchKeepsLines(v: View, row: int, visible: bool)
    requires v.Good() && v.WholeLines()
    ensures Stretched(v, row, visible).WholeLines()
  {
  }

  lemma GrabKeeps(v: View)
    requires v.Good()
    ensures Grabbed(v).Good() && Grabbed(v).dragRange == Grabbed(v).range == v.range && !Grabbed(v).state.Normal?
    ensures Grabbed(v).maxRow == v.maxRow && Grabbed(v).maxCol == v.maxCol && Grabbed(v).inResize == v.inResize
  {
  }

  lemma ReleaseKeeps(v: View)
    requires v.Good()
    ensures Released(v).Good()
  {
  }

  lemma ShrinkKeeps(v: View, rows: nat, cols: nat, shown: bool)
    requires v.Good() && Legal(v, Shrink(rows, cols, shown))
    ensures Shrunk(v, rows, cols, shown).Good() <==> !Loses(v, Shrink(rows, cols, shown))
  {
  }

  lemma MoveKeeps(v: View, c: Cell, sideways: bool)
    requires v.Good() && v.InSheet(c)
    ensures Moved(v, c, sideways).Good()
  {
  }

  /** Selected lines stay whole, but for a key typed while they do not start in view. */
  lemma StepKeepsLines(v: View, e: Event)
    requires v.Good() && v.WholeLines() && Legal(v, e) && !Loses(v, e)
    ensures Step(v, e).WholeLines() <==>
      !(e.Type? && ((v.state.RowSelected? && e.view.col != 0) || (v.state.ColumnSelected? && e.view.row != 0)))
  {
    hide Clicked, Moved, Released, Shrunk, Stretched, View.Good;
    match e
    case Press(c, visible) => ClickKeepsLines(v, c, visible);
    case Go(c, visible) => ClickKeepsLines(v.(inSelection := false), c, visible);
    case Move(c, sideways) => MoveKeepsLines(v, c, sideways);
    case Release => ReleaseKeepsLines(v);
    case Stretch(row, visible) => StretchKeepsLines(v, row, visible);
    case Shrink(rows, cols, shown) => ShrinkKeepsLines(v, rows, cols, shown);
    case _ =>
  }

  lemma ClickKeepsLines(v: View, c: Cell, visible: bool)
    requires v.WholeLines()
    ensures Clicked(v, c, visible).WholeLines()
  {
  }

  lemma MoveKeepsLines(v: View, c: Cell, sideways: bool)
    requires v.Good() && v.WholeLines() && v.InSheet(c)
    ensures Moved(v, c, sideways).WholeLines()
  {
    hide Growth, Offset;
  }

  lemma ReleaseKeepsLines(v: View)
    requires v.Good() && v.WholeLines()
    ensures Released(v).WholeLines()
  {
  }

  lemma ShrinkKeepsLines(v: View, rows: nat, cols: nat, shown: bool)
    requires v.Good() && Legal(v, Shrink(rows, cols, shown)) && !Loses(v, Shrink(rows, cols, shown))
    ensures Shrunk(v, rows, cols, shown).WholeLines()
  {
    assert Shrunk(v, rows, cols, shown).state.Normal?;
  }

  /** Over every run. */
  lemma {:induction false} RunKeeps(v: View, es: seq<Event>)
    requires v.Good()
    requires forall k | 0 <= k < |es| :: Legal(Steps(v, es[..k]), es[k]) && !Loses(Steps(v, es[..k]), es[k])
    ensures Steps(v, es).Good()
    ensures v.WholeLines() && (forall e | e in es :: e.Type? ==> e.view == Cell(0, 0)) ==> Steps(v, es).WholeLines()
  {
    if es != [] {
      var n := |es| - 1;
      forall k | 0 <= k < n
        ensures Legal(Steps(v, es[..n][..k]), es[..n][k]) && !Loses(Steps(v, es[..n][..k]), es[..n][k])
      {
        assert es[..n][..k] == es[..k];
      }
      RunKeeps(v, es[..n]);
      assert es[n] in es;
      hide Step, Loses, Legal, View.Good, View.WholeLines;
      StepKeeps(Steps(v, es[..n]), es[n]);
      if Steps(v, es[..n]).WholeLines() {
        StepKeepsLines(Steps(v, es[..n]), es[n]);
      }
    }
  }

  // ---- whole gestures ----

  function Moves(cells: seq<Cell>): seq<Event> {
    seq(|cells|, k requires 0 <= k < |cells| => Move(cells[k], false))
  }

  /** After a press on a cell, the last cell reached alone decides what is selected, also once released. */
  lemma {:induction false} PressAndSweep(v: View, c: Cell, cells: seq<Cell>)
    requires v.Good() && v.InSheet(c) && !v.inDrag && !v.inResize
    requires forall k | 0 <= k < |cells| :: v.InSheet(cells[k])
    ensures var last := if cells == [] then c else cells[|cells| - 1];
      var w := Steps(Pressed(v, c, true), Moves(cells));
      && w.active == c && w.range == Box(c, last) && w.selection == last && Released(w).range == w.range
      && (w.state.Normal? || w.state.RangeSelected?) && (w.state.Normal? ==> last == c)
      && w.inSelection && !w.inDrag && !w.inResize && w.maxRow == v.maxRow && w.maxCol == v.maxCol
  {
    if cells != [] {
      var n := |cells| - 1;
      PressAndSweep(v, c, cells[..n]);
      assert Moves(cells)[..n] == Moves(cells[..n]);
    }
  }

  /**
   After a press on a row title, the rows between it and the last one reached are selected. A press
   leaves the cell last reached before as it was, so a sweep that never leaves that very cell is missed.
   */
  lemma {:induction false} PressAndSweepRows(v: View, r: int, cells: seq<Cell>)
    requires v.Good() && 0 <= r <= v.maxRow && !v.inDrag && !v.inResize && cells != []
    requires forall k | 0 <= k < |cells| :: v.InSheet(cells[k])
    ensures var w := Steps(Pressed(v, Cell(r, -1), true), Moves(cells));
      && w.state.RowSelected? && w.active == Cell(r, 0)
      && (w.range == Box(Cell(r, 0), Cell(cells[|cells| - 1].row, v.maxCol)) <==>
          (exists k :: 0 <= k < |cells| && cells[k] != v.selection) || v.selection.row == r)
  {
    RowsSwept(v, r, cells);
  }

  lemma {:induction false} RowsSwept(v: View, r: int, cells: seq<Cell>)
    requires v.Good() && 0 <= r <= v.maxRow && !v.inDrag && !v.inResize
    requires forall k | 0 <= k < |cells| :: v.InSheet(cells[k])
    ensures var w := Steps(Pressed(v, Cell(r, -1), true), Moves(cells));
      && w.state.RowSelected? && w.active == Cell(r, 0)
      && w.inSelection && !w.inDrag && !w.inResize && w.maxRow == v.maxRow && w.maxCol == v.maxCol
      && (if forall k | 0 <= k < |cells| :: cells[k] == v.selection then
            w.selection == v.selection && w.range == Box(Cell(r, 0), Cell(r, v.maxCol))
          else
            w.selection == Cell(cells[|cells| - 1].row, v.maxCol) && w.range == Box(Cell(r, 0), w.selection))
  {
    if cells != [] {
      var n := |cells| - 1;
      RowsSwept(v, r, cells[..n]);
      assert Moves(cells)[..n] == Moves(cells[..n]);
      assert forall k | 0 <= k < n :: cells[..n][k] == cells[k];
      hide Moved, Pressed;
      RowStep(Steps(Pressed(v, Cell(r, -1), true), Moves(cells[..n])), r, cells[n]);
    }
  }

  lemma RowStep(w: View, r: int, c: Cell)
    requires w.state.RowSelected? && w.active == Cell(r, 0) && w.inSelection && !w.inDrag && !w.inResize
    requires 0 <= r <= w.maxRow && w.InSheet(c)
    ensures var end := Cell(c.row, w.maxCol);
      Moved(w, c, false) == if c == w.selection then w else w.(selection := end, range := Box(Cell(r, 0), end))
  {
  }

  /** What a click selects: a cell, a row, a column or everything; a hidden cell or one outside changes nothing. */
  lemma ClickSelects(v: View, c: Cell, visible: bool)
    requires v.maxRow >= 0 && v.maxCol >= 0
    ensures var w := Clicked(v, c, visible);
      && w.maxRow == v.maxRow && w.maxCol == v.maxCol && w.inDrag == v.inDrag && w.inResize == v.inResize
      && (v.InSheet(c) && visible ==>
          w.state.Normal? && w.active == c && w.selection == c && w.range == Range(c.row, c.col, c.row, c.col) && w.inSelection)
      && (v.InSheet(c) && !visible ==> w == v)
      && (c.row > v.maxRow || c.col > v.maxCol ==> w == v)
      && (c.col == -1 && 0 <= c.row <= v.maxRow ==>
          w.state.RowSelected? && w.range == Range(c.row, 0, c.row, v.maxCol) && w.active == Cell(c.row, 0))
      && (c.row == -1 && 0 <= c.col <= v.maxCol ==>
          w.state.ColumnSelected? && w.range == Range(0, c.col, v.maxRow, c.col) && w.active == Cell(0, c.col))
      && (c == Cell(-1, -1) ==>
          && w.state.RangeSelected? && w.range == Range(0, 0, v.maxRow, v.maxCol)
          && w.active == Cell(0, 0) && w.selection == Cell(v.maxRow, v.maxCol))
  {
  }

  /** The cell arrow keys go to is selected alone; stretched from there, the rows between in its column. */
  lemma GoAndStretch(v: View, c: Cell, row: int)
    requires v.Good() && v.InSheet(c) && 0 <= row <= v.maxRow && !v.inDrag
    ensures var w := Went(v, c, true);
      && w.state.Normal? && w.active == c && w.range == Range(c.row, c.col, c.row, c.col) && !w.inSelection
      && var u := Stretched(w, row, true);
        && u.active == c && u.range == Range(Min(c.row, row), c.col, Max(c.row, row), c.col)
        && u.selection == Cell(row, c.col) && (u.state.RangeSelected? <==> row != c.row)
  {
  }

  /** A selection of several cells, or of rows, is stretched from its anchor to another row. */
  lemma StretchAgain(v: View, row: int, visible: bool)
    requires v.Good() && 0 <= row <= v.maxRow && !v.inDrag
    requires row != v.selection.row
    ensures var w := Stretched(v, row, visible);
      && (w.inSelection <==> v.state.Normal? && visible) && w.maxRow == v.maxRow && w.maxCol == v.maxCol
      && (v.state.RangeSelected? ==>
          && w.state == v.state && w.active == v.active && w.selection == Cell(row, v.selection.col)
          && w.range == Range(Min(v.active.row, row), v.range.col0, Max(v.active.row, row), v.range.coli))
      && (v.state.RowSelected? ==> w.state == v.state && w.active == v.active && w.range == Box(v.active, Cell(row, v.maxCol)))
  {
  }

  /** Once the button is released, the pointer moves nothing. */
  lemma ReleasedForGood(v: View, c: Cell, sideways: bool)
    ensures var w := Released(v); !w.inSelection && !w.inDrag && !w.inResize && Moved(w, c, sideways) == w
  {
  }

  /** A longer sheet keeps what is selected; selected lines get longer with it. */
  lemma GrowKeepsSelection(v: View, rows: nat, cols: nat)
    ensures var w := Grown(v, rows, cols);
      && w.maxRow == v.maxRow + rows && w.maxCol == v.maxCol + cols
      && w.state == v.state && w.active == v.active && w.selection == v.selection
      && (v.state.Normal? || v.state.RangeSelected? ==> w.range == v.range)
      && (v.WholeLines() ==> w.WholeLines())
      && w.range.row0 == v.range.row0 && w.range.col0 == v.range.col0
      && (v.state.RowSelected? ==> w.range.rowi == v.range.rowi) && (v.state.ColumnSelected? ==> w.range.coli == v.range.coli)
  {
  }

  /** After lines went, the cell in the place of the active one is selected alone, or the last one left. */
  lemma ShrinkSelects(v: View, rows: nat, cols: nat)
    requires v.Good() && Legal(v, Shrink(rows, cols, true)) && !Loses(v, Shrink(rows, cols, true))
    ensures var w := Shrunk(v, rows, cols, true);
      && w.maxRow == v.maxRow - rows && w.maxCol == v.maxCol - cols
      && w.state.Normal? && w.selection == w.active
      && w.range == Range(w.active.row, w.active.col, w.active.row, w.active.col)
      && w.active.row == (if v.active.row <= v.maxRow - rows then v.active.row else v.maxRow - rows)
      && w.active.col == (if v.active.col <= v.maxCol - cols then v.active.col else v.maxCol - cols)
  {
  }

  /** Where a block is grabbed: where the pointer is, on the block; right outside it, the block's nearest line counts. */
  lemma GrabbedWhere(v: View, c: Cell)
    requires v.Good()
    ensures var d, r := PressedBorder(v, c).dragCell, v.range;
      if v.state.Normal? then d == v.active
      else
        && (r.row0 <= c.row <= r.rowi ==> d.row == c.row)
        && (c.row == r.row0 - 1 ==> d.row == r.row0) && (c.row == r.rowi + 1 ==> d.row == r.rowi)
        && (r.col0 <= c.col <= r.coli ==> d.col == c.col)
        && (c.col == r.col0 - 1 ==> d.col == r.col0) && (c.col == r.coli + 1 ==> d.col == r.coli)
  {
  }

  /** The cell of the block that a press on its border takes hold of; a single cell is held as a whole. */
  function HeldCell(v: View, c: Cell): Cell {
    if v.state.Normal? then v.active
    else Cell(Max(v.range.row0, Min(c.row, v.range.rowi)), Max(v.range.col0, Min(c.col, v.range.coli)))
  }

  /**
   A block pulled at its border, pressed on the block or right outside it, goes where the pointer goes:
   as far as the last cell reached, if that leaves it in the sheet. Released, it is selected there.
   */
  lemma BlockFollows(v: View, c: Cell, cells: seq<Cell>)
    requires v.Good() && v.InSheet(c) && !v.inResize && cells != []
    requires forall k | 0 <= k < |cells| :: v.InSheet(cells[k])
    requires v.state.Normal? || Range(v.range.row0 - 1, v.range.col0 - 1, v.range.rowi + 1, v.range.coli + 1).Has(c)
    ensures v.range.Has(c) && !v.state.Normal? ==> HeldCell(v, c) == c
    ensures var held, last := HeldCell(v, c), cells[|cells| - 1];
      var down := if v.state.ColumnSelected? then 0 else last.row - held.row;
      var right := if v.state.RowSelected? then 0 else last.col - held.col;
      var there := Range(v.range.row0 + down, v.range.col0 + right, v.range.rowi + down, v.range.coli + right);
      there.Within(v.maxRow, v.maxCol) ==>
        var w := Released(Steps(PressedBorder(v, c), Moves(cells)));
        && w.range == there && w.state.RangeSelected? && !w.inDrag
        && w.active == Cell(there.row0, there.col0) && w.selection == Cell(there.rowi, there.coli)
  {
    hide SelectedRange, View.Good, PressedBorder, Offset, Moves, Steps, Released;
    DragAndDrop(v, c, cells);
    FollowedOffset(v, c, cells[|cells| - 1]);
    BorderKeeps(v, c);
    DroppedCorners(Steps(PressedBorder(v, c), Moves(cells)));
  }

  lemma FollowedOffset(v: View, c: Cell, last: Cell)
    requires v.Good()
    requires v.state.Normal? || Range(v.range.row0 - 1, v.range.col0 - 1, v.range.rowi + 1, v.range.coli + 1).Has(c)
    ensures var held := HeldCell(v, c);
      Offset(PressedBorder(v, c), last) ==
        Cell(if v.state.ColumnSelected? then 0 else last.row - held.row, if v.state.RowSelected? then 0 else last.col - held.col)
  {
    GrabbedWhere(v, c);
  }

  lemma DroppedCorners(w: View)
    requires w.Good() && w.inDrag && !w.inResize
    ensures var u := Released(w);
      !u.inDrag && u.active == Cell(u.range.row0, u.range.col0) && u.selection == Cell(u.range.rowi, u.range.coli)
  {
  }

  /** Moving a block keeps its shape and keeps it in the sheet; the last place that fits is where it lands. */
  lemma {:induction false} DragAndDrop(v: View, c: Cell, cells: seq<Cell>)
    requires v.Good() && v.InSheet(c)
    requires forall k | 0 <= k < |cells| :: v.InSheet(cells[k])
    ensures var g := PressedBorder(v, c);
      var w := Steps(g, Moves(cells));
      && w == g.(dragRange := w.dragRange) && w.Good()
      && (exists d :: w.dragRange == v.range.Shift(d))
      && (cells != [] && v.range.Shift(Offset(g, cells[|cells| - 1])).Within(v.maxRow, v.maxCol) ==>
          w.dragRange == v.range.Shift(Offset(g, cells[|cells| - 1])))
      && (!v.inResize ==> Released(w).range == w.dragRange && Released(w).state.RangeSelected?)
  {
    hide View.Good, Offset, PressedBorder;
    var g := PressedBorder(v, c);
    BorderKeeps(v, c);
    if cells == [] {
      assert g.dragRange == v.range.Shift(Cell(0, 0));
    } else {
      var n := |cells| - 1;
      DragAndDrop(v, c, cells[..n]);
      assert Moves(cells)[..n] == Moves(cells[..n]);
      DragStep(g, Steps(g, Moves(cells[..n])), cells[n]);
    }
    if !v.inResize {
      DropLands(Steps(g, Moves(cells)));
    }
  }

  lemma BorderKeeps(v: View, c: Cell)
    requires v.Good() && v.InSheet(c)
    ensures var g := PressedBorder(v, c);
      && g.Good() && g.inDrag && g.inResize == v.inResize && g.dragRange == g.range == v.range
      && g.maxRow == v.maxRow && g.maxCol == v.maxCol
  {
    hide Toward;
  }

  lemma DragStep(g: View, w: View, c: Cell)
    requires g.Good() && g.inDrag && w == g.(dragRange := w.dragRange) && w.Good()
    requires exists d :: w.dragRange == g.range.Shift(d)
    ensures var u := DragMoved(w, c);
      && u == g.(dragRange := u.dragRange) && u.Good()
      && (exists d :: u.dragRange == g.range.Shift(d))
      && (g.range.Shift(Offset(g, c)).Within(g.maxRow, g.maxCol) ==> u.dragRange == g.range.Shift(Offset(g, c)))
  {
    assert Offset(w, c) == Offset(g, c);
  }

  lemma DropLands(w: View)
    requires w.Good() && w.inDrag && !w.inResize
    ensures Released(w).range == w.dragRange && Released(w).state.RangeSelected?
  {
  }

  /**
   Resizing never shrinks a block nor leaves the sheet. Grabbed at its last row, it grows down to the
   row under the pointer, but upwards one row short of it.
   */
  lemma ResizeReaches(v: View, c: Cell, sideways: bool)
    requires v.Good() && v.InSheet(c) && v.dragRange.Covers(v.range)
    ensures var w := ResizeMoved(v, c, sideways).dragRange;
      && w.Covers(v.range)
      && (!sideways && !v.state.ColumnSelected? && v.dragCell.row == v.range.rowi ==>
          w == Range(Min(v.range.row0, c.row + 1), v.range.col0, Max(v.range.rowi, c.row), v.range.coli)
          && (w.row0 <= c.row <= w.rowi <==> v.range.row0 <= c.row))
      && (sideways && !v.state.RowSelected? && v.dragCell.col == v.range.coli ==>
          w == Range(v.range.row0, Min(v.range.col0, c.col + 1), v.range.rowi, Max(v.range.coli, c.col))
          && (w.col0 <= c.col <= w.coli <==> v.range.col0 <= c.col))
  {
  }

  /**
   A block pulled at its lower right corner, on the block or right outside it, and released: downwards
   it ends at the pointer, upwards one row short of it; the selection is what it became.
   */
  lemma CornerPulled(v: View, p: Cell, c: Cell)
    requires v.Good() && v.InSheet(p) && v.InSheet(c) && v.state.RangeSelected? && !v.inDrag
    requires v.range.rowi <= p.row <= v.range.rowi + 1 && v.range.coli <= p.col <= v.range.coli + 1
    ensures var w := Released(Moved(PressedCorner(v, p), c, false));
      && w.range == Range(Min(v.range.row0, c.row + 1), v.range.col0, Max(v.range.rowi, c.row), v.range.coli)
      && w.state.RangeSelected? && !w.inResize
      && w.active == Cell(w.range.row0, w.range.col0) && w.selection == Cell(w.range.rowi, w.range.coli)
    ensures var w := Released(Moved(PressedCorner(v, p), c, true));
      && w.range == Range(v.range.row0, Min(v.range.col0, c.col + 1), v.range.rowi, Max(v.range.coli, c.col))
      && w.state.RangeSelected? && !w.inResize
      && w.active == Cell(w.range.row0, w.range.col0) && w.selection == Cell(w.range.rowi, w.range.coli)
  {
    var g := PressedCorner(v, p);
    ResizeReaches(g, c, false);
    ResizeReaches(g, c, true);
  }

  // ---- the widget ----

  /** The fields of the sheet that hold its selection. */
  class SheetSelection {
    var maxRow: int
    var maxCol: int
    var state: State
    var range: Range
    var active: Cell
    var selection: Cell
    var dragRange: Range
    var dragCell: Cell
    var inSelection: bool
    var inDrag: bool
    var inResize: bool

    function Now(): View
      reads this
    {
      View(maxRow, maxCol, state, range, active, selection, dragRange, dragCell, inSelection, inDrag, inResize)
    }

    constructor (rows: nat, cols: nat)
      requires rows >= 1 && cols >= 1
      ensures Now().Good() && Now().WholeLines() && maxRow == rows - 1 && maxCol == cols - 1
    {
      maxRow, maxCol := rows - 1, cols - 1;
      active, selection, dragCell := Cell(0, 0), Cell(0, 0), Cell(0, 0);
      range, dragRange := Range(0, 0, 0, 0), Range(0, 0, 0, 0);
      state := Normal;
      inSelection, inDrag, inResize := false, false, false;
    }

    /** gtk_sheet_deactivate_cell: no cell is active for the moment. */
    method Deactivate() returns (done: bool)
      modifies this
      ensures done == old(state.Normal?)
      ensures Now() == if done then old(Now()).(active := Cell(-1, -1)) else old(Now())
    {
      if !state.Normal? {
        return false;
      }
      active := Cell(-1, -1);
      return true;
    }

    method SelectRange(r: Range)
      modifies this
      ensures Now() == SelectedRange(old(Now()), r)
    {
      if r.row0 < 0 || r.rowi < 0 || r.col0 < 0 || r.coli < 0 {
        return;
      }
      if state.Normal? {
        var done := Deactivate();
        if !done {
          return;
        }
      }
      range := r;
      active := Cell(r.row0, r.col0);
      selection := Cell(r.rowi, r.coli);
      state := RangeSelected;
    }

    method SelectRow(row: int)
      modifies this
      ensures Now() ==
        if row < 0 || row > old(maxRow) then old(Now())
        else old(Now()).(state := RowSelected, range := Range(row, 0, row, old(maxCol)), active := Cell(row, 0))
    {
      if row < 0 || row > maxRow {
        return;
      }
      if state.Normal? {
        var done := Deactivate();
        if !done {
          return;
        }
      }
      state := RowSelected;
      range := Range(row, 0, row, maxCol);
      active := Cell(row, 0);
    }

    method SelectColumn(col: int)
      modifies this
      ensures Now() ==
        if col < 0 || col > old(maxCol) then old(Now())
        else old(Now()).(state := ColumnSelected, range := Range(0, col, old(maxRow), col), active := Cell(0, col))
    {
      if col < 0 || col > maxCol {
        return;
      }
      if state.Normal? {
        var done := Deactivate();
        if !done {
          return;
        }
      }
      state := ColumnSelected;
      range := Range(0, col, maxRow, col);
      active := Cell(0, col);
    }

    method Activate(c: Cell)
      modifies this
      ensures Now() == Activated(old(Now()), c)
    {
      if c.row < 0 || c.col < 0 || c.row > maxRow || c.col > maxCol {
        return;
      }
      if !state.Normal? {
        state := Normal;
      }
      range := Range(c.row, c.col, c.row, c.col);
      active := c;
      selection := c;
      inSelection := false;
    }

    /** `visible` tells whether both the row and the column of the cell are shown. */
    method ClickCell(c: Cell, visible: bool) returns (accepted: bool)
      modifies this
      ensures accepted == Accepts(old(Now()), c, visible)
      ensures Now() == Clicked(old(Now()), c, visible)
    {
      if c.row > maxRow || c.col > maxCol {
        return false;
      }
      if c.col >= 0 && c.row >= 0 && !visible {
        return false;
      }
      if c.row == -1 && c.col >= 0 {
        SelectColumn(c.col);
        return true;
      }
      if c.col == -1 && c.row >= 0 {
        SelectRow(c.row);
        return true;
      }
      if c.row == -1 && c.col == -1 {
        range := Range(0, 0, maxRow, maxCol);
        active := Cell(0, 0);
        SelectRange(range);
        return true;
      }
      if c.row != -1 && c.col != -1 {
        if !state.Normal? {
          state := Normal;
        } else {
          var done := Deactivate();
          if !done {
            return false;
          }
        }
        active := c;
        selection := c;
        range := Range(c.row, c.col, c.row, c.col);
        state := Normal;
        inSelection := true;
        return true;
      }
      Activate(active);
      return true;
    }

    method ExtendSelection(c: Cell)
      modifies this
      ensures Now() == Extended(old(Now()), c)
    {
      if c == selection || inDrag {
        return;
      }
      var row, col, before := c.row, c.col, state;
      match state {
        case RowSelected =>
          col := maxCol;
        case ColumnSelected =>
          row := maxRow;
        case Normal =>
          state := RangeSelected;
          range := Range(active.row, active.col, active.row, active.col);
        case RangeSelected =>
      }
      selection := Cell(row, col);
      var r := Range(Min(row, active.row), Min(col, active.col), Max(row, active.row), Max(col, active.col));
      if (r != range || before.Normal?) && r.row0 >= 0 && r.rowi >= 0 && r.col0 >= 0 && r.coli >= 0 {
        range := r;
      }
    }

    method Grab()
      modifies this
      ensures Now() == Grabbed(old(Now()))
    {
      if state.Normal? {
        var c := active;
        var done := Deactivate();
        active := c;
        dragRange := range;
        state := RangeSelected;
        SelectRange(dragRange);
      }
      dragRange := range;
    }

    method PressBorderAt(c: Cell)
      modifies this
      ensures Now() == PressedBorder(old(Now()), c)
    {
      var row, col := c.row, c.col;
      if state.Normal? {
        row, col := active.row, active.col;
      }
      Grab();
      if row < range.row0 { row := row + 1; }
      if row > range.rowi { row := row - 1; }
      if col < range.col0 { col := col + 1; }
      if col > range.coli { col := col - 1; }
      dragCell := Cell(row, col);
      inDrag := true;
    }

    method PressCornerAt(c: Cell)
      modifies this
      ensures Now() == PressedCorner(old(Now()), c)
    {
      var row, col := c.row, c.col;
      if state.Normal? {
        row, col := active.row, active.col;
      }
      Grab();
      if row > range.rowi { row := row - 1; }
      if col > range.coli { col := col - 1; }
      dragCell := Cell(row, col);
      inResize := true;
    }

    method MoveBlock(c: Cell)
      modifies this
      ensures Now() == DragMoved(old(Now()), c)
    {
      var row, col := c.row - dragCell.row, c.col - dragCell.col;
      if state.ColumnSelected? { row := 0; }
      if state.RowSelected? { col := 0; }
      if range.row0 + row >= 0 && range.rowi + row <= maxRow && range.col0 + col >= 0 && range.coli + col <= maxCol {
        dragRange := Range(range.row0 + row, range.col0 + col, range.rowi + row, range.coli + col);
      }
    }

    method GrowBlock(c: Cell, sideways: bool)
      modifies this
      ensures Now() == ResizeMoved(old(Now()), c, sideways)
    {
      var row, col := c.row - dragCell.row, c.col - dragCell.col;
      if state.ColumnSelected? { row := 0; }
      if state.RowSelected? { col := 0; }
      if row < range.row0 - range.rowi - 1 {
        row := row + (range.rowi - range.row0 + 1);
      } else if row < 0 {
        row := 0;
      }
      if col < range.col0 - range.coli - 1 {
        col := col + (range.coli - range.col0 + 1);
      } else if col < 0 {
        col := 0;
      }
      if sideways { row := 0; } else { col := 0; }
      if range.row0 + row >= 0 && range.rowi + row <= maxRow && range.col0 + col >= 0 && range.coli + col <= maxCol {
        var grown := range;
        if row < 0 { grown := grown.(row0 := range.row0 + row); }
        if row > 0 { grown := grown.(rowi := range.rowi + row); }
        if col < 0 { grown := grown.(col0 := range.col0 + col); }
        if col > 0 { grown := grown.(coli := range.coli + col); }
        dragRange := grown;
      }
    }

    /** gtk_sheet_motion; `sideways` tells whether the pointer is further off across than down. */
    method Motion(c: Cell, sideways: bool)
      modifies this
      ensures Now() == Moved(old(Now()), c, sideways)
    {
      if inDrag {
        MoveBlock(c);
      } else if inResize {
        GrowBlock(c, sideways);
      } else if !(state.Normal? && c == active) && inSelection {
        ExtendSelection(c);
      }
    }

    method Drop()
      modifies this
      ensures Now() == Dropped(old(Now()))
    {
      hide SelectedRange;
      inDrag := false;
      active := Cell(active.row + (dragRange.row0 - range.row0), active.col + (dragRange.col0 - range.col0));
      selection :=
        Cell(selection.row + (dragRange.row0 - range.row0), selection.col + (dragRange.col0 - range.col0));
      range, dragRange := dragRange, range;
      SelectRange(range);
    }

    method EndResize()
      modifies this
      ensures Now() == Resized(old(Now()))
    {
      hide SelectedRange;
      inResize := false;
      active := Cell(active.row + (dragRange.row0 - range.row0), active.col + (dragRange.col0 - range.col0));
      if dragRange.row0 < range.row0 { selection := selection.(row := dragRange.row0); }
      if dragRange.rowi >= range.rowi { selection := selection.(row := dragRange.rowi); }
      if dragRange.col0 < range.col0 { selection := selection.(col := dragRange.col0); }
      if dragRange.coli >= range.coli { selection := selection.(col := dragRange.coli); }
      range, dragRange := dragRange, range;
      if state.Normal? { state := RangeSelected; }
      SelectRange(range);
    }

    method ButtonRelease()
      modifies this
      ensures Now() == Released(old(Now()))
    {
      if inDrag {
        Drop();
      }
      if inResize {
        EndResize();
      }
      if state.Normal? && inSelection {
        inSelection := false;
        Activate(active);
      }
      inSelection := false;
    }

    /** gtk_sheet_add_row, gtk_sheet_insert_rows and the same for columns. */
    method AddLines(rows: nat, cols: nat)
      modifies this
      ensures Now() == Grown(old(Now()), rows, cols)
    {
      maxRow, maxCol := maxRow + rows, maxCol + cols;
      if state.ColumnSelected? { range := range.(rowi := range.rowi + rows); }
      if state.RowSelected? { range := range.(coli := range.coli + cols); }
    }

    /** gtk_sheet_delete_rows, or for columns gtk_sheet_delete_columns, the number already cut off. */
    method DeleteLines(rows: nat, cols: nat, visible: bool)
      modifies this
      ensures Now() == Shrunk(old(Now()), rows, cols, visible)
    {
      hide Clicked, Activated, Accepts;
      maxRow, maxCol := maxRow - rows, maxCol - cols;
      var c := active;
      active := Cell(-1, -1);
      if cols == 0 {
        c := Cell(Max(Min(c.row, maxRow), 0), c.col);
      } else {
        c := Cell(c.row, Max(Min(c.col, maxCol), 0));
      }
      var accepted := ClickCell(c, visible);
      Activate(active);
    }

    /** The part of gtk_sheet_key_press that extends the selection up or down to `row`. */
    method StretchTo(row: int, visible: bool)
      modifies this
      ensures Now() == Stretched(old(Now()), row, visible)
    {
      hide Extended;
      inSelection := false;
      if state.Normal? {
        var accepted := ClickCell(active, visible);
        if !accepted {
          return;
        }
      }
      ExtendSelection(Cell(row, selection.col));
    }

    /** One event. */
    method Handle(e: Event)
      modifies this
      ensures Now() == Step(old(Now()), e)
    {
      match e
      case Press(c, visible) =>
        var accepted := ClickCell(c, visible);
        if accepted || c.row == -1 || c.col == -1 { inSelection := true; }
      case PressBorder(c) => PressBorderAt(c);
      case PressCorner(c) => PressCornerAt(c);
      case Move(c, sideways) => Motion(c, sideways);
      case Release => ButtonRelease();
      case Go(c, visible) =>
        inSelection := false;
        var accepted := ClickCell(c, visible);
        Activate(active);
      case Stretch(row, visible) => StretchTo(row, visible);
      case Type(view) =>
        if state.RowSelected? { active := active.(col := view.col); }
        if state.ColumnSelected? { active := active.(row := view.row); }
      case Unselect =>
        state := Normal;
        Activate(active);
      case Grow(rows, cols) => AddLines(rows, cols);
      case Shrink(rows, cols, shown) => DeleteLines(rows, cols, shown);
    }

    /** Any run of events that loses no active cell keeps the selection in the sheet. */
    method Run(es: seq<Event>)
      requires Now().Good()
      requires forall k | 0 <= k < |es| :: Legal(Steps(Now(), es[..k]), es[k]) && !Loses(Steps(Now(), es[..k]), es[k])
      modifies this
      ensures Now() == Steps(old(Now()), es) && Now().Good()
      ensures old(Now().WholeLines()) && (forall e | e in es :: e.Type? ==> e.view == Cell(0, 0)) ==> Now().WholeLines()
    {
      RunKeeps(Now(), es);
      hide Step, Legal, Loses, View.Good, View.WholeLines;
      ghost var v := Now();
      var k := 0;
      while k < |es|
        invariant 0 <= k <= |es| && Now() == Steps(v, es[..k])
      {
        Handle(es[k]);
        assert es[..k + 1][..k] == es[..k];
        k := k + 1;
      }
      assert es[..k] == es;
    }
  }
}
