/**
 The cells of the sheet: an array of row buffers holding cell pointers, allocated up to a corner
 (maxallocrow, maxalloccol) only. Memory that was never written is `Uninit`; no proof below may
 read such a slot.
 */
module CellStore {
  import opened Wrappers
  import opened Grid

  /** GtkSheetCell: the cell remembers its own position. */
  datatype Cell = Cell(row: int, col: int, text: Option<string>)

  datatype Slot = Uninit | Empty | Full(cell: Cell)

  datatype RowPtr = NoRow | Buffer(slots: seq<Slot>)

  /** A slot that may be read at (i, j): a null pointer, or a cell that knows its position. */
  predicate Ready(s: Slot, i: int, j: int) {
    s.Empty? || (s.Full? && s.cell.row == i && s.cell.col == j)
  }

  predicate RowReady(p: RowPtr, mac: int, i: int) {
    p.Buffer? && mac < |p.slots| && forall j | 0 <= j <= mac :: Ready(p.slots[j], i, j)
  }

  predicate RowBlank(p: RowPtr, mac: int) {
    p.Buffer? && mac < |p.slots| && forall j | 0 <= j <= mac :: p.slots[j].Empty?
  }

  /** Everything up to the allocated corner is there and in its place. */
  predicate Laid(data: seq<RowPtr>, mar: int, mac: int) {
    && -1 <= mar < |data|
    && -1 <= mac
    && forall i | 0 <= i <= mar :: RowReady(data[i], mac, i)
  }

  function SlotText(s: Slot): Text {
    if s.Full? then Shown(s.cell.text) else None
  }

  /** The text stored at (i, j), absent beyond the allocated corner. */
  function TextAt(data: seq<RowPtr>, mar: int, mac: int, i: int, j: int): Text
    requires Laid(data, mar, mac)
  {
    if 0 <= i <= mar && 0 <= j <= mac then
      assert RowReady(data[i], mac, i);
      SlotText(data[i].slots[j])
    else None
  }

  /** The dense grid a store stands for. */
  function Dense(data: seq<RowPtr>, mar: int, mac: int, rows: nat, cols: nat): Grid
    requires Laid(data, mar, mac)
  {
    Grid(cols, seq(rows, i => seq(cols, j => TextAt(data, mar, mac, i, j))))
  }

  /** What it shows: what is stored beyond the sheet does not show. */
  lemma DenseAt(data: seq<RowPtr>, mar: int, mac: int, rows: nat, cols: nat)
    requires Laid(data, mar, mac)
    ensures Dense(data, mar, mac, rows, cols).Valid()
    ensures forall i, j {:trigger Dense(data, mar, mac, rows, cols).At(i, j)} ::
      Dense(data, mar, mac, rows, cols).At(i, j) == if i < rows && j < cols then TextAt(data, mar, mac, i, j) else None
  {
  }

  /** Rows allocated beyond those shown make no difference. */
  lemma DenseClip(data: seq<RowPtr>, mar: int, mac: int, rows: nat, cols: nat)
    requires Laid(data, mar, mac)
    ensures Laid(data, Min(mar, rows - 1), mac)
    ensures Dense(data, Min(mar, rows - 1), mac, rows, cols) == Dense(data, mar, mac, rows, cols)
  {
    DenseAt(data, mar, mac, rows, cols);
    DenseIs(data, Min(mar, rows - 1), mac, rows, cols, Dense(data, mar, mac, rows, cols));
  }

  /** A store that shows what a grid shows stands for that grid. */
  lemma DenseIs(data: seq<RowPtr>, mar: int, mac: int, rows: nat, cols: nat, g: Grid)
    requires Laid(data, mar, mac)
    requires g.Valid() && |g.rows| == rows && g.width == cols
    requires forall i, j | 0 <= i < rows && 0 <= j < cols :: TextAt(data, mar, mac, i, j) == g.At(i, j)
    ensures Dense(data, mar, mac, rows, cols) == g
  {
    DenseAt(data, mar, mac, rows, cols);
    Extensional(Dense(data, mar, mac, rows, cols), g);
  }

  /** gtk_sheet_real_cell_clear on one slot: the cell goes, or only its text. */
  function Cleared(s: Slot, remove: bool): Slot {
    if !s.Full? then s
    else if remove then Empty
    else if Shown(s.cell.text).Some? then Full(s.cell.(text := None))
    else s
  }

  function InRow(s: Slot, i: int): Slot {
    if s.Full? then Full(s.cell.(row := i)) else s
  }

  function InColumn(s: Slot, j: int): Slot {
    if s.Full? then Full(s.cell.(col := j)) else s
  }

  /** Writing one slot of the store writes one text of the grid. */
  lemma SetSlot(data: seq<RowPtr>, mar: int, mac: int, rows: nat, cols: nat, i: nat, j: nat, s: Slot)
    requires Laid(data, mar, mac) && i < rows && j < cols
    requires i <= mar && j <= mac && Ready(s, i, j)
    ensures RowReady(data[i], mac, i)
    ensures var after := data[i := Buffer(data[i].slots[j := s])];
      && Laid(after, mar, mac)
      && Dense(after, mar, mac, rows, cols) == SetText(Dense(data, mar, mac, rows, cols), i, j, SlotText(s))
      && forall r, c {:trigger TextAt(after, mar, mac, r, c)} :: r != i || c != j ==>
           TextAt(after, mar, mac, r, c) == TextAt(data, mar, mac, r, c)
  {
    assert RowReady(data[i], mac, i);
    var after := data[i := Buffer(data[i].slots[j := s])];
    forall k | 0 <= k <= mar ensures RowReady(after[k], mac, k) {
      assert RowReady(data[k], mac, k);
    }
    DenseAt(data, mar, mac, rows, cols);
    DenseIs(after, mar, mac, rows, cols, SetText(Dense(data, mar, mac, rows, cols), i, j, SlotText(s)));
  }

  // ---- what the moving loops have done to one row, or to the row array, so far ----

  /** Row `q` is row `p` with every cell up to `mac` told that it is in row `i`. */
  predicate Renumbered(q: RowPtr, p: RowPtr, mac: int, i: int) {
    && p.Buffer? && q.Buffer? && mac < |p.slots| && |q.slots| == |p.slots|
    && forall j | 0 <= j <= mac :: q.slots[j] == InRow(p.slots[j], i)
  }

  /** What stands in column `j` once the slots from `at` on moved `n` to the right (lost when n is 0). */
  function PushedSlot(p: seq<Slot>, at: nat, n: nat, j: nat): Slot
    requires j < |p|
  {
    if j < at then p[j] else if j < at + n || n == 0 then Empty else InColumn(p[j - n], j)
  }

  /** What stands in column `j` once DeleteColumn handled the columns at..i-1. */
  function PulledSlot(p: seq<Slot>, mac: int, at: nat, n: nat, i: int, j: nat): Slot
    requires j <= mac < |p|
  {
    if j < at then p[j]
    else if j < i then (if j + n <= mac then InColumn(p[j + n], j) else Empty)
    else if at + n <= j < i + n then Empty
    else p[j]
  }

  predicate PushedRight(q: RowPtr, p: RowPtr, mac: int, at: nat, n: nat) {
    && p.Buffer? && q.Buffer? && mac < |p.slots| && |q.slots| == |p.slots|
    && forall j | 0 <= j <= mac :: q.slots[j] == PushedSlot(p.slots, at, n, j)
  }

  /** Row `q` is row `p` after DeleteColumn handled the columns at..i-1. */
  predicate PulledLeft(q: RowPtr, p: RowPtr, mac: int, at: nat, n: nat, i: int) {
    && p.Buffer? && q.Buffer? && mac < |p.slots| && |q.slots| == |p.slots|
    && forall j | 0 <= j <= mac :: q.slots[j] == PulledSlot(p.slots, mac, at, n, i, j)
  }

  /** Row `k` after DeleteRow handled the rows at..i-1 of the array `a`. */
  predicate PulledUpRow(b: RowPtr, a: seq<RowPtr>, mar: int, mac: int, at: nat, n: nat, i: int, k: nat)
    requires k <= mar < |a|
  {
    if k < at then b == a[k]
    else if k < i then (if k + n <= mar then Renumbered(b, a[k + n], mac, k) else RowBlank(b, mac))
    else if at + n <= k < i + n then RowBlank(b, mac)
    else b == a[k]
  }

  predicate PulledUp(b: seq<RowPtr>, a: seq<RowPtr>, mar: int, mac: int, at: nat, n: nat, i: int) {
    && mar < |a| && mar < |b|
    && forall k | 0 <= k <= mar :: PulledUpRow(b[k], a, mar, mac, at, n, i, k)
  }

  /** Row `k` after InsertRow pushed the rows of `a` from `at` on down by `n`. */
  predicate PushedDownRow(b: RowPtr, a: seq<RowPtr>, mac: int, at: nat, n: nat, k: nat)
    requires k < |a|
  {
    if k < at then b == a[k] else if k < at + n then RowBlank(b, mac) else Renumbered(b, a[k - n], mac, k)
  }

  // ---- what the finished moves mean for the grid ----

  /** A grown store: the old slots, and null pointers in the area added. */
  ghost predicate Grown(g: seq<RowPtr>, gmar: int, gmac: int, data: seq<RowPtr>, mar: int, mac: int)
    requires Laid(data, mar, mac) && Laid(g, gmar, gmac) && mar <= gmar && mac <= gmac
  {
    forall i, j | 0 <= i <= gmar && 0 <= j <= gmac ::
      RowReady(g[i], gmac, i) && (0 <= i <= mar ==> RowReady(data[i], mac, i)) &&
      g[i].slots[j] == if i <= mar && j <= mac then data[i].slots[j] else Empty
  }

  /** Row `q` is row `p` with blank slots from column `iniCol` to the new corner. */
  predicate Widened(q: RowPtr, p: RowPtr, iniCol: nat, mac: int) {
    && p.Buffer? && q.Buffer? && iniCol <= |p.slots| && mac < |q.slots|
    && forall j | 0 <= j <= mac :: q.slots[j] == if j < iniCol then (if j < |p.slots| then p.slots[j] else Empty) else Empty
  }

  lemma LaidRows(data: seq<RowPtr>, mar: int, mac: int)
    requires Laid(data, mar, mac)
    ensures -1 <= mar < |data| && -1 <= mac && forall i | 0 <= i <= mar :: RowReady(data[i], mac, i)
  {
  }

  /** New rows first, `tall`, then new columns, `data`. */
  lemma GrownLaid(was: seq<RowPtr>, mar0: int, tall: seq<RowPtr>, data: seq<RowPtr>, mar: int, mac0: int, mac: int)
    requires -1 <= mar0 <= mar < |tall| && mar0 < |was| && |data| == |tall| && -1 <= mac0 <= mac
    requires forall k | 0 <= k <= mar0 :: tall[k] == was[k]
    requires forall k | 0 <= k <= mar :: RowReady(tall[k], mac0, k)
    requires forall k | mar0 < k <= mar :: RowBlank(tall[k], mac0)
    requires if mac == mac0 then data == tall else forall k | 0 <= k <= mar :: Widened(data[k], tall[k], mac0 + 1, mac)
    ensures Laid(data, mar, mac)
    ensures forall i, j | 0 <= i <= mar && 0 <= j <= mac ::
      && RowReady(data[i], mac, i) && (i <= mar0 ==> RowReady(was[i], mac0, i))
      && data[i].slots[j] == if i <= mar0 && j <= mac0 then was[i].slots[j] else Empty
  {
    forall k | 0 <= k <= mar ensures RowReady(data[k], mac, k) {
      assert RowReady(tall[k], mac0, k);
      if mac > mac0 { assert Widened(data[k], tall[k], mac0 + 1, mac); }
    }
  }

  lemma GrownShows(g: seq<RowPtr>, gmar: int, gmac: int, data: seq<RowPtr>, mar: int, mac: int)
    requires Laid(data, mar, mac) && Laid(g, gmar, gmac) && mar <= gmar && mac <= gmac
    requires Grown(g, gmar, gmac, data, mar, mac)
    ensures forall i, j {:trigger TextAt(g, gmar, gmac, i, j)} ::
      TextAt(g, gmar, gmac, i, j) == TextAt(data, mar, mac, i, j)
  {
  }

  lemma MoreRows(data: seq<RowPtr>, mar: int, mac: int, rows: nat, cols: nat, at: nat, n: nat)
    requires Laid(data, mar, mac)
    requires forall i, j | Min(at, rows) <= i :: TextAt(data, mar, mac, i, j) == None
    ensures Dense(data, mar, mac, rows + n, cols) == InsertRows(Dense(data, mar, mac, rows, cols), at, n)
  {
    DenseAt(data, mar, mac, rows, cols);
    InsertRowsAt(Dense(data, mar, mac, rows, cols), at, n);
    DenseIs(data, mar, mac, rows + n, cols, InsertRows(Dense(data, mar, mac, rows, cols), at, n));
  }

  lemma MoreColumns(data: seq<RowPtr>, mar: int, mac: int, rows: nat, cols: nat, at: nat, n: nat)
    requires Laid(data, mar, mac)
    requires forall i, j | Min(at, cols) <= j :: TextAt(data, mar, mac, i, j) == None
    ensures Dense(data, mar, mac, rows, cols + n) == InsertColumns(Dense(data, mar, mac, rows, cols), at, n)
  {
    DenseAt(data, mar, mac, rows, cols);
    InsertColumnsAt(Dense(data, mar, mac, rows, cols), at, n);
    DenseIs(data, mar, mac, rows, cols + n, InsertColumns(Dense(data, mar, mac, rows, cols), at, n));
  }

  /** The blank store a new sheet starts from shows a blank grid. */
  lemma BlankStore(data: seq<RowPtr>, rows: nat, cols: nat)
    requires Laid(data, 1, 1)
    requires forall i, j | 0 <= i <= 1 && 0 <= j <= 1 :: data[i].slots[j].Empty?
    ensures Dense(data, 1, 1, rows, cols) == NewGrid(rows, cols)
  {
    DenseIs(data, 1, 1, rows, cols, NewGrid(rows, cols));
  }

  lemma ClearBeyond(data: seq<RowPtr>, mar: int, mac: int, rows: nat, cols: nat, i: int, j: int)
    requires Laid(data, mar, mac) && (mar < i || mac < j)
    ensures SetText(Dense(data, mar, mac, rows, cols), i, j, None) == Dense(data, mar, mac, rows, cols)
  {
    DenseAt(data, mar, mac, rows, cols);
    DenseIs(data, mar, mac, rows, cols, SetText(Dense(data, mar, mac, rows, cols), i, j, None));
  }

  lemma EraseBeyond(data: seq<RowPtr>, mar: int, mac: int, rows: nat, cols: nat, at: nat)
    requires Laid(data, mar, mac) && mac < at
    ensures EraseFrom(Dense(data, mar, mac, rows, cols), at) == Dense(data, mar, mac, rows, cols)
  {
    DenseAt(data, mar, mac, rows, cols);
    EraseFromAt(Dense(data, mar, mac, rows, cols), at);
    DenseIs(data, mar, mac, rows, cols, EraseFrom(Dense(data, mar, mac, rows, cols), at));
  }

  lemma FewerRows(data: seq<RowPtr>, mar: int, mac: int, rows: nat, cols: nat, at: nat, n: nat)
    requires Laid(data, mar, mac) && mar < at && at + n <= rows && 0 < n
    ensures Dense(data, mar, mac, rows - n, cols) == DeleteRows(Dense(data, mar, mac, rows, cols), at, n)
  {
    DenseAt(data, mar, mac, rows, cols);
    DeleteRowsAt(Dense(data, mar, mac, rows, cols), at, n);
    DenseIs(data, mar, mac, rows - n, cols, DeleteRows(Dense(data, mar, mac, rows, cols), at, n));
  }

  lemma FewerColumns(data: seq<RowPtr>, mar: int, mac: int, rows: nat, cols: nat, at: nat, n: nat)
    requires Laid(data, mar, mac) && mac < at && at + n <= cols && 0 < n
    ensures Dense(data, mar, mac, rows, cols - n) == DeleteColumns(Dense(data, mar, mac, rows, cols), at, n)
  {
    DenseAt(data, mar, mac, rows, cols);
    DeleteColumnsAt(Dense(data, mar, mac, rows, cols), at, n);
    DenseIs(data, mar, mac, rows, cols - n, DeleteColumns(Dense(data, mar, mac, rows, cols), at, n));
  }

  lemma RenumberedReady(q: RowPtr, p: RowPtr, mac: int, i: int, k: int)
    requires RowReady(p, mac, i) && Renumbered(q, p, mac, k)
    ensures RowReady(q, mac, k)
    ensures forall j | 0 <= j <= mac :: SlotText(q.slots[j]) == SlotText(p.slots[j])
  {
    forall j | 0 <= j <= mac ensures Ready(q.slots[j], k, j) && SlotText(q.slots[j]) == SlotText(p.slots[j]) {
      assert Ready(p.slots[j], i, j);
    }
  }

  lemma PushedRightReady(q: RowPtr, p: RowPtr, mac: int, at: nat, n: nat, i: int)
    requires RowReady(p, mac, i) && PushedRight(q, p, mac, at, n)
    ensures RowReady(q, mac, i)
    ensures forall j | 0 <= j <= mac :: q.slots[j] == PushedSlot(p.slots, at, n, j)
  {
    forall j | 0 <= j <= mac ensures Ready(q.slots[j], i, j) {
      assert Ready(p.slots[j], i, j);
      assert j >= at + n ==> Ready(p.slots[j - n], i, j - n);
    }
  }

  lemma PulledLeftReady(q: RowPtr, p: RowPtr, mac: int, at: nat, n: nat, left: int, i: int, c: int)
    requires RowReady(p, mac, i) && PulledLeft(q, p, mac, at, n, c)
    requires left <= c && at <= mac && left == mac - Min(n, mac - at + 1) && 0 < n
    ensures RowReady(q, left, i)
    ensures forall j {:trigger q.slots[j]} | 0 <= j <= left && j < c ::
      q.slots[j] == if j < at then p.slots[j] else InColumn(p.slots[j + n], j)
    ensures 0 <= left == c ==> q.slots[c] == if at + n <= c then Empty else p.slots[c]
  {
    forall j | 0 <= j <= left ensures Ready(q.slots[j], i, j) {
      assert Ready(p.slots[j], i, j);
      assert j >= at && j < c ==> Ready(p.slots[j + n], i, j + n);
    }
  }

  /** Beyond the allocated corner the column loop has nothing left to do. */
  lemma PulledLeftBeyond(q: RowPtr, p: RowPtr, mac: int, at: nat, n: nat, i: int)
    requires PulledLeft(q, p, mac, at, n, i) && mac < i && at < i
    ensures PulledLeft(q, p, mac, at, n, i + 1)
  {
    forall j | 0 <= j <= mac ensures q.slots[j] == PulledSlot(p.slots, mac, at, n, i + 1, j) {
      assert q.slots[j] == PulledSlot(p.slots, mac, at, n, i, j);
    }
  }

  // ---- the texts after each finished move, and the grid they make up ----

  /** What stands where once `n` lines came in at `at`. */
  function TextBefore(at: nat, n: nat, k: int): Option<int> {
    if k < at then Some(k) else if k < at + n then None else Some(k - n)
  }

  /** The rows from `at` on moved down by `n`. */
  ghost predicate RowsMoved(d: seq<RowPtr>, dmar: int, data: seq<RowPtr>, mar: int, mac: int, at: nat, n: nat)
    requires Laid(d, dmar, mac) && Laid(data, mar, mac)
  {
    forall i, j {:trigger TextAt(d, dmar, mac, i, j)} ::
      TextAt(d, dmar, mac, i, j) ==
      var k := TextBefore(at, n, i);
      if k.None? then None else TextAt(data, mar, mac, k.value, j)
  }

  /** The columns from `at` on moved right by `n`; none at all, and they are gone. */
  ghost predicate ColumnsMoved(d: seq<RowPtr>, dmac: int, data: seq<RowPtr>, mar: int, mac: int, at: nat, n: nat)
    requires Laid(d, mar, dmac) && Laid(data, mar, mac)
  {
    forall i, j {:trigger TextAt(d, mar, dmac, i, j)} ::
      TextAt(d, mar, dmac, i, j) ==
      var k := TextBefore(at, n, j);
      if k.None? || (n == 0 && j >= at) then None else TextAt(data, mar, mac, i, k.value)
  }

  lemma InsertedRows(data: seq<RowPtr>, mar: int, mac: int, rows: nat, cols: nat,
                     g: seq<RowPtr>, d: seq<RowPtr>, at: nat, n: nat)
    requires Laid(data, mar, mac) && at <= mar <= rows
    requires Laid(g, mar + n, mac) && Grown(g, mar + n, mac, data, mar, mac)
    requires mar + n < |d|
    requires forall k | 0 <= k <= mar + n :: PushedDownRow(d[k], g, mac, at, n, k)
    ensures Laid(d, mar + n, mac) && RowsMoved(d, mar + n, data, mar, mac, at, n)
    ensures Dense(d, mar + n, mac, rows + n, cols) == InsertRows(Dense(data, mar, mac, rows, cols), at, n)
  {
    forall k | 0 <= k <= mar + n ensures RowReady(d[k], mac, k) {
      assert PushedDownRow(d[k], g, mac, at, n, k) && RowReady(g[k], mac, k);
      if k >= at + n { RenumberedReady(d[k], g[k - n], mac, k - n, k); }
    }
    GrownShows(g, mar + n, mac, data, mar, mac);
    forall i, j ensures TextAt(d, mar + n, mac, i, j) ==
      var k := TextBefore(at, n, i); if k.None? then None else TextAt(data, mar, mac, k.value, j)
    {
      var k := if i < at then i else i - n;
      assert TextAt(g, mar + n, mac, k, j) == TextAt(data, mar, mac, k, j);
      if 0 <= i <= mar + n {
        assert PushedDownRow(d[i], g, mac, at, n, i);
        if i >= at + n { RenumberedReady(d[i], g[k], mac, k, i); }
      }
    }
    RowsInserted(data, mar, mac, rows, cols, d, at, n);
  }

  lemma RowsInserted(data: seq<RowPtr>, mar: int, mac: int, rows: nat, cols: nat, d: seq<RowPtr>, at: nat, n: nat)
    requires Laid(data, mar, mac) && Laid(d, mar + n, mac) && at <= rows && RowsMoved(d, mar + n, data, mar, mac, at, n)
    ensures Dense(d, mar + n, mac, rows + n, cols) == InsertRows(Dense(data, mar, mac, rows, cols), at, n)
  {
    var was := Dense(data, mar, mac, rows, cols);
    DenseAt(data, mar, mac, rows, cols);
    InsertRowsAt(was, at, n);
    forall i, j | 0 <= i < rows + n && 0 <= j < cols
      ensures TextAt(d, mar + n, mac, i, j) == InsertRows(was, at, n).At(i, j)
    {
      assert InsertRows(was, at, n).At(i, j) ==
        if at <= i < at + n then None else was.At(if i < at then i else i - n, j);
    }
    DenseIs(d, mar + n, mac, rows + n, cols, InsertRows(was, at, n));
  }

  lemma InsertedColumns(data: seq<RowPtr>, mar: int, mac: int, rows: nat, cols: nat,
                        g: seq<RowPtr>, d: seq<RowPtr>, at: nat, n: nat)
    requires Laid(data, mar, mac) && at <= mac <= cols
    requires Laid(g, mar, mac + n) && Grown(g, mar, mac + n, data, mar, mac)
    requires mar < |d| && forall k | 0 <= k <= mar :: PushedRight(d[k], g[k], mac + n, at, n)
    ensures Laid(d, mar, mac + n) && ColumnsMoved(d, mac + n, data, mar, mac, at, n)
    ensures Dense(d, mar, mac + n, rows, cols + n) ==
      if n == 0 then EraseFrom(Dense(data, mar, mac, rows, cols), at)
      else InsertColumns(Dense(data, mar, mac, rows, cols), at, n)
  {
    forall k | 0 <= k <= mar ensures RowReady(d[k], mac + n, k) {
      assert RowReady(g[k], mac + n, k) && PushedRight(d[k], g[k], mac + n, at, n);
      PushedRightReady(d[k], g[k], mac + n, at, n, k);
    }
    GrownShows(g, mar, mac + n, data, mar, mac);
    forall i, j ensures TextAt(d, mar, mac + n, i, j) ==
      var k := TextBefore(at, n, j); if k.None? || (n == 0 && j >= at) then None else TextAt(data, mar, mac, i, k.value)
    {
      var k := if j < at then j else j - n;
      assert TextAt(g, mar, mac + n, i, k) == TextAt(data, mar, mac, i, k);
      assert TextAt(g, mar, mac + n, i, j) == TextAt(data, mar, mac, i, j);
      if 0 <= i <= mar { PushedRightReady(d[i], g[i], mac + n, at, n, i); }
    }
    ColumnsInserted(data, mar, mac, rows, cols, d, at, n);
  }

  lemma ColumnsInserted(data: seq<RowPtr>, mar: int, mac: int, rows: nat, cols: nat, d: seq<RowPtr>, at: nat, n: nat)
    requires Laid(data, mar, mac) && Laid(d, mar, mac + n) && at <= cols && ColumnsMoved(d, mac + n, data, mar, mac, at, n)
    ensures Dense(d, mar, mac + n, rows, cols + n) ==
      if n == 0 then EraseFrom(Dense(data, mar, mac, rows, cols), at)
      else InsertColumns(Dense(data, mar, mac, rows, cols), at, n)
  {
    var was := Dense(data, mar, mac, rows, cols);
    DenseAt(data, mar, mac, rows, cols);
    InsertColumnsAt(was, at, n);
    EraseFromAt(was, at);
    var want := if n == 0 then EraseFrom(was, at) else InsertColumns(was, at, n);
    forall i, j | 0 <= i < rows && 0 <= j < cols + n ensures TextAt(d, mar, mac + n, i, j) == want.At(i, j) {
      assert want.At(i, j) ==
        if (at <= j < at + n) || (n == 0 && j >= at) then None else was.At(i, if j < at then j else j - n);
    }
    DenseIs(d, mar, mac + n, rows, cols + n, want);
  }

  /**
   `moved` is the row array after the moving loop, `d` the one after the rows at its end were freed.
   All rows of the sheet that is left are there; the spare row of a sheet allocated beyond its end is not.
   */
  lemma DeletedRows(data: seq<RowPtr>, mar: int, mac: int, rows: nat, cols: nat,
                    moved: seq<RowPtr>, d: seq<RowPtr>, at: nat, n: nat)
    requires Laid(data, mar, mac) && at <= mar <= rows && 0 < n && at + n <= rows
    requires PulledUp(moved, data, mar, mac, at, n, rows - n)
    requires |d| == |moved| && forall k | 0 <= k < rows - n && k < |d| :: d[k] == moved[k]
    ensures var left := Min(mar - Min(n, mar - at + 1), rows - n - 1);
      && Laid(d, left, mac)
      && (forall i, j {:trigger TextAt(d, left, mac, i, j)} | i < rows - n ::
            TextAt(d, left, mac, i, j) == TextAt(data, mar, mac, if i < at then i else i + n, j))
      && Dense(d, left, mac, rows - n, cols) == DeleteRows(Dense(data, mar, mac, rows, cols), at, n)
  {
    hide Dense, DeleteRows, PulledUpRow;
    var left := Min(mar - Min(n, mar - at + 1), rows - n - 1);
    forall k | 0 <= k <= left || (0 <= k <= mar && k < rows - n)
      ensures k < |d| && PulledUpRow(d[k], data, mar, mac, at, n, rows - n, k)
    {
      assert PulledUpRow(moved[k], data, mar, mac, at, n, rows - n, k);
    }
    RowsReady(data, mar, mac, rows, d, left, at, n);
    RowTexts(data, mar, mac, rows, d, left, at, n);
    RowsDeleted(data, mar, mac, rows, cols, d, left, at, n);
  }

  lemma RowsReady(data: seq<RowPtr>, mar: int, mac: int, rows: nat, d: seq<RowPtr>, left: int, at: nat, n: nat)
    requires Laid(data, mar, mac) && at <= mar <= rows && 0 < n && at + n <= rows
    requires left == Min(mar - Min(n, mar - at + 1), rows - n - 1) < |d|
    requires forall k | 0 <= k <= left :: PulledUpRow(d[k], data, mar, mac, at, n, rows - n, k)
    ensures Laid(d, left, mac)
  {
    forall k | 0 <= k <= left ensures RowReady(d[k], mac, k) {
      assert RowReady(data[k], mac, k) && PulledUpRow(d[k], data, mar, mac, at, n, rows - n, k);
      if k >= at { RenumberedReady(d[k], data[k + n], mac, k + n, k); }
    }
  }

  lemma RowTexts(data: seq<RowPtr>, mar: int, mac: int, rows: nat, d: seq<RowPtr>, left: int, at: nat, n: nat)
    requires Laid(data, mar, mac) && at <= mar <= rows && 0 < n && at + n <= rows
    requires left == Min(mar - Min(n, mar - at + 1), rows - n - 1) && Laid(d, left, mac)
    requires forall k | 0 <= k <= left :: PulledUpRow(d[k], data, mar, mac, at, n, rows - n, k)
    ensures forall i, j {:trigger TextAt(d, left, mac, i, j)} | i < rows - n ::
      TextAt(d, left, mac, i, j) == TextAt(data, mar, mac, if i < at then i else i + n, j)
  {
    forall i, j | i < rows - n
      ensures TextAt(d, left, mac, i, j) == TextAt(data, mar, mac, if i < at then i else i + n, j)
    {
      assert 0 <= i <= left ==> PulledUpRow(d[i], data, mar, mac, at, n, rows - n, i);
      if at <= i <= left { RenumberedReady(d[i], data[i + n], mac, i + n, i); }
    }
  }

  lemma RowsDeleted(data: seq<RowPtr>, mar: int, mac: int, rows: nat, cols: nat, d: seq<RowPtr>, left: int, at: nat, n: nat)
    requires Laid(data, mar, mac) && Laid(d, left, mac) && 0 < n && at + n <= rows
    requires forall i, j {:trigger TextAt(d, left, mac, i, j)} | i < rows - n ::
      TextAt(d, left, mac, i, j) == TextAt(data, mar, mac, if i < at then i else i + n, j)
    ensures Dense(d, left, mac, rows - n, cols) == DeleteRows(Dense(data, mar, mac, rows, cols), at, n)
  {
    var was := Dense(data, mar, mac, rows, cols);
    DenseAt(data, mar, mac, rows, cols);
    DeleteRowsAt(was, at, n);
    forall i, j | 0 <= i < rows - n && 0 <= j < cols
      ensures TextAt(d, left, mac, i, j) == DeleteRows(was, at, n).At(i, j)
    {
      assert DeleteRows(was, at, n).At(i, j) == was.At(if i < at then i else i + n, j);
    }
    DenseIs(d, left, mac, rows - n, cols, DeleteRows(was, at, n));
  }

  /** Deleting all rows moves none: the first buffer is what it was. */
  lemma FirstRowStays(data: seq<RowPtr>, moved: seq<RowPtr>, mar: int, mac: int, at: nat, n: nat)
    requires 0 <= mar < |data| && at == 0 && PulledUp(moved, data, mar, mac, at, n, 0) && n > 0
    ensures moved[0] == data[0]
  {
    assert PulledUpRow(moved[0], data, mar, mac, at, n, 0, 0);
  }

  /** The column behind the sheet that is left holds what it held before, unless the loop emptied it. */
  ghost predicate ColumnsPulled(d: seq<RowPtr>, left: int, data: seq<RowPtr>, mar: int, mac: int, cols: nat, at: nat, n: nat)
    requires Laid(d, mar, left) && Laid(data, mar, mac) && n <= cols
  {
    forall i, j {:trigger TextAt(d, mar, left, i, j)} ::
      TextAt(d, mar, left, i, j) ==
      if j > left then None
      else if j < cols - n then TextAt(data, mar, mac, i, if j < at then j else j + n)
      else if at + n <= j then None
      else TextAt(data, mar, mac, i, j)
  }

  lemma DeletedColumns(data: seq<RowPtr>, mar: int, mac: int, rows: nat, cols: nat, d: seq<RowPtr>, at: nat, n: nat)
    requires Laid(data, mar, mac) && at <= mac <= cols && 0 < n && at + n <= cols
    requires mar < |d| && forall k | 0 <= k <= mar :: PulledLeft(d[k], data[k], mac, at, n, cols - n)
    ensures var left := mac - Min(n, mac - at + 1);
      && Laid(d, mar, left) && ColumnsPulled(d, left, data, mar, mac, cols, at, n)
      && Dense(d, mar, left, rows, cols - n) == DeleteColumns(Dense(data, mar, mac, rows, cols), at, n)
  {
    hide Dense, DeleteColumns, ColumnsPulled, PulledLeft;
    ColumnsReady(data, mar, mac, cols, d, at, n);
    ColumnTexts(data, mar, mac, cols, d, at, n);
    ColumnsDeleted(data, mar, mac, rows, cols, d, mac - Min(n, mac - at + 1), at, n);
  }

  lemma ColumnsReady(data: seq<RowPtr>, mar: int, mac: int, cols: nat, d: seq<RowPtr>, at: nat, n: nat)
    requires Laid(data, mar, mac) && at <= mac <= cols && 0 < n && at + n <= cols
    requires mar < |d| && forall k | 0 <= k <= mar :: PulledLeft(d[k], data[k], mac, at, n, cols - n)
    ensures Laid(d, mar, mac - Min(n, mac - at + 1))
  {
    hide PulledLeft;
    var left := mac - Min(n, mac - at + 1);
    forall k | 0 <= k <= mar ensures RowReady(d[k], left, k) {
      PulledLeftReady(d[k], data[k], mac, at, n, left, k, cols - n);
    }
  }

  lemma ColumnTexts(data: seq<RowPtr>, mar: int, mac: int, cols: nat, d: seq<RowPtr>, at: nat, n: nat)
    requires Laid(data, mar, mac) && at <= mac <= cols && 0 < n && at + n <= cols
    requires mar < |d| && forall k | 0 <= k <= mar :: PulledLeft(d[k], data[k], mac, at, n, cols - n)
    requires Laid(d, mar, mac - Min(n, mac - at + 1))
    ensures ColumnsPulled(d, mac - Min(n, mac - at + 1), data, mar, mac, cols, at, n)
  {
    var left, c := mac - Min(n, mac - at + 1), cols - n;
    forall i, j ensures TextAt(d, mar, left, i, j) ==
      if j > left then None
      else if j < c then TextAt(data, mar, mac, i, if j < at then j else j + n)
      else if at + n <= j then None
      else TextAt(data, mar, mac, i, j)
    {
      if 0 <= i <= mar {
        assert RowReady(data[i], mac, i) && RowReady(d[i], left, i);
        PulledLeftReady(d[i], data[i], mac, at, n, left, i, c);
      }
    }
  }

  lemma ColumnsDeleted(data: seq<RowPtr>, mar: int, mac: int, rows: nat, cols: nat, d: seq<RowPtr>, left: int, at: nat, n: nat)
    requires Laid(data, mar, mac) && Laid(d, mar, left) && 0 < n && at + n <= cols && at <= mac
    requires left == mac - Min(n, mac - at + 1) && ColumnsPulled(d, left, data, mar, mac, cols, at, n)
    ensures Dense(d, mar, left, rows, cols - n) == DeleteColumns(Dense(data, mar, mac, rows, cols), at, n)
  {
    var was := Dense(data, mar, mac, rows, cols);
    DenseAt(data, mar, mac, rows, cols);
    DeleteColumnsAt(was, at, n);
    forall i, j | 0 <= i < rows && 0 <= j < cols - n
      ensures TextAt(d, mar, left, i, j) == DeleteColumns(was, at, n).At(i, j)
    {
      assert DeleteColumns(was, at, n).At(i, j) == was.At(i, if j < at then j else j + n);
    }
    DenseIs(d, mar, left, rows, cols - n, DeleteColumns(was, at, n));
  }
}
