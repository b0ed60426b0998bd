/**
 The reference for the attribute sheet: a plain dense grid of texts on which inserting and
 deleting lines only shifts. The sparse store of Sheet.dfy is proved to behave like it.
 */
module Grid {
  import opened Wrappers

  /** The text shown by one cell, absent for a blank one. */
  type Text = Option<string>

  datatype Grid = Grid(width: nat, rows: seq<seq<Text>>) {
    ghost predicate Valid() {
      forall i | 0 <= i < |rows| :: |rows[i]| == width
    }

    predicate Has(i: int, j: int) {
      0 <= i < |rows| && 0 <= j < |rows[i]|
    }

    /** The text at (i, j), absent outside the grid. */
    function At(i: int, j: int): Text {
      if Has(i, j) then rows[i][j] else None
    }
  }

  function Min(a: int, b: int): int {
    if a <= b then a else b
  }

  /** What a read of a stored text shows: the empty text counts as absent. */
  function Shown(text: Option<string>): Text {
    if text.Some? && text.value != "" then text else None
  }

  function Blank(n: nat): seq<Text> {
    seq(n, _ => None)
  }

  // ---- splicing one sequence, used for rows and, row by row, for columns ----

  /** Puts `extra` before position `at`, or at the end when `at` lies beyond it. */
  function Splice<T>(s: seq<T>, at: nat, extra: seq<T>): seq<T> {
    if at <= |s| then s[..at] + extra + s[at..] else s + extra
  }

  /** Drops the `n` elements from position `at` on, as far as there are any. */
  function Cut<T>(s: seq<T>, at: nat, n: nat): seq<T> {
    if at >= |s| then s else s[..at] + s[Min(at + n, |s|)..]
  }

  lemma SpliceLength<T>(s: seq<T>, at: nat, extra: seq<T>)
    ensures |Splice(s, at, extra)| == |s| + |extra|
  {
  }

  lemma CutLength<T>(s: seq<T>, at: nat, n: nat)
    ensures |Cut(s, at, n)| == |s| - if at >= |s| then 0 else Min(at + n, |s|) - at
  {
  }

  lemma SpliceIndex<T>(s: seq<T>, at: nat, extra: seq<T>, k: nat)
    requires k < |s| + |extra|
    ensures var p := Min(at, |s|);
            && |Splice(s, at, extra)| == |s| + |extra|
            && Splice(s, at, extra)[k] ==
               if k < p then s[k] else if k < p + |extra| then extra[k - p] else s[k - |extra|]
  {
  }

  lemma CutIndex<T>(s: seq<T>, at: nat, n: nat, k: nat)
    requires k < |Cut(s, at, n)|
    ensures var d := if at >= |s| then 0 else Min(at + n, |s|) - at;
            && |Cut(s, at, n)| == |s| - d
            && Cut(s, at, n)[k] == if k < at then s[k] else s[k + d]
  {
  }

  /** Only what is there can be cut. */
  lemma CutClip<T>(s: seq<T>, at: nat, n: nat, count: nat)
    requires at <= |s| && n == Min(count, |s| - at)
    ensures Cut(s, at, n) == Cut(s, at, count)
  {
  }

  lemma CutBeyond<T>(s: seq<T>, at: nat, n: nat)
    requires at >= |s|
    ensures Cut(s, at, n) == s
  {
  }

  // ---- the grid operations ----

  function NewGrid(rows: nat, cols: nat): (g: Grid)
    ensures g.Valid() && |g.rows| == rows && g.width == cols && forall i, j :: g.At(i, j) == None
  {
    Grid(cols, seq(rows, _ => Blank(cols)))
  }

  function SetText(g: Grid, i: int, j: int, text: Text): Grid {
    if g.Has(i, j) then g.(rows := g.rows[i := g.rows[i][j := text]]) else g
  }

  function InsertRows(g: Grid, at: nat, n: nat): Grid {
    g.(rows := Splice(g.rows, at, seq(n, _ => Blank(g.width))))
  }

  function DeleteRows(g: Grid, at: nat, n: nat): Grid {
    g.(rows := Cut(g.rows, at, n))
  }

  function InsertColumns(g: Grid, at: nat, n: nat): Grid {
    Grid(g.width + n, seq(|g.rows|, i requires 0 <= i < |g.rows| => Splice(g.rows[i], at, Blank(n))))
  }

  function DeleteColumns(g: Grid, at: nat, n: nat): Grid {
    Grid(if at >= g.width then g.width else g.width - (Min(at + n, g.width) - at),
         seq(|g.rows|, i requires 0 <= i < |g.rows| => Cut(g.rows[i], at, n)))
  }

  /** Blanks every cell from column `at` on. */
  function EraseFrom(g: Grid, at: nat): Grid {
    g.(rows := seq(|g.rows|, i requires 0 <= i < |g.rows| =>
         seq(|g.rows[i]|, j requires 0 <= j < |g.rows[i]| => if j < at then g.rows[i][j] else None)))
  }

  // ---- independent, cell by cell description of each operation ----

  lemma InsertRowsAt(g: Grid, at: nat, n: nat)
    requires g.Valid()
    ensures InsertRows(g, at, n).Valid()
    ensures |InsertRows(g, at, n).rows| == |g.rows| + n && InsertRows(g, at, n).width == g.width
    ensures var p := Min(at, |g.rows|);
            forall i, j {:trigger InsertRows(g, at, n).At(i, j)} :: InsertRows(g, at, n).At(i, j) ==
              if i < p then g.At(i, j) else if i < p + n then None else g.At(i - n, j)
  {
    var h := InsertRows(g, at, n);
    var p := Min(at, |g.rows|);
    forall i: int, j: int {:trigger h.At(i, j)} ensures h.At(i, j) == if i < p then g.At(i, j) else if i < p + n then None else g.At(i - n, j) {
      if 0 <= i < |h.rows| { SpliceIndex(g.rows, at, seq(n, _ => Blank(g.width)), i); }
    }
  }

  lemma DeleteRowsAt(g: Grid, at: nat, n: nat)
    requires g.Valid()
    ensures DeleteRows(g, at, n).Valid() && DeleteRows(g, at, n).width == g.width
    ensures var k := if at >= |g.rows| then 0 else Min(at + n, |g.rows|) - at;
            && |DeleteRows(g, at, n).rows| == |g.rows| - k
            && forall i, j {:trigger DeleteRows(g, at, n).At(i, j)} :: DeleteRows(g, at, n).At(i, j) == if i < at then g.At(i, j) else g.At(i + k, j)
  {
    hide Cut;
    var k := if at >= |g.rows| then 0 else Min(at + n, |g.rows|) - at;
    CutRows(g.rows, at, n, k);
    RowsAt(g, DeleteRows(g, at, n), at, k);
  }

  lemma CutRows<T>(s: seq<T>, at: nat, n: nat, k: nat)
    requires k == if at >= |s| then 0 else Min(at + n, |s|) - at
    ensures |Cut(s, at, n)| == |s| - k
    ensures forall i | 0 <= i < |s| - k :: Cut(s, at, n)[i] == s[if i < at then i else i + k]
  {
  }

  /** A grid whose rows from `at` on are those `k` further down in another. */
  lemma RowsAt(g: Grid, h: Grid, at: nat, k: nat)
    requires g.Valid() && h.width == g.width && k <= |g.rows| && |h.rows| == |g.rows| - k
    requires forall i | 0 <= i < |h.rows| :: h.rows[i] == g.rows[if i < at then i else i + k]
    requires at <= |h.rows| || k == 0
    ensures h.Valid()
    ensures forall i, j {:trigger h.At(i, j)} :: h.At(i, j) == if i < at then g.At(i, j) else g.At(i + k, j)
  {
  }

  lemma InsertColumnsAt(g: Grid, at: nat, n: nat)
    requires g.Valid()
    ensures InsertColumns(g, at, n).Valid()
    ensures |InsertColumns(g, at, n).rows| == |g.rows| && InsertColumns(g, at, n).width == g.width + n
    ensures var p := Min(at, g.width);
            forall i, j {:trigger InsertColumns(g, at, n).At(i, j)} :: InsertColumns(g, at, n).At(i, j) ==
              if j < p then g.At(i, j) else if j < p + n then None else g.At(i, j - n)
  {
    var p := Min(at, g.width);
    var h := InsertColumns(g, at, n);
    forall i: int, j: int {:trigger h.At(i, j)} ensures h.At(i, j) == if j < p then g.At(i, j) else if j < p + n then None else g.At(i, j - n) {
      if h.Has(i, j) { SpliceIndex(g.rows[i], at, Blank(n), j); }
    }
  }

  lemma DeleteColumnsAt(g: Grid, at: nat, n: nat)
    requires g.Valid()
    ensures DeleteColumns(g, at, n).Valid() && |DeleteColumns(g, at, n).rows| == |g.rows|
    ensures var k := if at >= g.width then 0 else Min(at + n, g.width) - at;
            && DeleteColumns(g, at, n).width == g.width - k
            && forall i, j {:trigger DeleteColumns(g, at, n).At(i, j)} :: DeleteColumns(g, at, n).At(i, j) == if j < at then g.At(i, j) else g.At(i, j + k)
  {
    var h := DeleteColumns(g, at, n);
    var k := if at >= g.width then 0 else Min(at + n, g.width) - at;
    forall i: int, j: int {:trigger h.At(i, j)} ensures h.At(i, j) == if j < at then g.At(i, j) else g.At(i, j + k) {
      if h.Has(i, j) { CutIndex(g.rows[i], at, n, j); }
    }
  }

  /** Two grids of the same shape that show the same texts are the same grid. */
  lemma Extensional(a: Grid, b: Grid)
    requires a.Valid() && b.Valid() && a.width == b.width && |a.rows| == |b.rows|
    requires forall i, j | 0 <= i < |a.rows| && 0 <= j < a.width :: a.At(i, j) == b.At(i, j)
    ensures a == b
  {
    forall i | 0 <= i < |a.rows| ensures a.rows[i] == b.rows[i] {
      forall j | 0 <= j < a.width ensures a.rows[i][j] == b.rows[i][j] {
        assert a.At(i, j) == b.At(i, j);
      }
    }
  }

  /** Only the columns there are can go. */
  lemma DeleteColumnsClip(g: Grid, at: nat, n: nat, count: nat)
    requires g.Valid()
    requires if at >= g.width then n == 0 else n == Min(count, g.width - at)
    ensures DeleteColumns(g, at, n) == DeleteColumns(g, at, count)
    ensures n == 0 ==> DeleteColumns(g, at, n) == g
  {
    DeleteColumnsAt(g, at, n);
    DeleteColumnsAt(g, at, count);
    Extensional(DeleteColumns(g, at, n), DeleteColumns(g, at, count));
    if n == 0 { Extensional(DeleteColumns(g, at, n), g); }
  }

  lemma SetTextAt(g: Grid, i: nat, j: nat, text: Text)
    requires g.Valid() && i < |g.rows| && j < g.width
    ensures SetText(g, i, j, text).Valid()
    ensures |SetText(g, i, j, text).rows| == |g.rows| && SetText(g, i, j, text).width == g.width
    ensures forall r, c {:trigger SetText(g, i, j, text).At(r, c)} ::
      SetText(g, i, j, text).At(r, c) == if r == i && c == j then text else g.At(r, c)
  {
  }

  lemma SetTextOutside(g: Grid, i: int, j: int, text: Text)
    requires !g.Has(i, j)
    ensures SetText(g, i, j, text) == g
  {
  }

  // ---- laws ----

  /** Deleting what was just inserted gives the grid back, exactly when the insertion point is inside. */
  lemma InsertThenDeleteRows(g: Grid, at: nat, n: nat)
    requires g.Valid()
    ensures DeleteRows(InsertRows(g, at, n), at, n) == g <==> n == 0 || at <= |g.rows|
  {
    hide DeleteRows, InsertRows;
    var h := DeleteRows(InsertRows(g, at, n), at, n);
    InsertRowsAt(g, at, n);
    DeleteRowsAt(InsertRows(g, at, n), at, n);
    if n == 0 || at <= |g.rows| {
      Extensional(h, g);
    }
  }

  lemma InsertThenDeleteColumns(g: Grid, at: nat, n: nat)
    requires g.Valid()
    ensures DeleteColumns(InsertColumns(g, at, n), at, n) == g <==> n == 0 || at <= g.width
  {
    hide DeleteColumns, InsertColumns;
    var h := DeleteColumns(InsertColumns(g, at, n), at, n);
    InsertColumnsAt(g, at, n);
    DeleteColumnsAt(InsertColumns(g, at, n), at, n);
    if n == 0 || at <= g.width {
      Extensional(h, g);
    }
  }

  /** Inserting n rows in one go is inserting them in two goes at the same place. */
  lemma InsertRowsSplits(g: Grid, at: nat, m: nat, n: nat)
    requires g.Valid() && at <= |g.rows|
    ensures InsertRows(InsertRows(g, at, m), at, n) == InsertRows(g, at, m + n)
  {
    InsertRowsAt(g, at, m);
    InsertRowsAt(InsertRows(g, at, m), at, n);
    InsertRowsAt(g, at, m + n);
    Extensional(InsertRows(InsertRows(g, at, m), at, n), InsertRows(g, at, m + n));
  }

  /** Row and column insertion do not interfere. */
  lemma InsertsCommute(g: Grid, r: nat, m: nat, c: nat, n: nat)
    requires g.Valid()
    ensures InsertColumns(InsertRows(g, r, m), c, n) == InsertRows(InsertColumns(g, c, n), r, m)
  {
    InsertRowsAt(g, r, m);
    InsertColumnsAt(InsertRows(g, r, m), c, n);
    InsertColumnsAt(g, c, n);
    InsertRowsAt(InsertColumns(g, c, n), r, m);
    Extensional(InsertColumns(InsertRows(g, r, m), c, n), InsertRows(InsertColumns(g, c, n), r, m));
  }

  /** Nor do row deletion and column deletion. */
  lemma DeletesCommute(g: Grid, r: nat, m: nat, c: nat, n: nat)
    requires g.Valid()
    ensures DeleteColumns(DeleteRows(g, r, m), c, n) == DeleteRows(DeleteColumns(g, c, n), r, m)
  {
    DeleteRowsAt(g, r, m);
    DeleteColumnsAt(DeleteRows(g, r, m), c, n);
    DeleteColumnsAt(g, c, n);
    DeleteRowsAt(DeleteColumns(g, c, n), r, m);
    Extensional(DeleteColumns(DeleteRows(g, r, m), c, n), DeleteRows(DeleteColumns(g, c, n), r, m));
  }

  lemma EraseFromAt(g: Grid, at: nat)
    requires g.Valid()
    ensures EraseFrom(g, at).Valid() && EraseFrom(g, at).width == g.width && |EraseFrom(g, at).rows| == |g.rows|
    ensures forall i, j {:trigger EraseFrom(g, at).At(i, j)} :: EraseFrom(g, at).At(i, j) == if j < at then g.At(i, j) else None
  {
  }
}
