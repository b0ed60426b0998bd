/**
 The row and column records of the sheet (GtkSheetRow and GtkSheetColumn have the same shape)
 and their geometry: the cached pixel offsets, the lookup of a line by pixel, and the in-place
 loops that append, insert and delete records.
 */
module SheetLines {
  import opened Wrappers
  import opened Grid

  /** One row (size = height, pixel = top_ypixel) or one column (size = width, pixel = left_xpixel);
      caption is the title button's label. */
  datatype Line = Line(
    size: nat,
    requisition: nat,
    pixel: int,
    name: Option<string>,
    caption: Option<string>,
    visible: bool,
    sensitive: bool)

  /** What a title button asks for. */
  datatype Size = Size(width: nat, height: nat)

  /** A record without its cached pixel. */
  function Record(l: Line): Line {
    l.(pixel := 0)
  }

  function Records(lines: seq<Line>): (r: seq<Line>)
    ensures |r| == |lines| && forall k | 0 <= k < |lines| :: r[k] == Record(lines[k])
  {
    seq(|lines|, k requires 0 <= k < |lines| => Record(lines[k]))
  }

  /** The record AddRow and AddColumn write into a new line. */
  function Fresh(size: nat): Line {
    Line(size, size, 0, None, None, true, true)
  }

  function FreshLines(n: nat, size: nat): (r: seq<Line>)
    ensures |r| == n && forall k | 0 <= k < n :: r[k] == Fresh(size)
  {
    seq(n, _ => Fresh(size))
  }

  lemma FreshFields(lines: seq<Line>, size: nat)
    requires Records(lines) == FreshLines(|lines|, size)
    ensures forall k | 0 <= k < |lines| :: lines[k] == Line(size, size, lines[k].pixel, None, None, true, true)
  {
    forall k | 0 <= k < |lines| ensures lines[k] == Line(size, size, lines[k].pixel, None, None, true, true) {
      assert Records(lines)[k] == Fresh(size);
    }
  }

  /** g_realloc: the common prefix survives, what is beyond it is `filler`. */
  function Realloc<T>(s: seq<T>, n: nat, filler: T): (r: seq<T>)
    ensures |r| == n
    ensures forall k | 0 <= k < n :: r[k] == if k < |s| then s[k] else filler
  {
    seq(n, k requires 0 <= k < n => if k < |s| then s[k] else filler)
  }

  // ---- geometry ----

  /** The pixels a line takes up on screen. */
  function Extent(l: Line): nat {
    if l.visible then l.size else 0
  }

  /** The header plus the extents of all lines before line `i`. */
  function Top(header: int, lines: seq<Line>, i: nat): int
    requires i <= |lines|
  {
    if i == 0 then header else Top(header, lines, i - 1) + Extent(lines[i - 1])
  }

  /** Every cached pixel is the true offset of its line. */
  ghost predicate PixelsExact(header: int, lines: seq<Line>) {
    forall i {:trigger lines[i].pixel} | 0 <= i < |lines| :: lines[i].pixel == Top(header, lines, i)
  }

  /** That is: the first line stands at the header, and each further one below the one before it, if that is shown. */
  lemma {:induction false} ExactPixels(header: int, lines: seq<Line>)
    ensures PixelsExact(header, lines) <==>
      && (lines != [] ==> lines[0].pixel == header)
      && forall i | 0 < i < |lines| ::
           lines[i].pixel == lines[i - 1].pixel + if lines[i - 1].visible then lines[i - 1].size else 0
  {
    if PixelsExact(header, lines) {
      forall i | 0 < i < |lines|
        ensures lines[i].pixel == lines[i - 1].pixel + if lines[i - 1].visible then lines[i - 1].size else 0
      {
        assert lines[i].pixel == Top(header, lines, i) && lines[i - 1].pixel == Top(header, lines, i - 1);
      }
    } else if && (lines != [] ==> lines[0].pixel == header)
              && forall i | 0 < i < |lines| ::
                   lines[i].pixel == lines[i - 1].pixel + if lines[i - 1].visible then lines[i - 1].size else 0 {
      forall i | 0 <= i < |lines| ensures lines[i].pixel == Top(header, lines, i) {
        PixelByStep(header, lines, i);
      }
    }
  }

  lemma {:induction false} PixelByStep(header: int, lines: seq<Line>, i: nat)
    requires i < |lines| && lines[0].pixel == header
    requires forall k | 0 < k < |lines| ::
      lines[k].pixel == lines[k - 1].pixel + if lines[k - 1].visible then lines[k - 1].size else 0
    ensures lines[i].pixel == Top(header, lines, i)
  {
    if i > 0 { PixelByStep(header, lines, i - 1); }
  }

  lemma {:induction false} TopDependsOnRecords(header: int, a: seq<Line>, b: seq<Line>, i: nat)
    requires i <= |a| && i <= |b|
    requires forall k | 0 <= k < i :: Extent(a[k]) == Extent(b[k])
    ensures Top(header, a, i) == Top(header, b, i)
  {
    if i > 0 {
      TopDependsOnRecords(header, a, b, i - 1);
    }
  }

  lemma {:induction false} TopMonotone(header: int, lines: seq<Line>, i: nat, j: nat)
    requires i <= j <= |lines|
    ensures Top(header, lines, i) <= Top(header, lines, j)
    ensures (forall k | i <= k < j :: Extent(lines[k]) == 0) ==> Top(header, lines, i) == Top(header, lines, j)
  {
    if i < j {
      TopMonotone(header, lines, i, j - 1);
    }
  }

  /** When one line changes its extent and the header moves, each line moves with what is before it. */
  lemma {:induction false} LineMoves(header: int, was: seq<Line>, header': int, now: seq<Line>, i: int, k: nat)
    requires k < |was| == |now| && PixelsExact(header, was) && PixelsExact(header', now)
    requires forall m | 0 <= m < |was| && m != i :: Record(was[m]) == Record(now[m])
    ensures now[k].pixel == was[k].pixel + header' - header + if 0 <= i < k then Extent(now[i]) - Extent(was[i]) else 0
  {
    hide PixelsExact;
    ExactPixels(header, was);
    ExactPixels(header', now);
    if k > 0 {
      LineMoves(header, was, header', now, i, k - 1);
      assert k - 1 != i ==> Record(was[k - 1]) == Record(now[k - 1]);
    }
  }

  lemma LinesMove(header: int, was: seq<Line>, header': int, now: seq<Line>, i: int)
    requires |was| == |now| && PixelsExact(header, was) && PixelsExact(header', now)
    requires forall m | 0 <= m < |was| && m != i :: Record(was[m]) == Record(now[m])
    ensures forall k | 0 <= k < |now| ::
      now[k].pixel == was[k].pixel + header' - header + if 0 <= i < k then Extent(now[i]) - Extent(was[i]) else 0
  {
    hide PixelsExact, Record, Extent;
    forall k | 0 <= k < |now|
      ensures now[k].pixel == was[k].pixel + header' - header + if 0 <= i < k then Extent(now[i]) - Extent(was[i]) else 0
    {
      LineMoves(header, was, header', now, i, k);
    }
  }

  /** Lines with equal records differ in their cached pixels only. */
  lemma SameRecords(was: seq<Line>, now: seq<Line>)
    requires Records(was) == Records(now)
    ensures |was| == |now| && forall k | 0 <= k < |now| :: Record(was[k]) == Record(now[k]) && now[k] == was[k].(pixel := now[k].pixel)
  {
    assert forall k | 0 <= k < |now| :: Records(was)[k] == Records(now)[k];
  }

  /** gtk_sheet_recalc_top_ypixels and gtk_sheet_recalc_left_xpixels. */
  method RecalcPixels(lines: seq<Line>, max: int, header: int) returns (r: seq<Line>)
    requires -1 <= max < |lines|
    ensures |r| == |lines| && Records(r[..max + 1]) == Records(lines[..max + 1])
    ensures PixelsExact(header, r[..max + 1])
  {
    hide Records, PixelsExact, Top;
    r := lines;
    var c := header;
    TopSteps(header, lines);
    var i := 0;
    while i <= max
      invariant 0 <= i <= max + 1
      invariant |r| == |lines|
      invariant forall k | 0 <= k < |r| :: Record(r[k]) == Record(lines[k])
      invariant c == Top(header, lines, i)
      invariant forall k | 0 <= k < i :: r[k].pixel == Top(header, lines, k)
    {
      r := r[i := r[i].(pixel := c)];
      if r[i].visible {
        c := c + r[i].size;
      }
      i := i + 1;
    }
    ExactTops(header, lines, r, max);
  }

  lemma TopSteps(header: int, lines: seq<Line>)
    ensures Top(header, lines, 0) == header
    ensures forall i {:trigger lines[i]} | 0 <= i < |lines| :: Top(header, lines, i + 1) == Top(header, lines, i) + Extent(lines[i])
  {
  }

  lemma ExactTops(header: int, lines: seq<Line>, r: seq<Line>, max: int)
    requires -1 <= max < |lines| == |r|
    requires forall k | 0 <= k < |r| :: Record(r[k]) == Record(lines[k])
    requires forall k | 0 <= k <= max :: r[k].pixel == Top(header, lines, k)
    ensures Records(r[..max + 1]) == Records(lines[..max + 1]) && PixelsExact(header, r[..max + 1])
  {
    var live := r[..max + 1];
    forall k | 0 <= k < |live| ensures live[k].pixel == Top(header, live, k) {
      assert forall m | 0 <= m < k :: Record(r[m]) == Record(lines[m]);
      TopDependsOnRecords(header, lines, live, k);
    }
  }

  /** SHEET_HEIGHT and SHEET_WIDTH: the offset a further line would have. */
  method TotalExtent(lines: seq<Line>, max: int, header: int) returns (c: int)
    requires -1 <= max < |lines|
    ensures c == Top(header, lines, max + 1)
  {
    c := header;
    var i := 0;
    while i <= max
      invariant 0 <= i <= max + 1
      invariant c == Top(header, lines, i)
    {
      if lines[i].visible {
        c := c + lines[i].size;
      }
      i := i + 1;
    }
  }

  /** Pixel `y` lies at or before the bottom edge of line `i`, which is shown. */
  ghost predicate Reaches(origin: int, lines: seq<Line>, i: nat, y: int)
    requires i < |lines|
  {
    lines[i].visible && y <= Top(origin, lines, i) + lines[i].size
  }

  /** `r` is the line a pixel belongs to: 0 before the first, the last when no line reaches it. */
  ghost predicate IsLineAt(origin: int, lines: seq<Line>, y: int, r: int) {
    if y < origin then r == 0
    else if 0 <= r < |lines| && Reaches(origin, lines, r, y) then
      forall k | 0 <= k < r :: !Reaches(origin, lines, k, y)
    else r == |lines| - 1 && forall k | 0 <= k < |lines| :: !Reaches(origin, lines, k, y)
  }

  lemma {:induction false} PastEarlierLines(origin: int, lines: seq<Line>, i: nat, y: int)
    requires i <= |lines| && origin <= y
    requires forall k | 0 <= k < i :: !Reaches(origin, lines, k, y)
    ensures Top(origin, lines, i) <= y
  {
    if i > 0 {
      PastEarlierLines(origin, lines, i - 1, y);
      assert !Reaches(origin, lines, i - 1, y);
    }
  }

  /** ROW_FROM_YPIXEL and COLUMN_FROM_XPIXEL. */
  method LineFromPixel(lines: seq<Line>, max: int, origin: int, y: int) returns (r: int)
    requires -1 <= max < |lines|
    ensures IsLineAt(origin, lines[..max + 1], y, r)
  {
    ghost var live := lines[..max + 1];
    var c := origin;
    if y < c {
      return 0;
    }
    var i := 0;
    while i <= max
      invariant 0 <= i <= max + 1
      invariant c == Top(origin, live, i)
      invariant forall k | 0 <= k < i :: !Reaches(origin, live, k, y)
    {
      PastEarlierLines(origin, live, i, y);
      assert lines[i] == live[i];
      if y >= c && y <= c + lines[i].size && lines[i].visible {
        assert Reaches(origin, live, i, y);
        return i;
      }
      if lines[i].visible {
        c := c + lines[i].size;
      }
      i := i + 1;
    }
    return max;
  }

  /** A pixel belongs to one line only. */
  lemma LineAtUnique(origin: int, lines: seq<Line>, y: int, r: int, s: int)
    requires IsLineAt(origin, lines, y, r) && IsLineAt(origin, lines, y, s)
    ensures r == s
  {
  }

  /** Moving the pointer down never moves the line up. */
  lemma LineAtMonotone(origin: int, lines: seq<Line>, y: int, z: int, r: int, s: int)
    requires |lines| > 0 && y <= z
    requires IsLineAt(origin, lines, y, r) && IsLineAt(origin, lines, z, s)
    ensures 0 <= r <= s < |lines|
  {
    if y >= origin {
      forall k | 0 <= k < r ensures !Reaches(origin, lines, k, z) {
        assert !Reaches(origin, lines, k, y);
      }
    }
  }

  /** The pixels 1..size below the top of a shown line belong to that line. */
  lemma LineAtInverse(origin: int, lines: seq<Line>, i: nat, d: nat)
    requires i < |lines| && lines[i].visible && 1 <= d <= lines[i].size
    ensures IsLineAt(origin, lines, Top(origin, lines, i) + d, i)
  {
    var y := Top(origin, lines, i) + d;
    TopMonotone(origin, lines, 0, i);
    forall k | 0 <= k < i ensures !Reaches(origin, lines, k, y) {
      TopMonotone(origin, lines, k + 1, i);
    }
    assert Reaches(origin, lines, i, y);
  }

  /** Some line shown before line `i` ends where line `i` begins. */
  lemma {:induction false} EarlierLineTouches(origin: int, lines: seq<Line>, i: nat, k: nat) returns (p: nat)
    requires k < i <= |lines| && lines[k].visible
    ensures p < i && Reaches(origin, lines, p, Top(origin, lines, i))
  {
    if lines[i - 1].visible {
      p := i - 1;
    } else {
      p := EarlierLineTouches(origin, lines, i - 1, k);
    }
  }

  /** The top edge itself (d = 0) belongs to the line exactly when nothing is shown before it. */
  lemma LineAtTopEdge(origin: int, lines: seq<Line>, i: nat, r: int)
    requires i < |lines| && lines[i].visible
    requires IsLineAt(origin, lines, Top(origin, lines, i), r)
    ensures r == i <==> forall k | 0 <= k < i :: !lines[k].visible
  {
    var y := Top(origin, lines, i);
    TopMonotone(origin, lines, 0, i);
    assert Reaches(origin, lines, i, y);
    if k :| 0 <= k < i && lines[k].visible {
      var p := EarlierLineTouches(origin, lines, i, k);
      assert r != i;
    } else {
      LineAtUnique(origin, lines, y, r, i);
    }
  }

  // ---- the record loops ----

  /** Line `k` starts where the previous one would end if it were shown; the first one after the header. */
  predicate Chained(header: int, lines: seq<Line>, k: nat)
    requires k < |lines|
  {
    lines[k].pixel == if k == 0 then header else lines[k - 1].pixel + lines[k - 1].size
  }

  /** The lines of a new sheet: AddRow(-1) or AddColumn(-1) fills line 0, a second call adds the rest. */
  method FirstLines(n: nat, size: nat, header: int) returns (r: seq<Line>)
    requires n >= 1
    ensures Records(r) == FreshLines(n, size) && PixelsExact(header, r)
  {
    r := AddLines([], -1, 1, size, header);
    assert r[..1] == r;
    r := AddLines(r, 0, n - 1, size, header);
    assert Records(r) == FreshLines(n, size);
  }

  /** After appending, the cached pixels are right exactly when the previous last line takes up its size. */
  lemma AddLinesPixels(lines: seq<Line>, r: seq<Line>, n: nat, size: nat, header: int)
    requires PixelsExact(header, lines)
    requires |r| == |lines| + n && r[..|lines|] == lines
    requires forall k | |lines| <= k < |r| :: Record(r[k]) == Fresh(size)
    requires forall k | |lines| <= k < |r| :: Chained(header, r, k)
    ensures PixelsExact(header, r) <==>
      n == 0 || lines == [] || Extent(lines[|lines| - 1]) == lines[|lines| - 1].size
  {
    var m := |lines|;
    forall k | 0 <= k < m ensures r[k] == lines[k] && Top(header, r, k) == Top(header, lines, k) {
      assert r[..m][k] == lines[k];
      assert forall q | 0 <= q < k :: r[..m][q] == r[q];
      TopDependsOnRecords(header, r, lines, k);
    }
    if n == 0 {
      assert r == lines;
    } else {
      assert Chained(header, r, m);
      if lines == [] || Extent(lines[m - 1]) == lines[m - 1].size {
        forall k | m <= k < |r| ensures r[k].pixel == Top(header, r, k) {
          ChainedExact(r, m, size, header, k);
        }
      }
    }
  }

  lemma AddLinesRecords(lines: seq<Line>, r: seq<Line>, n: nat, size: nat)
    requires |r| == |lines| + n && r[..|lines|] == lines
    requires forall k | |lines| <= k < |r| :: Record(r[k]) == Fresh(size)
    ensures Records(r) == Records(lines) + FreshLines(n, size)
  {
    forall k | 0 <= k < |r| ensures Records(r)[k] == (Records(lines) + FreshLines(n, size))[k] {
      assert k < |lines| ==> r[..|lines|][k] == r[k];
    }
  }

  lemma {:induction false} ChainedExact(r: seq<Line>, m: nat, size: nat, header: int, k: nat)
    requires m <= k < |r|
    requires r[m].pixel == Top(header, r, m)
    requires forall k | m <= k < |r| :: Record(r[k]) == Fresh(size) && Chained(header, r, k)
    ensures r[k].pixel == Top(header, r, k)
  {
    if k > m {
      ChainedExact(r, m, size, header, k - 1);
      assert Chained(header, r, k) && Record(r[k - 1]) == Fresh(size);
    }
  }

  /**
   AddRow and AddColumn for `n` further lines: new defaults at the end, each placed right after
   the previous one as if that one were shown.
   */
  method AddLines(lines: seq<Line>, max: int, n: nat, size: nat, header: int) returns (r: seq<Line>)
    requires -1 <= max < |lines|
    ensures |r| == max + n + 1
    ensures Records(r) == Records(lines[..max + 1]) + FreshLines(n, size)
    ensures PixelsExact(header, lines[..max + 1]) ==>
      (PixelsExact(header, r) <==> n == 0 || max == -1 || Extent(lines[max]) == lines[max].size)
  {
    var junk: Line := *;
    r := Realloc(lines, max + n + 1, junk);
    var i := max + 1;
    while i <= max + n
      invariant max + 1 <= i <= max + n + 1
      invariant |r| == max + n + 1 && r[..max + 1] == lines[..max + 1]
      invariant forall k | max < k < i :: Record(r[k]) == Fresh(size)
      invariant forall k | max < k < i :: Chained(header, r, k)
    {
      ghost var before := r;
      r := r[i := Fresh(size).(pixel := if i > 0 then r[i - 1].pixel + r[i - 1].size else header)];
      forall k | max < k <= i ensures Chained(header, r, k) {
        assert k < i ==> Chained(header, before, k);
      }
      i := i + 1;
    }
    AddLinesRecords(lines[..max + 1], r, n, size);
    if PixelsExact(header, lines[..max + 1]) {
      AddLinesPixels(lines[..max + 1], r, n, size, header);
    }
  }

  /** Where record `k` of the rotated array comes from: one of the `n` appended ones, or an old one. */
  predicate Rotated(r: Line, lines: seq<Line>, p: nat, n: nat, size: nat, k: nat)
    requires k < |lines|
  {
    Record(r) == if k < p then Record(lines[k]) else if k < p + n then Fresh(size) else Record(lines[k - n])
  }

  lemma RotatedRecords(lines: seq<Line>, r: seq<Line>, at: nat, n: nat, size: nat, kept: seq<Line>)
    requires |lines| == |r| && Records(lines) == kept + FreshLines(n, size)
    requires forall k | 0 <= k < |lines| :: Rotated(r[k], lines, Min(at, |kept|), n, size, k)
    ensures Records(r) == Splice(kept, at, FreshLines(n, size))
  {
    hide Splice, Rotated;
    var extra := FreshLines(n, size);
    var want := Splice(kept, at, extra);
    SpliceLength(kept, at, extra);
    forall k | 0 <= k < |r| ensures Record(r[k]) == want[k] {
      RotatedRecord(lines, r[k], at, n, size, kept, k);
    }
  }

  lemma RotatedRecord(lines: seq<Line>, r: Line, at: nat, n: nat, size: nat, kept: seq<Line>, k: nat)
    requires k < |lines| && Records(lines) == kept + FreshLines(n, size)
    requires Rotated(r, lines, Min(at, |kept|), n, size, k)
    ensures |Splice(kept, at, FreshLines(n, size))| == |lines|
    ensures Record(r) == Splice(kept, at, FreshLines(n, size))[k]
  {
    hide Splice;
    var p := Min(at, |kept|);
    SpliceIndex(kept, at, FreshLines(n, size), k);
    if k < p {
      assert Records(lines)[k] == kept[k];
    } else if k >= p + n {
      assert Records(lines)[k - n] == kept[k - n];
    }
  }

  /**
   The descending swap loop of InsertRow and InsertColumn, on records whose last `n` entries are
   the ones just appended: it rotates the tail so that the appended ones come to stand at `at`.
   */
  method RotateLines(lines: seq<Line>, max: int, at: nat, n: nat, size: nat, ghost kept: seq<Line>)
    returns (r: seq<Line>)
    requires |lines| == max + 1 && Records(lines) == kept + FreshLines(n, size)
    ensures |r| == |lines| && Records(r) == Splice(kept, at, FreshLines(n, size))
  {
    hide Splice;
    r := lines;
    ghost var p := Min(at, |kept|);
    forall k | max - n < k <= max ensures Record(r[k]) == Fresh(size) {
      assert Records(lines)[k] == FreshLines(n, size)[k - |kept|];
    }
    var i := max;
    while i >= at + n
      invariant |r| == |lines| && p + n - 1 <= i <= max && (at <= |kept| || i == max)
      invariant forall k | i < k <= max :: Rotated(r[k], lines, p, n, size, k)
      invariant forall k | i - n < k <= i :: Record(r[k]) == Fresh(size)
      invariant forall k | 0 <= k <= i - n :: r[k] == lines[k]
    {
      var aux := r[i];
      r := r[i := r[i - n]];
      r := r[i := r[i].(visible := r[i - n].visible)];
      r := r[i := r[i].(sensitive := r[i - n].sensitive)];
      if aux.visible {
        r := r[i := r[i].(pixel := r[i].pixel + n * size)];
      }
      assert Record(r[i]) == Record(lines[i - n]);
      r := r[i - n := aux];
      i := i - 1;
    }
    RotatedRecords(lines, r, at, n, size, kept);
  }

  lemma DeletedRecords(lines: seq<Line>, r: seq<Line>, at: nat, n: nat)
    requires at + n <= |lines| && |r| == |lines| - n && 0 < n
    requires forall k {:trigger r[k]} | 0 <= k < |r| :: r[k] == if k < at then lines[k] else lines[k + n]
    ensures Records(r) == Cut(Records(lines), at, n)
  {
    hide Cut;
    var was := Records(lines);
    CutLength(was, at, n);
    forall k | 0 <= k < |r| ensures Records(r)[k] == Cut(was, at, n)[k] {
      CutIndex(was, at, n, k);
      assert was[if k < at then k else k + n] == Record(r[k]);
    }
  }

  /** The record part of DeleteRow and DeleteColumn: free the labels, then move the tail up. */
  method DeleteLines(lines: seq<Line>, max: int, at: nat, n: nat) returns (r: seq<Line>)
    requires max < |lines| && 0 < n && at + n <= max + 1
    ensures |r| == |lines|
    ensures Records(r[..max + 1 - n]) == Cut(Records(lines[..max + 1]), at, n)
  {
    r := lines;
    var i := at;
    while i < at + n
      invariant at <= i <= at + n && |r| == |lines|
      invariant forall k | 0 <= k < |r| && (k < at || at + n <= k) :: r[k] == lines[k]
    {
      if r[i].name.Some? {
        r := r[i := r[i].(name := None)];
      }
      if r[i].caption.Some? {
        r := r[i := r[i].(caption := None)];
      }
      i := i + 1;
    }
    i := at;
    while i <= max - n
      invariant at <= i <= max - n + 1 && |r| == |lines|
      invariant forall k | 0 <= k < at :: r[k] == lines[k]
      invariant forall k | at <= k < i :: r[k] == lines[k + n]
      invariant forall k | i <= k < |r| && at + n <= k :: r[k] == lines[k]
    {
      if i + n <= max {
        r := r[i := r[i + n]];
      }
      i := i + 1;
    }
    DeletedRecords(lines[..max + 1], r[..max + 1 - n], at, n);
  }

  // ---- resizing and hiding ----

  /**
   gtk_sheet_set_row_height and gtk_sheet_set_column_width. `least` is the size the title button
   asks for: it is recorded even when the request is refused for being smaller.
   */
  method SetSize(lines: seq<Line>, max: int, header: int, i: int, size: nat, least: nat) returns (r: seq<Line>)
    requires -1 <= max < |lines|
    ensures |r| == |lines|
    ensures Records(r[..max + 1]) == Resized(Records(lines[..max + 1]), i, size, least)
    ensures PixelsExact(header, lines[..max + 1]) || (0 <= i <= max && least <= size) ==>
      PixelsExact(header, r[..max + 1])
  {
    r := lines;
    if i < 0 || i > max { return; }
    r := r[i := r[i].(requisition := least)];
    if size < least {
      SameGeometry(header, lines[..max + 1], r[..max + 1]);
      return;
    }
    r := r[i := r[i].(size := size)];
    r := RecalcPixels(r, max, header);
  }

  /** Records changed at one place. */
  lemma OneRecord(was: seq<Line>, now: seq<Line>, i: int, line: Line)
    requires Records(now) == if 0 <= i < |was| then Records(was)[i := Record(line)] else Records(was)
    ensures |was| == |now|
    ensures 0 <= i < |was| ==> now[i] == line.(pixel := now[i].pixel)
    ensures forall k | 0 <= k < |now| && k != i :: Record(was[k]) == Record(now[k]) && now[k] == was[k].(pixel := now[k].pixel)
  {
    assert forall k | 0 <= k < |now| :: Records(now)[k] == Record(now[k]);
    assert forall k | 0 <= k < |was| :: Records(was)[k] == Record(was[k]);
  }

  function Resized(records: seq<Line>, i: int, size: nat, least: nat): seq<Line> {
    if 0 <= i < |records| then
      records[i := records[i].(requisition := least, size := if size < least then records[i].size else size)]
    else records
  }

  /** A line with a new caption, widened if its button asks for more. */
  function Labelled(records: seq<Line>, i: int, text: string, asked: nat, least: nat): seq<Line> {
    if 0 <= i < |records| then
      var captioned := records[i := records[i].(caption := Some(text))];
      if asked > records[i].size then Resized(captioned, i, asked, least) else captioned
    else records
  }

  lemma SameGeometry(header: int, a: seq<Line>, b: seq<Line>)
    requires |a| == |b| && forall k | 0 <= k < |a| :: Extent(a[k]) == Extent(b[k]) && a[k].pixel == b[k].pixel
    ensures PixelsExact(header, a) ==> PixelsExact(header, b)
  {
    forall k | 0 <= k < |a| ensures Top(header, a, k) == Top(header, b, k) {
      TopDependsOnRecords(header, a, b, k);
    }
  }

  /** gtk_sheet_row_set_visibility and gtk_sheet_column_set_visibility */
  method SetVisible(lines: seq<Line>, max: int, header: int, i: int, visible: bool) returns (r: seq<Line>)
    requires -1 <= max < |lines|
    ensures |r| == |lines|
    ensures Records(r[..max + 1]) == WithVisibility(Records(lines[..max + 1]), i, visible)
    ensures PixelsExact(header, lines[..max + 1]) || (0 <= i <= max && lines[i].visible != visible) ==>
      PixelsExact(header, r[..max + 1])
  {
    r := lines;
    if i < 0 || i > max { return; }
    if r[i].visible == visible {
      return;
    }
    r := r[i := r[i].(visible := visible)];
    r := RecalcPixels(r, max, header);
  }

  function WithVisibility(records: seq<Line>, i: int, visible: bool): seq<Line> {
    if 0 <= i < |records| then records[i := records[i].(visible := visible)] else records
  }

  /**
   new_row_height and new_column_width: the line being dragged ends at the pointer `y`, but takes up
   its requisition at least.
   */
  method DragSize(lines: seq<Line>, max: int, header: int, offset: int, i: nat, y: int)
    returns (r: seq<Line>, size: nat)
    requires i <= max < |lines|
    ensures |r| == |lines| && PixelsExact(header, r[..max + 1])
    ensures size == Max(lines[i].requisition, y - (offset + lines[i].pixel))
    ensures Records(r[..max + 1]) == Records(lines[..max + 1])[i := Record(lines[i]).(size := size)]
    ensures PixelsExact(header, lines[..max + 1]) && lines[i].visible && 0 < size <= y - (offset + lines[i].pixel) ==>
      IsLineAt(offset + header, r[..max + 1], y, i)
  {
    hide Top, PixelsExact, IsLineAt;
    var top, least := offset + lines[i].pixel, lines[i].requisition;
    var c := y;
    if c < top + least {
      c := top + least;
    }
    var s := c - top;
    if s < least {
      s := least;
    }
    size := s;
    r := lines[i := lines[i].(size := size)];
    r := RecalcPixels(r, max, header);
    ghost var live := r[..max + 1];
    assert Records(live) == Records(lines[..max + 1])[i := Record(lines[i]).(size := size)];
    if PixelsExact(header, lines[..max + 1]) && lines[i].visible && 0 < size <= y - (offset + lines[i].pixel) {
      ghost var before := lines[..max + 1];
      forall k | 0 <= k < i ensures Extent(live[k]) == Extent(before[k]) {
        assert Records(live)[k] == Records(before)[k];
      }
      assert Records(live)[i] == Record(before[i]).(size := size);
      PixelOf(header, before, i);
      DraggedLine(before, live, header, offset, i, size);
    }
  }

  lemma PixelOf(header: int, lines: seq<Line>, i: nat)
    requires i < |lines| && PixelsExact(header, lines)
    ensures lines[i].pixel == Top(header, lines, i)
  {
  }

  lemma DraggedLine(before: seq<Line>, live: seq<Line>, header: int, offset: int, i: nat, size: nat)
    requires i < |before| == |live| && before[i].pixel == Top(header, before, i)
    requires 0 < size && live[i].visible && live[i].size == size
    requires forall k | 0 <= k < i :: Extent(live[k]) == Extent(before[k])
    ensures IsLineAt(offset + header, live, offset + before[i].pixel + size, i)
  {
    TopDependsOnRecords(header, live, before, i);
    TopShift(header, offset, live, i);
    LineAtInverse(offset + header, live, i, size);
  }

  function Max(a: int, b: int): int {
    if a >= b then a else b
  }

  lemma {:induction false} TopShift(header: int, offset: int, lines: seq<Line>, i: nat)
    requires i <= |lines|
    ensures Top(offset + header, lines, i) == offset + Top(header, lines, i)
  {
    if i > 0 { TopShift(header, offset, lines, i - 1); }
  }

  /** Records inserted and deleted again at the same place are the records from before. */
  lemma InsertThenDeleteRecords(records: seq<Line>, at: nat, extra: seq<Line>)
    requires at <= |records|
    ensures Cut(Splice(records, at, extra), at, |extra|) == records
  {
  }
}
