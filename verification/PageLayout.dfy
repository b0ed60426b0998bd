/**
 export_layout_page (cli/export.c) in exact arithmetic: the page size and the transformation that
 fits a drawing into the margins, with cairo's matrices. The quarter turn is taken as exact.
 */
module PageLayout {
  import opened Wrappers

  // ---- cairo matrices ----

  datatype Point = Point(x: real, y: real)

  /** cairo_matrix_t: (x, y) goes to (xx x + xy y + x0, yx x + yy y + y0). */
  datatype Matrix = Matrix(xx: real, yx: real, xy: real, yy: real, x0: real, y0: real)

  const Identity := Matrix(1.0, 0.0, 0.0, 1.0, 0.0, 0.0)

  function Sum(a: real, u: real, b: real, v: real): real {
    a * u + b * v
  }

  function Apply(m: Matrix, p: Point): Point {
    Point(Sum(m.xx, p.x, m.xy, p.y) + m.x0, Sum(m.yx, p.x, m.yy, p.y) + m.y0)
  }

  /** cairo_matrix_multiply(a, b): first `a`, then `b`. */
  function Multiply(a: Matrix, b: Matrix): Matrix {
    Matrix(
      Sum(a.xx, b.xx, a.yx, b.xy), Sum(a.xx, b.yx, a.yx, b.yy),
      Sum(a.xy, b.xx, a.yy, b.xy), Sum(a.xy, b.yx, a.yy, b.yy),
      Sum(a.x0, b.xx, a.y0, b.xy) + b.x0, Sum(a.x0, b.yx, a.y0, b.yy) + b.y0)
  }

  function Translate(m: Matrix, tx: real, ty: real): Matrix {
    Multiply(Matrix(1.0, 0.0, 0.0, 1.0, tx, ty), m)
  }

  function Scale(m: Matrix, sx: real, sy: real): Matrix {
    Multiply(Matrix(sx, 0.0, 0.0, sy, 0.0, 0.0), m)
  }

  /** cairo_matrix_rotate(m, -pi/2) */
  function QuarterTurn(m: Matrix): Matrix {
    Multiply(Matrix(0.0, -1.0, 1.0, 0.0, 0.0, 0.0), m)
  }

  /** Multiplying matrices composes what they do to points. */
  lemma ApplyMultiply(a: Matrix, b: Matrix, p: Point)
    ensures Apply(Multiply(a, b), p) == Apply(b, Apply(a, p))
  {
    hide Sum;
    Distribute(b.xx, b.xy, b.x0, a, p);
    Distribute(b.yx, b.yy, b.y0, a, p);
  }

  lemma Distribute(u: real, v: real, w: real, a: Matrix, p: Point)
    ensures Sum(u, Apply(a, p).x, v, Apply(a, p).y) + w ==
      Sum(Sum(a.xx, u, a.yx, v), p.x, Sum(a.xy, u, a.yy, v), p.y) + (Sum(a.x0, u, a.y0, v) + w)
  {
    Spread(u, a.xx, p.x, a.xy, p.y, a.x0);
    Spread(v, a.yx, p.x, a.yy, p.y, a.y0);
    Gather(a.xx * u, a.yx * v, p.x);
    Gather(a.xy * u, a.yy * v, p.y);
  }

  lemma Spread(u: real, a: real, x: real, b: real, y: real, c: real)
    ensures u * (Sum(a, x, b, y) + c) == (a * u) * x + (b * u) * y + c * u
  {
    assert u * (a * x) == (a * u) * x && u * (b * y) == (b * u) * y;
  }

  lemma Gather(a: real, b: real, x: real)
    ensures (a + b) * x == a * x + b * x
  {
  }

  // ---- settings ----

  datatype Orientation = Auto | Landscape | Portrait

  /** Paper of GTK: its size and default margins (top, left, bottom, right), in points. */
  datatype Paper = Paper(width: real, height: real, margins: Margins)

  /** In the order the code uses them. */
  datatype Margins = Margins(top: real, left: real, bottom: real, right: real)

  datatype Settings = Settings(
    margins: Option<Margins>,
    size: Option<Point>,
    paper: Option<Paper>,
    layout: Orientation,
    scale: real,
    alignX: real,
    alignY: real)

  const DEFAULT_MARGIN := 18.0

  /** The bounds of the objects on the page. */
  datatype Bounds = Bounds(minX: int, minY: int, maxX: int, maxY: int) {
    function Width(): real { (maxX - minX) as real }

    function Height(): real { (maxY - minY) as real }

    predicate Contains(p: Point) {
      minX as real <= p.x <= maxX as real && minY as real <= p.y <= maxY as real
    }
  }

  function MarginsOf(s: Settings): Margins {
    if s.margins.Some? then s.margins.value
    else if s.paper.Some? then s.paper.value.margins
    else Margins(DEFAULT_MARGIN, DEFAULT_MARGIN, DEFAULT_MARGIN, DEFAULT_MARGIN)
  }

  /** The page size. */
  function Extents(s: Settings, b: Bounds): Point {
    if s.size.Some? then s.size.value
    else if s.paper.Some? then
      var landscape := match s.layout case Landscape => true case Portrait => false case Auto => b.Width() > b.Height();
      if landscape then Point(s.paper.value.height, s.paper.value.width)
      else Point(s.paper.value.width, s.paper.value.height)
    else
      var m := MarginsOf(s);
      Point(b.Width() * s.scale + (m.left + m.right), b.Height() * s.scale + (m.top + m.bottom))
  }

  function Min(a: real, b: real): real {
    if a <= b then a else b
  }

  function Max(a: real, b: real): real {
    if a >= b then a else b
  }

  function DrawableWidth(s: Settings, b: Bounds): real {
    Extents(s, b).x - MarginsOf(s).left - MarginsOf(s).right
  }

  function DrawableHeight(s: Settings, b: Bounds): real {
    Extents(s, b).y - MarginsOf(s).top - MarginsOf(s).bottom
  }

  /** There is room for a length; none is needed for the length zero. */
  predicate HasRoom(room: real, length: real) {
    length >= 0.0 && room >= 0.0 && (length > 0.0 ==> room > 0.0)
  }

  /** A drawing with some extent, be it a single straight line, and room for it between the margins. */
  predicate Drawable(s: Settings, b: Bounds) {
    && HasRoom(DrawableWidth(s, b), b.Width()) && HasRoom(DrawableHeight(s, b), b.Height())
    && (b.Width() > 0.0 || b.Height() > 0.0)
  }

  /** The smaller quotient; fmin passes over the infinity or NaN of a division by zero. */
  function OptimumScale(s: Settings, b: Bounds): real
    requires Drawable(s, b)
  {
    if b.Width() == 0.0 then DrawableHeight(s, b) / b.Height()
    else if b.Height() == 0.0 then DrawableWidth(s, b) / b.Width()
    else Min(DrawableWidth(s, b) / b.Width(), DrawableHeight(s, b) / b.Height())
  }

  function Times(length: real, k: real): real {
    length * k
  }

  /** The alignment's share of the room a scaled length leaves. */
  function Slack(align: real, room: real, length: real, k: real): real {
    Times(Min(1.0, Max(0.0, align)), room - Times(length, k))
  }

  /** The composed matrix. */
  function LayoutPage(s: Settings, b: Bounds, postscript: bool): Matrix
    requires Drawable(s, b)
  {
    var e, m, k := Extents(s, b), MarginsOf(s), OptimumScale(s, b);
    var slackX := Slack(s.alignX, DrawableWidth(s, b), b.Width(), k);
    var slackY := Slack(s.alignY, DrawableHeight(s, b), b.Height(), k);
    var start := if postscript && e.x > e.y then QuarterTurn(Translate(Identity, 0.0, e.x)) else Identity;
    ShiftFlipShift(start, m.left + slackX, m.top + slackY, k, -(b.minX as real), -(b.minY as real + b.Height()))
  }

  /** Align the drawing, scale it and reverse its y axis, and move it to the origin; last step first. */
  function ShiftFlipShift(start: Matrix, x: real, y: real, k: real, dx: real, dy: real): Matrix {
    Translate(Scale(Translate(start, x, y), k, -k), dx, dy)
  }

  // ---- where a point ends up ----

  /** The place of a point on the unturned page: scaled, upside down, between the margins. */
  function Placed(s: Settings, b: Bounds, p: Point): Point
    requires Drawable(s, b)
  {
    var m, k := MarginsOf(s), OptimumScale(s, b);
    Point(
      m.left + Along(s.alignX, DrawableWidth(s, b), b.Width(), k, p.x - b.minX as real),
      m.top + Along(s.alignY, DrawableHeight(s, b), b.Height(), k, b.maxY as real - p.y))
  }

  /** How far into the room a scaled distance from the start of the length gets. */
  function Along(align: real, room: real, length: real, k: real, u: real): real {
    Slack(align, room, length, k) + Times(u, k)
  }

  lemma ApplyTranslate(m: Matrix, tx: real, ty: real, p: Point)
    ensures Apply(Translate(m, tx, ty), p) == Apply(m, Point(p.x + tx, p.y + ty))
  {
    ApplyMultiply(Matrix(1.0, 0.0, 0.0, 1.0, tx, ty), m, p);
  }

  lemma ApplyScale(m: Matrix, sx: real, sy: real, p: Point)
    ensures Apply(Scale(m, sx, sy), p) == Apply(m, Point(sx * p.x, sy * p.y))
  {
    ApplyMultiply(Matrix(sx, 0.0, 0.0, sy, 0.0, 0.0), m, p);
  }

  lemma ApplyQuarterTurn(m: Matrix, p: Point)
    ensures Apply(QuarterTurn(m), p) == Apply(m, Point(p.y, -p.x))
  {
    ApplyMultiply(Matrix(0.0, -1.0, 1.0, 0.0, 0.0, 0.0), m, p);
  }

  lemma ApplyShiftFlipShift(start: Matrix, x: real, y: real, k: real, dx: real, dy: real, p: Point, u: real, v: real)
    requires u == p.x + dx && v == -(p.y + dy)
    ensures Apply(ShiftFlipShift(start, x, y, k, dx, dy), p) == Apply(start, Point(x + k * u, y + k * v))
  {
    hide Translate, Scale, Apply;
    var placed, j := Translate(start, x, y), -k;
    var p1 := Point(p.x + dx, p.y + dy);
    var p2 := Point(k * p1.x, j * p1.y);
    ApplyTranslate(Scale(placed, k, j), dx, dy, p);
    ApplyScale(placed, k, j, p1);
    ApplyTranslate(start, x, y, p2);
    assert j * p1.y == k * v;
    assert Point(p2.x + x, p2.y + y) == Point(x + k * u, y + k * v);
  }

  /** The composed matrix places each point, and turns the page for landscape PostScript. */
  lemma LayoutPlaces(s: Settings, b: Bounds, postscript: bool, p: Point)
    requires Drawable(s, b)
    ensures var q := Placed(s, b, p);
      Apply(LayoutPage(s, b, postscript), p) ==
      if postscript && Extents(s, b).x > Extents(s, b).y then Point(q.y, Extents(s, b).x - q.x) else q
  {
    hide Slack, OptimumScale, ShiftFlipShift, Multiply, Translate, Scale, QuarterTurn, Apply, Extents, DrawableWidth, DrawableHeight, MarginsOf, Min, Max;
    var e, m, k, q := Extents(s, b), MarginsOf(s), OptimumScale(s, b), Placed(s, b, p);
    var slackX := Slack(s.alignX, DrawableWidth(s, b), b.Width(), k);
    var slackY := Slack(s.alignY, DrawableHeight(s, b), b.Height(), k);
    var start := if postscript && e.x > e.y then QuarterTurn(Translate(Identity, 0.0, e.x)) else Identity;
    var u, v := p.x - b.minX as real, b.maxY as real - p.y;
    var dx, dy := -(b.minX as real), -(b.minY as real + b.Height());
    assert LayoutPage(s, b, postscript) == ShiftFlipShift(start, m.left + slackX, m.top + slackY, k, dx, dy);
    ApplyShiftFlipShift(start, m.left + slackX, m.top + slackY, k, dx, dy, p, u, v);
    assert q == Point(m.left + slackX + k * u, m.top + slackY + k * v);
    if postscript && e.x > e.y {
      ApplyQuarterTurn(Translate(Identity, 0.0, e.x), q);
      ApplyTranslate(Identity, 0.0, e.x, Point(q.y, -q.x));
      ApplyIdentity(Point(q.y, -q.x + e.x));
    } else {
      ApplyIdentity(q);
    }
  }

  lemma ApplyIdentity(p: Point)
    ensures Apply(Identity, p) == p
  {
  }

  // ---- inside the margins ----

  /** The slack of a scaled length that fits is shared out without leaving the room. */
  lemma Fits(align: real, room: real, length: real, k: real, u: real)
    requires 0.0 < k && Times(length, k) <= room && 0.0 <= u <= length
    ensures 0.0 <= Along(align, room, length, k, u) <= room
  {
    hide Times;
    Share(Min(1.0, Max(0.0, align)), room - Times(length, k));
    Shorter(length, u, k);
    Shorter(u, 0.0, k);
    NoLength(k);
  }

  /** A share of some room lies within it. */
  lemma Share(a: real, room: real)
    requires 0.0 <= a <= 1.0 && room >= 0.0
    ensures 0.0 <= Times(a, room) <= room
  {
    Product(a, room);
  }

  lemma NoLength(k: real)
    ensures Times(0.0, k) == 0.0
  {
  }

  lemma Product(a: real, x: real)
    requires a >= 0.0 && x >= 0.0
    ensures a * x >= 0.0 && (a <= 1.0 ==> a * x <= x)
  {
    if a <= 1.0 {
      assert (1.0 - a) * x >= 0.0;
      assert (1.0 - a) * x == x - a * x;
    }
  }

  /** The optimum scale is the largest that fits: one direction is filled. */
  lemma LargestFit(s: Settings, b: Bounds)
    requires Drawable(s, b)
    ensures var k, w, h := OptimumScale(s, b), b.Width(), b.Height();
      && k > 0.0 && w >= 0.0 && h >= 0.0 && Times(w, k) <= DrawableWidth(s, b) && Times(h, k) <= DrawableHeight(s, b)
      && ((w > 0.0 && Times(w, k) == DrawableWidth(s, b)) || (h > 0.0 && Times(h, k) == DrawableHeight(s, b)))
  {
    hide Extents, MarginsOf, DrawableWidth, DrawableHeight;
    var k, w, h := OptimumScale(s, b), b.Width(), b.Height();
    if w > 0.0 {
      Quotient(DrawableWidth(s, b), w, k);
    }
    if h > 0.0 {
      Quotient(DrawableHeight(s, b), h, k);
    }
  }

  lemma Quotient(a: real, b: real, k: real)
    requires a > 0.0 && b > 0.0
    ensures a / b > 0.0
    ensures k <= a / b ==> b * k <= a
    ensures k == a / b ==> b * k == a
  {
    assert b * (a / b) == a;
    if k <= a / b {
      Product(b, a / b - k);
      assert b * (a / b - k) == a - b * k;
    }
  }

  /** Every point of the drawing lands between the margins. */
  lemma InsideMargins(s: Settings, b: Bounds, p: Point)
    requires Drawable(s, b) && b.Contains(p)
    ensures var q, m, e := Placed(s, b, p), MarginsOf(s), Extents(s, b);
      m.left <= q.x <= e.x - m.right && m.top <= q.y <= e.y - m.bottom
  {
    hide Drawable, OptimumScale, Extents, MarginsOf, Along;
    LargestFit(s, b);
    var k := OptimumScale(s, b);
    Fits(s.alignX, DrawableWidth(s, b), b.Width(), k, p.x - b.minX as real);
    Fits(s.alignY, DrawableHeight(s, b), b.Height(), k, b.maxY as real - p.y);
  }

  /** In at least one direction the drawing reaches from margin to margin. */
  lemma TouchesBothSides(s: Settings, b: Bounds)
    requires Drawable(s, b)
    ensures var m, e := MarginsOf(s), Extents(s, b);
      var lowLeft := Placed(s, b, Point(b.minX as real, b.minY as real));
      var highRight := Placed(s, b, Point(b.maxX as real, b.maxY as real));
      || (lowLeft.x == m.left && highRight.x == e.x - m.right)
      || (highRight.y == m.top && lowLeft.y == e.y - m.bottom)
  {
    hide Drawable, OptimumScale, Extents, MarginsOf, Along;
    LargestFit(s, b);
    var k := OptimumScale(s, b);
    if Times(b.Width(), k) == DrawableWidth(s, b) {
      Filled(s.alignX, DrawableWidth(s, b), b.Width(), k);
      assert b.maxX as real - b.minX as real == b.Width();
    } else {
      Filled(s.alignY, DrawableHeight(s, b), b.Height(), k);
      assert b.maxY as real - b.minY as real == b.Height();
    }
  }

  lemma Filled(align: real, room: real, length: real, k: real)
    requires Times(length, k) == room
    ensures forall u :: Along(align, room, length, k, u) == k * u
    ensures Along(align, room, length, k, 0.0) == 0.0 && Along(align, room, length, k, length) == room
  {
    assert room - length * k == 0.0;
  }

  /** The same on the page itself; a turned page has its margins turned with it. */
  lemma PageTouchesMargins(s: Settings, b: Bounds, postscript: bool)
    requires Drawable(s, b)
    ensures var m, e := MarginsOf(s), Extents(s, b);
      var low := Apply(LayoutPage(s, b, postscript), Point(b.minX as real, b.minY as real));
      var high := Apply(LayoutPage(s, b, postscript), Point(b.maxX as real, b.maxY as real));
      if postscript && e.x > e.y then
        (low.y == e.x - m.left && high.y == m.right) || (high.x == m.top && low.x == e.y - m.bottom)
      else
        (low.x == m.left && high.x == e.x - m.right) || (high.y == m.top && low.y == e.y - m.bottom)
  {
    hide LayoutPage, Placed, Extents, MarginsOf, Drawable, Apply;
    TouchesBothSides(s, b);
    LayoutPlaces(s, b, postscript, Point(b.minX as real, b.minY as real));
    LayoutPlaces(s, b, postscript, Point(b.maxX as real, b.maxY as real));
  }

  /** Automatic orientation is the best choice on upright paper whose margins are the same both ways. */
  lemma AutoFitsBest(s: Settings, b: Bounds, other: Orientation)
    requires s.size.None? && s.paper.Some? && s.paper.value.width <= s.paper.value.height
    requires var m := MarginsOf(s); m.left + m.right == m.top + m.bottom
    requires Drawable(s.(layout := Auto), b) && Drawable(s.(layout := other), b)
    ensures OptimumScale(s.(layout := Auto), b) >= OptimumScale(s.(layout := other), b)
  {
    hide OptimumScale, DrawableWidth, DrawableHeight, MarginsOf, Extents, Drawable, Times;
    var auto, o := s.(layout := Auto), s.(layout := other);
    LargestFit(auto, b);
    LargestFit(o, b);
    PaperRoom(s, b, Auto);
    PaperRoom(s, b, other);
    var m := MarginsOf(s).left + MarginsOf(s).right;
    var p, q := s.paper.value.width - m, s.paper.value.height - m;
    if b.Width() > b.Height() {
      LongerSideFirst(b.Width(), b.Height(), OptimumScale(auto, b), OptimumScale(o, b), q, p);
    } else {
      LongerSideFirst(b.Height(), b.Width(), OptimumScale(auto, b), OptimumScale(o, b), q, p);
    }
  }

  lemma PaperRoom(s: Settings, b: Bounds, o: Orientation)
    requires s.size.None? && s.paper.Some?
    ensures var m, paper, t := MarginsOf(s), s.paper.value, s.(layout := o);
      if o.Landscape? || (o.Auto? && b.Width() > b.Height()) then
        DrawableWidth(t, b) == paper.height - m.left - m.right && DrawableHeight(t, b) == paper.width - m.top - m.bottom
      else
        DrawableWidth(t, b) == paper.width - m.left - m.right && DrawableHeight(t, b) == paper.height - m.top - m.bottom
  {
  }

  /** Putting the longer side of a drawing along the longer side of the room allows the larger scale. */
  lemma LongerSideFirst(long: real, short: real, k: real, other: real, q: real, p: real)
    requires long >= short >= 0.0 && p <= q && k > 0.0 && other > 0.0
    requires (long > 0.0 && Times(long, k) == q) || (short > 0.0 && Times(short, k) == p)
    requires (Times(long, other) <= q && Times(short, other) <= p) || (Times(long, other) <= p && Times(short, other) <= q)
    ensures other <= k
  {
    hide Times;
    if k < other {
      StrictlyLonger(long, k, other);
      StrictlyLonger(short, k, other);
      Shorter(long, short, other);
    }
  }

  lemma StrictlyLonger(a: real, k: real, k': real)
    requires a >= 0.0 && k < k'
    ensures a > 0.0 ==> Times(a, k) < Times(a, k')
  {
    if a > 0.0 {
      assert a * (k' - k) > 0.0;
      assert a * (k' - k) == a * k' - a * k;
    }
  }

  lemma Shorter(long: real, short: real, k: real)
    requires long >= short && k > 0.0
    ensures Times(short, k) <= Times(long, k)
  {
    Product(k, long - short);
    assert k * (long - short) == long * k - short * k;
  }

  /** A page sized from the drawing shows it at exactly the requested scale, and leaves no slack. */
  lemma RequestedScale(s: Settings, b: Bounds, p: Point)
    requires Drawable(s, b) && s.size.None? && s.paper.None?
    ensures OptimumScale(s, b) == s.scale
    ensures var m := MarginsOf(s);
      Placed(s, b, p) == Point(m.left + s.scale * (p.x - b.minX as real), m.top + s.scale * (b.maxY as real - p.y))
  {
    ScaleRequested(s, b);
    hide OptimumScale, Along, Drawable;
    assert DrawableWidth(s, b) == b.Width() * s.scale && DrawableHeight(s, b) == b.Height() * s.scale;
    Filled(s.alignX, DrawableWidth(s, b), b.Width(), s.scale);
    Filled(s.alignY, DrawableHeight(s, b), b.Height(), s.scale);
  }

  lemma ScaleRequested(s: Settings, b: Bounds)
    requires Drawable(s, b) && s.size.None? && s.paper.None?
    ensures OptimumScale(s, b) == s.scale
  {
    var w, h := b.Width(), b.Height();
    assert DrawableWidth(s, b) == w * s.scale && DrawableHeight(s, b) == h * s.scale;
    hide DrawableWidth, DrawableHeight, Extents, MarginsOf;
    if w > 0.0 { Cancel(w, s.scale); }
    if h > 0.0 { Cancel(h, s.scale); }
  }

  lemma Cancel(a: real, k: real)
    requires a > 0.0
    ensures (a * k) / a == k
  {
  }

  /** The size export_postscript gives the surface of a page that is not EPS. */
  function SurfaceSize(e: Point): Point {
    if e.x > e.y then Point(e.y, e.x) else e
  }

  /** On a PostScript page, turned or not, the drawing lies on the surface, inside the margins. */
  lemma OnSurface(s: Settings, b: Bounds, p: Point)
    requires Drawable(s, b) && b.Contains(p)
    ensures var q, m, e := Apply(LayoutPage(s, b, true), p), MarginsOf(s), Extents(s, b);
      var size := SurfaceSize(e);
      if e.x > e.y then m.top <= q.x <= size.x - m.bottom && m.right <= q.y <= size.y - m.left
      else m.left <= q.x <= size.x - m.right && m.top <= q.y <= size.y - m.bottom
  {
    hide LayoutPage, Placed, Extents, MarginsOf, Drawable, Apply;
    LayoutPlaces(s, b, true, p);
    InsideMargins(s, b, p);
  }

  /** On any other page likewise. */
  lemma OnPage(s: Settings, b: Bounds, p: Point)
    requires Drawable(s, b) && b.Contains(p)
    ensures var q, m, e := Apply(LayoutPage(s, b, false), p), MarginsOf(s), Extents(s, b);
      m.left <= q.x <= e.x - m.right && m.top <= q.y <= e.y - m.bottom
  {
    hide LayoutPage, Placed, Extents, MarginsOf, Drawable, Apply;
    LayoutPlaces(s, b, false, p);
    InsideMargins(s, b, p);
  }

  /** The margins asked for count before those of the paper; without either they are 18 points wide. */
  lemma MarginsChosen(s: Settings)
    ensures forall m | s.margins == Some(m) :: MarginsOf(s) == m
    ensures s.margins.None? ==> forall paper | s.paper == Some(paper) :: MarginsOf(s) == paper.margins
    ensures s.margins.None? && s.paper.None? ==> MarginsOf(s) == Margins(18.0, 18.0, 18.0, 18.0)
  {
  }

  /** The size asked for counts before the paper, which lies along the drawing unless told otherwise. */
  lemma SizeChosen(s: Settings, b: Bounds)
    ensures forall size | s.size == Some(size) :: Extents(s, b) == size
    ensures s.size.None? ==> forall paper | s.paper == Some(paper) ::
      Extents(s, b) ==
        if s.layout.Landscape? || (s.layout.Auto? && b.maxX - b.minX > b.maxY - b.minY) then Point(paper.height, paper.width)
        else Point(paper.width, paper.height)
    ensures s.size.None? && s.paper.None? ==> var m := MarginsOf(s);
      Extents(s, b) == Point((b.maxX - b.minX) as real * s.scale + m.left + m.right, (b.maxY - b.minY) as real * s.scale + m.top + m.bottom)
  {
    hide MarginsOf;
  }

  /** The alignment shares out what is left over beside and above the drawing. */
  lemma AlignmentShares(s: Settings, b: Bounds)
    requires Drawable(s, b)
    ensures var m, e := MarginsOf(s), Extents(s, b);
      var low := Apply(LayoutPage(s, b, false), Point(b.minX as real, b.minY as real));
      var high := Apply(LayoutPage(s, b, false), Point(b.maxX as real, b.maxY as real));
      var left, right := low.x - m.left, e.x - m.right - high.x;
      var above, below := high.y - m.top, e.y - m.bottom - low.y;
      && (s.alignX <= 0.0 ==> left == 0.0) && (s.alignX >= 1.0 ==> right == 0.0)
      && (0.0 <= s.alignX <= 1.0 ==> left == s.alignX * (left + right))
      && (s.alignY <= 0.0 ==> above == 0.0) && (s.alignY >= 1.0 ==> below == 0.0)
      && (0.0 <= s.alignY <= 1.0 ==> above == s.alignY * (above + below))
  {
    hide LayoutPage, Placed, Extents, MarginsOf, Drawable, Apply, DrawableWidth, DrawableHeight, OptimumScale, Along;
    var lowest, highest := Point(b.minX as real, b.minY as real), Point(b.maxX as real, b.maxY as real);
    LayoutPlaces(s, b, false, lowest);
    LayoutPlaces(s, b, false, highest);
    CornersPlaced(s, b);
    Shared(s.alignX, DrawableWidth(s, b), b.Width(), OptimumScale(s, b));
    Shared(s.alignY, DrawableHeight(s, b), b.Height(), OptimumScale(s, b));
    assert DrawableWidth(s, b) == Extents(s, b).x - MarginsOf(s).left - MarginsOf(s).right by { Rooms(s, b); }
    assert DrawableHeight(s, b) == Extents(s, b).y - MarginsOf(s).top - MarginsOf(s).bottom by { Rooms(s, b); }
  }

  lemma Rooms(s: Settings, b: Bounds)
    ensures DrawableWidth(s, b) == Extents(s, b).x - MarginsOf(s).left - MarginsOf(s).right
    ensures DrawableHeight(s, b) == Extents(s, b).y - MarginsOf(s).top - MarginsOf(s).bottom
  {
  }

  lemma CornersPlaced(s: Settings, b: Bounds)
    requires Drawable(s, b)
    ensures var m, k, w, h := MarginsOf(s), OptimumScale(s, b), DrawableWidth(s, b), DrawableHeight(s, b);
      && Placed(s, b, Point(b.minX as real, b.minY as real)) ==
         Point(m.left + Along(s.alignX, w, b.Width(), k, 0.0), m.top + Along(s.alignY, h, b.Height(), k, b.Height()))
      && Placed(s, b, Point(b.maxX as real, b.maxY as real)) ==
         Point(m.left + Along(s.alignX, w, b.Width(), k, b.Width()), m.top + Along(s.alignY, h, b.Height(), k, 0.0))
  {
    hide Along, OptimumScale, MarginsOf, Extents, Drawable, DrawableWidth, DrawableHeight;
    assert b.maxX as real - b.minX as real == b.Width() && b.maxY as real - b.minY as real == b.Height();
    assert b.minX as real - b.minX as real == 0.0 && b.maxY as real - b.maxY as real == 0.0;
  }

  lemma Shared(align: real, room: real, length: real, k: real)
    ensures var before, after := Along(align, room, length, k, 0.0), room - Along(align, room, length, k, length);
      && (align <= 0.0 ==> before == 0.0) && (align >= 1.0 ==> after == 0.0)
      && (0.0 <= align <= 1.0 ==> before == align * (before + after))
  {
    hide Times;
    NoLength(k);
    var slack := room - Times(length, k);
    TimesIs(0.0, slack);
    TimesIs(1.0, slack);
    TimesIs(align, slack);
  }

  lemma TimesIs(a: real, k: real)
    ensures Times(a, k) == a * k && 0.0 * k == 0.0 && 1.0 * k == k
  {
  }
}
