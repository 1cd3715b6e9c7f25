/** The framebuffer's line and circle loops (src/drivers/framebuffer.c), writing pixels in place and
    clipping at the edges. */
module Framebuffer {
  import opened Machine
  import opened Raster

  /** width, height, and pixels per row of memory (`pitch / 4`). */
  datatype Shape = Shape(width: nat, height: nat, stride: nat)

  predicate Holds(s: Shape, n: nat) {
    s.width <= s.stride && s.height * s.stride <= n
  }

  predicate Visible(s: Shape, p: Point) {
    0 <= p.x < s.width && 0 <= p.y < s.height
  }

  function Offset(s: Shape, p: Point): int {
    p.y * s.stride + p.x
  }

  lemma OffsetFits(s: Shape, p: Point, n: nat)
    requires Holds(s, n) && Visible(s, p)
    ensures 0 <= Offset(s, p) < n
  {
    MulMono(0, p.y, s.stride);
    MulMono(p.y + 1, s.height, s.stride);
    assert (p.y + 1) * s.stride == p.y * s.stride + s.stride;
  }

  // Distinct visible pixels are distinct words.
  lemma OffsetInjective(s: Shape, p: Point, q: Point)
    requires s.width <= s.stride && Visible(s, p) && Visible(s, q) && Offset(s, p) == Offset(s, q)
    ensures p == q
  {
    Difference(q.y, p.y, s.stride);
    if p.y < q.y {
      MulMono(1, q.y - p.y, s.stride);
    } else if q.y < p.y {
      MulMono(q.y - p.y, -1, s.stride);
    }
  }

  /** The memory after one pixel was set; a pixel off the screen sets nothing. */
  function Plot(m: seq<u32>, s: Shape, p: Point, color: u32): (r: seq<u32>)
    requires Holds(s, |m|)
    ensures |r| == |m|
  {
    if Visible(s, p) then OffsetFits(s, p, |m|); m[Offset(s, p) := color] else m
  }

  function PlotAll(m: seq<u32>, s: Shape, points: seq<Point>, color: u32): (r: seq<u32>)
    requires Holds(s, |m|)
    ensures |r| == |m|
  {
    if points == [] then m
    else Plot(PlotAll(m, s, points[..|points| - 1], color), s, points[|points| - 1], color)
  }

  function Pixel(m: seq<u32>, s: Shape, p: Point): u32
    requires Holds(s, |m|) && Visible(s, p)
  {
    OffsetFits(s, p, |m|);
    m[Offset(s, p)]
  }

  /** Plotting a list of points colours exactly those of them that are visible. */
  lemma {:induction false} PlottedExactly(m: seq<u32>, s: Shape, points: seq<Point>, color: u32, p: Point)
    requires Holds(s, |m|) && Visible(s, p)
    ensures Pixel(PlotAll(m, s, points, color), s, p) == if p in points then color else Pixel(m, s, p)
  {
    if points != [] {
      var n := |points| - 1;
      PlottedExactly(m, s, points[..n], color, p);
      var q := points[n];
      assert points == points[..n] + [q];
      if Visible(s, q) && p != q && Offset(s, p) == Offset(s, q) {
        OffsetInjective(s, p, q);
      }
      OffsetFits(s, p, |m|);
    }
  }

  lemma {:induction false} PlotAllConcat(m: seq<u32>, s: Shape, a: seq<Point>, b: seq<Point>, color: u32)
    requires Holds(s, |m|)
    ensures PlotAll(m, s, a + b, color) == PlotAll(PlotAll(m, s, a, color), s, b, color)
  {
    if b == [] {
      assert a + b == a;
    } else {
      var n := |b| - 1;
      PlotAllConcat(m, s, a, b[..n], color);
      assert (a + b)[..|a + b| - 1] == a + b[..n];
    }
  }

  class Screen {
    const address: array<u32>
    const shape: Shape

    constructor (address: array<u32>, shape: Shape)
      requires Holds(shape, address.Length)
      ensures this.address == address && this.shape == shape
    {
      this.address, this.shape := address, shape;
    }

    method PutPixel(x: int, y: int, color: u32)
      requires Holds(shape, address.Length)
      modifies address
      ensures address[..] == Plot(old(address[..]), shape, Point(x, y), color)
    {
      if x < 0 || x >= shape.width || y < 0 || y >= shape.height {
        return;
      }
      OffsetFits(shape, Point(x, y), address.Length);
      address[y * shape.stride + x] := color;
    }

    /** fb_draw_line between points with coordinates up to 2^28: plots a line in the sense of
        Raster.IsLine, and nothing else. */
    method DrawLine(x0: int, y0: int, x1: int, y1: int, color: u32) returns (ghost points: seq<Point>)
      requires Holds(shape, address.Length)
      requires Abs(x0) <= 0x1000_0000 && Abs(y0) <= 0x1000_0000 && Abs(x1) <= 0x1000_0000 && Abs(y1) <= 0x1000_0000
      modifies address
      ensures IsLine(points, x0, y0, x1, y1)
      ensures address[..] == PlotAll(old(address[..]), shape, points, color)
    {
      var dx := if x1 > x0 then x1 - x0 else x0 - x1;
      var dy := if y1 > y0 then y1 - y0 else y0 - y1;
      var sx := if x0 < x1 then 1 else -1;
      var sy := if y0 < y1 then 1 else -1;
      points := TraceLine(Line(x0, y0, x1, y1), dx, dy, sx, sy, color);
    }

    // The loop of fb_draw_line.
    method TraceLine(l: Line, dx: int, dy: int, sx: int, sy: int, color: u32) returns (ghost points: seq<Point>)
      requires Holds(shape, address.Length)
      requires dx == l.Dx() <= 0x2000_0000 && dy == l.Dy() <= 0x2000_0000
      requires sx == Sign(l.x0, l.x1) && sy == Sign(l.y0, l.y1)
      modifies address
      ensures IsLine(points, l.x0, l.y0, l.x1, l.y1)
      ensures address[..] == PlotAll(old(address[..]), shape, points, color)
    {
      ghost var m := address[..];
      var x, y, err := l.x0, l.y0, dx - dy;
      points := [];
      LineStarts(l);
      while true
        invariant |points| <= l.Steps() && PenAt(l, |points|, Pen(x, y, err)) && Drawn(l, points)
        invariant address[..] == PlotAll(m, shape, points, color)
        decreases l.Steps() - |points|
      {
        LineTurn(l, |points|, Pen(x, y, err));
        DrawnMore(l, points, Pen(x, y, err));
        PlotMore(m, shape, points, Point(x, y), color);
        PutPixel(x, y, color);
        points := points + [Point(x, y)];
        if x == l.x1 && y == l.y1 {
          DrawnAll(l, points);
          return;
        }
        x, y, err := MovePen(l, x, y, err, dx, dy, sx, sy);
      }
    }

    // The rest of the loop body: the two conditional steps.
    method MovePen(ghost l: Line, x: int, y: int, err: int, dx: int, dy: int, sx: int, sy: int)
      returns (x': int, y': int, err': int)
      requires dx == l.Dx() && dy == l.Dy() && sx == Sign(l.x0, l.x1) && sy == Sign(l.y0, l.y1)
      ensures Pen(x', y', err') == Turn(l, Pen(x, y, err))
    {
      x', y', err' := x, y, err;
      var e2 := 2 * err;
      if e2 > -dy {
        err' := err' - dy;
        x' := x' + sx;
      }
      if e2 < dx {
        err' := err' + dx;
        y' := y' + sy;
      }
    }

    /** fb_draw_circle with centre and radius up to 2^28, where nothing leaves 32 bits: plots, in all
        eight octants, the columns that Raster.IsOctant describes. */
    method DrawCircle(cx: int, cy: int, r: int, color: u32) returns (ghost columns: seq<int>)
      requires Holds(shape, address.Length)
      requires Abs(cx) <= 0x1000_0000 && Abs(cy) <= 0x1000_0000 && Abs(r) <= 0x1000_0000
      modifies address
      ensures IsOctant(columns, r)
      ensures address[..] == PlotAll(old(address[..]), shape, PointsOf(columns, cx, cy), color)
    {
      ghost var m := address[..];
      var x: int32, y: int32, d: int32 := r, 0, 1 - r;
      columns := [];
      while x >= y
        invariant 0 <= y == |columns| && (r < 0 ==> x == r && y == 0)
        invariant r >= 0 ==> CircleAt(r, x, y, d) && Columns(r, columns) && (y == 0 ==> x == r)
        invariant address[..] == PlotAll(m, shape, PointsOf(columns, cx, cy), color)
        decreases x - y
      {
        CircleFits(r, x, y, d);
        PlotColumn(cx, cy, x, y, color, columns, m);
        CircleStep(r, x, y, d);
        ColumnsMore(r, columns, x);
        columns := columns + [x];
        y := y + 1;
        x, d := NextColumn(x, y, d);
      }
      if r >= 0 {
        CircleEnds(r, x, y, d);
      }
    }

    // One row's eight pixels behind those of the rows before.
    method PlotColumn(cx: int, cy: int, x: int, y: int, color: u32, ghost columns: seq<int>, ghost m: seq<u32>)
      requires Holds(shape, address.Length) && |m| == address.Length && y == |columns|
      requires address[..] == PlotAll(m, shape, PointsOf(columns, cx, cy), color)
      modifies address
      ensures address[..] == PlotAll(m, shape, PointsOf(columns + [x], cx, cy), color)
    {
      EightPixels(cx, cy, x, y, color);
      PlotAllConcat(m, shape, PointsOf(columns, cx, cy), Octants(cx, cy, x, y), color);
      assert (columns + [x])[..|columns|] == columns;
    }

    // The rest of the loop body: the decision.
    method NextColumn(x: int32, y: int32, d: int32) returns (x': int32, d': int32)
      requires Abs(x) <= 0x1000_0000 && 0 <= y <= 0x1000_0001 && Abs(d) <= 0x2000_0001
      ensures if d <= 0 then x' == x && d' == d + 2 * y + 1 else x' == x - 1 && d' == d + 2 * (y - x') + 1
    {
      if d <= 0 {
        x', d' := x, d + 2 * y + 1;
      } else {
        x' := x - 1;
        d' := d + 2 * (y - x') + 1;
      }
    }

    method EightPixels(cx: int, cy: int, x: int, y: int, color: u32)
      requires Holds(shape, address.Length)
      modifies address
      ensures address[..] == PlotAll(old(address[..]), shape, Octants(cx, cy, x, y), color)
    {
      EightPlots(address[..], shape, cx, cy, x, y, color);
      PutPixel(cx + x, cy + y, color);
      PutPixel(cx - x, cy + y, color);
      PutPixel(cx + x, cy - y, color);
      PutPixel(cx - x, cy - y, color);
      PutPixel(cx + y, cy + x, color);
      PutPixel(cx - y, cy + x, color);
      PutPixel(cx + y, cy - x, color);
      PutPixel(cx - y, cy - x, color);
    }
  }

  lemma {:induction false} PlotMore(m: seq<u32>, s: Shape, points: seq<Point>, p: Point, color: u32)
    requires Holds(s, |m|)
    ensures PlotAll(m, s, points + [p], color) == Plot(PlotAll(m, s, points, color), s, p, color)
  {
    assert (points + [p])[..|points|] == points;
  }

  lemma {:induction false} PlotTwo(m: seq<u32>, s: Shape, points: seq<Point>, p: Point, q: Point, color: u32)
    requires Holds(s, |m|)
    ensures PlotAll(m, s, points + [p, q], color) == Plot(Plot(PlotAll(m, s, points, color), s, p, color), s, q, color)
  {
    PlotMore(m, s, points, p, color);
    PlotMore(m, s, points + [p], q, color);
    assert points + [p] + [q] == points + [p, q];
  }

  lemma {:induction false} EightPlots(m: seq<u32>, s: Shape, cx: int, cy: int, x: int, y: int, color: u32)
    requires Holds(s, |m|)
    ensures var m1 := Plot(m, s, Point(cx + x, cy + y), color); var m2 := Plot(m1, s, Point(cx - x, cy + y), color);
      var m3 := Plot(m2, s, Point(cx + x, cy - y), color); var m4 := Plot(m3, s, Point(cx - x, cy - y), color);
      var m5 := Plot(m4, s, Point(cx + y, cy + x), color); var m6 := Plot(m5, s, Point(cx - y, cy + x), color);
      var m7 := Plot(m6, s, Point(cx + y, cy - x), color); var m8 := Plot(m7, s, Point(cx - y, cy - x), color);
      m8 == PlotAll(m, s, Octants(cx, cy, x, y), color)
  {
    var all := Octants(cx, cy, x, y);
    PlotTwo(m, s, [], all[0], all[1], color);
    PlotTwo(m, s, all[..2], all[2], all[3], color);
    PlotTwo(m, s, all[..4], all[4], all[5], color);
    PlotTwo(m, s, all[..6], all[6], all[7], color);
    assert [] + [all[0], all[1]] == all[..2] && all[..2] + [all[2], all[3]] == all[..4];
    assert all[..4] + [all[4], all[5]] == all[..6] && all[..6] + [all[6], all[7]] == all;
  }

  /** The first points of the line, in order. */
  ghost predicate Drawn(l: Line, points: seq<Point>) {
    && (points != [] ==> points[0] == Point(l.x0, l.y0))
    && (forall n: nat :: n < |points| ==> NearLine(points[n], n, l.x0, l.y0, l.x1, l.y1))
  }

  lemma DrawnMore(l: Line, points: seq<Point>, p: Pen)
    requires Drawn(l, points)
    requires NearLine(Point(p.x, p.y), |points|, l.x0, l.y0, l.x1, l.y1)
    requires points == [] ==> p.x == l.x0 && p.y == l.y0
    ensures Drawn(l, points + [Point(p.x, p.y)])
  {
  }

  lemma DrawnAll(l: Line, points: seq<Point>)
    requires Drawn(l, points) && |points| == l.Steps() + 1 && points[|points| - 1] == Point(l.x1, l.y1)
    ensures IsLine(points, l.x0, l.y0, l.x1, l.y1)
  {
  }

  /** The pen after n turns: a steps along x and b along y. */
  ghost predicate PenIs(l: Line, n: nat, p: Pen, a: nat, b: nat) {
    && OnLine(l.Dx(), l.Dy(), n, a, b) && p.err == Err(l.Dx(), l.Dy(), a, b)
    && p.x == l.x0 + (if l.x0 < l.x1 then a else 0 - a)
    && p.y == l.y0 + (if l.y0 < l.y1 then b else 0 - b)
  }

  ghost predicate PenSome(l: Line, n: nat, p: Pen) {
    exists a: nat, b: nat :: PenIs(l, n, p, a, b)
  }

  // The quantifier keeps the products folded where nobody names the pen's place.
  ghost predicate PenAt(l: Line, n: nat, p: Pen) {
    forall k: nat | k == n :: PenSome(l, k, p)
  }

  lemma LineStarts(l: Line)
    ensures PenAt(l, 0, Pen(l.x0, l.y0, l.Dx() - l.Dy()))
  {
    assert PenIs(l, 0, Pen(l.x0, l.y0, l.Dx() - l.Dy()), 0, 0);
  }

  /** The pen is near the line; it is at the end exactly after Steps() turns; and otherwise another
      turn keeps it there, without leaving 32 bits. */
  lemma LineTurn(l: Line, n: nat, p: Pen)
    requires PenAt(l, n, p) && n <= l.Steps() && l.Dx() <= 0x2000_0000 && l.Dy() <= 0x2000_0000
    ensures NearLine(Point(p.x, p.y), n, l.x0, l.y0, l.x1, l.y1)
    ensures n == 0 ==> p.x == l.x0 && p.y == l.y0
    ensures p.x == l.x1 && p.y == l.y1 <==> n == l.Steps()
    ensures -0x8000_0000 <= 2 * p.err < 0x8000_0000
    ensures n < l.Steps() ==> PenAt(l, n + 1, Turn(l, p))
  {
    assert PenSome(l, n, p);
    var a: nat, b: nat :| PenIs(l, n, p, a, b);
    LinePoint(l, n, p, a, b);
    if n < l.Steps() {
      LineNext(l, n, p, a, b);
    }
  }

  lemma LinePoint(l: Line, n: nat, p: Pen, a: nat, b: nat)
    requires PenIs(l, n, p, a, b) && n <= l.Steps() && l.Dx() <= 0x2000_0000 && l.Dy() <= 0x2000_0000
    ensures NearLine(Point(p.x, p.y), n, l.x0, l.y0, l.x1, l.y1)
    ensures n == 0 ==> p.x == l.x0 && p.y == l.y0
    ensures p.x == l.x1 && p.y == l.y1 <==> n == l.Steps()
    ensures -0x8000_0000 <= 2 * p.err < 0x8000_0000
  {
    ErrFits(l.Dx(), l.Dy(), n, a, b);
    if n == l.Steps() {
      EndsTogether(l.Dx(), l.Dy(), n, a, b);
    }
    if n == 0 {
      AtStart(l.Dx(), l.Dy(), a, b);
    }
  }

  lemma LineNext(l: Line, n: nat, p: Pen, a: nat, b: nat)
    requires PenIs(l, n, p, a, b) && n < l.Steps()
    ensures PenAt(l, n + 1, Turn(l, p))
  {
    LineStep(l.Dx(), l.Dy(), n, a, b);
    TurnErr(l.Dx(), l.Dy(), a, b);
    assert PenIs(l, n + 1, Turn(l, p), NextA(l.Dx(), l.Dy(), a, b), NextB(l.Dx(), l.Dy(), a, b));
  }

  lemma AtStart(dx: nat, dy: nat, a: nat, b: nat)
    requires OnLine(dx, dy, 0, a, b)
    ensures a == 0 && b == 0
  {
    if dx >= dy {
      if 0 < dx {
        SmallMultiple(b, dx);
      }
    } else {
      SmallMultiple(0 - a, dy);
    }
  }

  /** The circle's loop between two rows: d is the excess of the midpoint below, rounded. */
  ghost predicate CircleState(r: nat, x: int, y: nat, d: int) {
    && d == Excess(r, x, y + 1) - x
    && x <= r && -1 <= x && (0 < r ==> 0 <= x)
    && (0 < r ==> 0 - x < Excess(r, x, y) && (y <= x ==> Excess(r, x, y) <= x))
    && (r == 0 ==> (y == 0 && x == 0) || (y == 1 && x == -1))
  }

  // Folded, as PenAt is.
  ghost predicate CircleAt(r: nat, x: int, y: nat, d: int) {
    forall q: int | q == d :: CircleState(r, x, y, q)
  }

  ghost predicate Columns(r: nat, columns: seq<int>) {
    && (columns != [] ==> columns[0] == r)
    && (forall y: nat :: y < |columns| ==> Column(r, columns[y], y))
  }

  lemma ColumnsMore(r: nat, columns: seq<int>, x: int)
    requires Columns(r, columns) && Column(r, x, |columns|) && (columns == [] ==> x == r)
    ensures Columns(r, columns + [x])
  {
  }

  lemma CircleStep(r: int, x: int, y: nat, d: int)
    requires r >= 0 && y <= x && CircleAt(r, x, y, d)
    ensures Column(r, x, y)
    ensures if d <= 0 then CircleAt(r, x, y + 1, d + 2 * (y + 1) + 1)
            else CircleAt(r, x - 1, y + 1, d + 2 * (y + 1 - (x - 1)) + 1)
  {
    assert CircleState(r, x, y, d);
    ExcessUp(r, x, y);
    ExcessUp(r, x, y + 1);
    ExcessIn(r, x, y + 1);
    ExcessUp(r, x - 1, y + 1);
  }

  // The loop's variables stay within twice the radius.
  lemma CircleFits(r: int, x: int, y: nat, d: int)
    requires r >= 0 && y <= x && CircleAt(r, x, y, d)
    ensures x <= r && Abs(d) <= 2 * r + 1
  {
    assert CircleState(r, x, y, d);
    ExcessUp(r, x, y);
  }

  lemma CircleEnds(r: int, x: int, y: nat, d: int)
    requires r >= 0 && x < y && CircleAt(r, x, y, d)
    ensures EndsAt(r, y)
  {
    assert CircleState(r, x, y, d);
    if r == 0 {
      forall x' | y <= x' && 1 <= x'
        ensures !RoundedRoot(r, x', y)
      {
        MulMono(1, x', x');
      }
    } else {
      OctantEnds(r, x, y);
    }
  }
}
