/** Bresenham lines and midpoint circles (src/drivers/framebuffer.c): where the plotted points lie. */
module Raster {
  datatype Point = Point(x: int, y: int)

  function Abs(x: int): nat {
    if x < 0 then -x else x
  }

  function Max(a: nat, b: nat): nat {
    if a >= b then a else b
  }

  // ---------------------------------------------------------------- lines

  /** How far the point reached after a steps along x and b along y is off the true line, scaled by
      its length along the major axis: b / dy - a / dx times dx * dy. */
  function Deviation(dx: nat, dy: nat, a: nat, b: nat): int {
    b * dx - a * dy
  }

  /** After n points beyond the first: one step per point along the major axis, and within half a
      pixel of the true line along the minor one. */
  ghost predicate OnLine(dx: nat, dy: nat, n: nat, a: nat, b: nat) {
    && a <= dx && b <= dy
    && (if dx >= dy then a == n else b == n)
    && 2 * Abs(Deviation(dx, dy, a, b)) <= Max(dx, dy)
  }

  /** The points of a line from (x0, y0) to (x1, y1), one for each step along the major axis. */
  ghost predicate IsLine(points: seq<Point>, x0: int, y0: int, x1: int, y1: int) {
    var dx, dy := Abs(x1 - x0), Abs(y1 - y0);
    && |points| == Max(dx, dy) + 1
    && points[0] == Point(x0, y0) && points[|points| - 1] == Point(x1, y1)
    && (forall n: nat :: n < |points| ==> NearLine(points[n], n, x0, y0, x1, y1))
  }

  /** Point number n lies between the end points and within half a pixel of the true line. */
  ghost predicate NearLine(p: Point, n: nat, x0: int, y0: int, x1: int, y1: int) {
    && Between(p.x, x0, x1) && Between(p.y, y0, y1)
    && OnLine(Abs(x1 - x0), Abs(y1 - y0), n, Abs(p.x - x0), Abs(p.y - y0))
  }

  predicate Between(x: int, a: int, b: int) {
    a <= x <= b || b <= x <= a
  }

  // The error term the code carries, in terms of the steps made.
  function Err(dx: nat, dy: nat, a: nat, b: nat): int {
    Deviation(dx, dy, a, b) + dx - dy
  }

  lemma StepX(dx: nat, dy: nat, a: nat, b: nat)
    ensures Deviation(dx, dy, a + 1, b) == Deviation(dx, dy, a, b) - dy
  {
    assert (a + 1) * dy == a * dy + dy;
  }

  lemma StepY(dx: nat, dy: nat, a: nat, b: nat)
    ensures Deviation(dx, dy, a, b + 1) == Deviation(dx, dy, a, b) + dx
  {
    assert (b + 1) * dx == b * dx + dx;
  }

  lemma MulMono(a: int, b: int, c: int)
    requires a <= b && 0 <= c
    ensures a * c <= b * c
  {
  }

  // A multiple of m within half of m is zero.
  lemma SmallMultiple(k: int, m: int)
    requires 0 < m && 2 * Abs(k * m) <= m
    ensures k == 0
  {
    if k >= 1 {
      MulMono(1, k, m);
    } else if k <= -1 {
      MulMono(k, -1, m);
    }
  }

  lemma Difference(a: int, b: int, m: int)
    ensures a * m - b * m == (a - b) * m
  {
  }

  // At the far end of the major axis the minor one is at its end too.
  lemma EndsTogether(dx: nat, dy: nat, n: nat, a: nat, b: nat)
    requires OnLine(dx, dy, n, a, b) && n == Max(dx, dy)
    ensures a == dx && b == dy
  {
    if dx >= dy {
      if 0 < dx {
        assert Deviation(dx, dy, dx, b) == b * dx - dy * dx;
        Difference(b, dy, dx);
        SmallMultiple(b - dy, dx);
      }
    } else {
      assert Deviation(dx, dy, a, dy) == dx * dy - a * dy;
      Difference(dx, a, dy);
      SmallMultiple(dx - a, dy);
    }
  }

  // The minor axis is never overrun.
  lemma MinorBound(major: int, minor: int, n: int, m: int)
    requires 0 < major && 0 <= minor && n <= major && 2 * (m * major - n * minor) <= major
    ensures m <= minor
  {
    if m > minor {
      MulMono(minor + 1, m, major);
      MulMono(n, major, minor);
    }
  }

  function NextA(dx: nat, dy: nat, a: nat, b: nat): nat {
    if 2 * Err(dx, dy, a, b) > 0 - dy then a + 1 else a
  }

  function NextB(dx: nat, dy: nat, a: nat, b: nat): nat {
    if 2 * Err(dx, dy, a, b) < dx then b + 1 else b
  }

  // Along x: the deviation after the step, in numbers alone.
  lemma MajorStep(major: int, minor: int, d: int)
    requires 0 <= minor <= major && 0 < major && 2 * Abs(d) <= major
    ensures 2 * (d - minor) < -major ==> 2 * Abs(d - minor + major) <= major
    ensures 2 * (d - minor) >= -major ==> 2 * Abs(d - minor) <= major
  {
  }

  lemma StepAlongX(dx: nat, dy: nat, n: nat, a: nat, b: nat)
    requires OnLine(dx, dy, n, a, b) && n < dx && dy <= dx
    ensures OnLine(dx, dy, n + 1, NextA(dx, dy, a, b), NextB(dx, dy, a, b))
  {
    var d := Deviation(dx, dy, a, b);
    StepX(dx, dy, a, b);
    StepY(dx, dy, a + 1, b);
    MajorStep(dx, dy, d);
    if 2 * d + 2 * dx == dy {
      Difference(b, a, dx);
      SmallMultiple(b - a, dx);
    }
    assert NextA(dx, dy, a, b) == a + 1;
    MinorBound(dx, dy, a + 1, NextB(dx, dy, a, b));
  }

  lemma StepAlongY(dx: nat, dy: nat, n: nat, a: nat, b: nat)
    requires OnLine(dx, dy, n, a, b) && n < dy && dx < dy
    ensures OnLine(dx, dy, n + 1, NextA(dx, dy, a, b), NextB(dx, dy, a, b))
  {
    var d := Deviation(dx, dy, a, b);
    StepY(dx, dy, a, b);
    StepX(dx, dy, a, b + 1);
    MajorStep(dy, dx, -d);
    assert NextB(dx, dy, a, b) == b + 1;
    MinorBound(dy, dx, b + 1, NextA(dx, dy, a, b));
  }

  /** One turn of the loop from a point on the line: the major step is always made, the minor one
      when the error asks for it, and the next point is on the line. */
  lemma LineStep(dx: nat, dy: nat, n: nat, a: nat, b: nat)
    requires OnLine(dx, dy, n, a, b) && n < Max(dx, dy)
    ensures OnLine(dx, dy, n + 1, NextA(dx, dy, a, b), NextB(dx, dy, a, b))
  {
    if dx >= dy {
      StepAlongX(dx, dy, n, a, b);
    } else {
      StepAlongY(dx, dy, n, a, b);
    }
  }

  // What one turn of the loop does to the error term.
  lemma TurnErr(dx: nat, dy: nat, a: nat, b: nat)
    ensures var e := Err(dx, dy, a, b);
      Err(dx, dy, NextA(dx, dy, a, b), NextB(dx, dy, a, b)) ==
      e - (if 2 * e > 0 - dy then dy else 0) + (if 2 * e < dx then dx else 0)
  {
    StepX(dx, dy, a, b);
    StepY(dx, dy, NextA(dx, dy, a, b), b);
  }

  /** A line to draw, and the pen on it: a point and the error term. */
  datatype Line = Line(x0: int, y0: int, x1: int, y1: int)
  {
    function Dx(): nat { Abs(x1 - x0) }
    function Dy(): nat { Abs(y1 - y0) }
    function Steps(): nat { Max(Dx(), Dy()) }
  }

  datatype Pen = Pen(x: int, y: int, err: int)

  function Sign(from: int, to: int): int {
    if from < to then 1 else -1
  }

  /** The body of the line loop. */
  function Turn(l: Line, p: Pen): Pen {
    var e2 := 2 * p.err;
    var p1 := if e2 > 0 - l.Dy() then Pen(p.x + Sign(l.x0, l.x1), p.y, p.err - l.Dy()) else p;
    if e2 < l.Dx() then Pen(p1.x, p1.y + Sign(l.y0, l.y1), p1.err + l.Dx()) else p1
  }

  // The error term stays far inside 32 bits for coordinates up to 2^28.
  lemma ErrFits(dx: nat, dy: nat, n: nat, a: nat, b: nat)
    requires OnLine(dx, dy, n, a, b) && dx <= 0x2000_0000 && dy <= 0x2000_0000
    ensures -0x8000_0000 <= 2 * Err(dx, dy, a, b) < 0x8000_0000
  {
  }

  // ---------------------------------------------------------------- circles

  /** The error of (x, y) as a point of the circle. */
  function Excess(r: nat, x: int, y: int): int {
    x * x + y * y - r * r
  }

  /** x is the integer with x^2 - x <= r^2 - y^2 < x^2 + x: sqrt(r^2 - y^2) rounded, a hair up. */
  predicate RoundedRoot(r: nat, x: int, y: int) {
    0 - x < Excess(r, x, y) <= x || (x == 0 && Excess(r, x, y) == 0)
  }

  lemma ExcessUp(r: nat, x: int, y: int)
    ensures Excess(r, x, y + 1) == Excess(r, x, y) + 2 * y + 1
  {
    assert (y + 1) * (y + 1) == y * y + 2 * y + 1;
  }

  lemma ExcessIn(r: nat, x: int, y: int)
    ensures Excess(r, x - 1, y) == Excess(r, x, y) - 2 * x + 1
  {
    assert (x - 1) * (x - 1) == x * x - 2 * x + 1;
  }

  /** The eight points plotted for one (x, y) of the first octant. */
  function Octants(cx: int, cy: int, x: int, y: int): seq<Point> {
    [Point(cx + x, cy + y), Point(cx - x, cy + y), Point(cx + x, cy - y), Point(cx - x, cy - y),
     Point(cx + y, cy + x), Point(cx - y, cy + x), Point(cx + y, cy - x), Point(cx - y, cy - x)]
  }

  /** The columns of the first octant: for every y from 0 on the rounded root, as long as it is
      not left of the diagonal. */
  ghost predicate IsOctant(columns: seq<int>, r: int) {
    && (r < 0 ==> columns == [])
    && (r >= 0 ==>
          && columns != [] && columns[0] == r
          && (forall y: nat :: y < |columns| ==> Column(r, columns[y], y))
          && EndsAt(r, |columns|))
  }

  predicate Column(r: nat, x: int, y: nat) {
    y <= x <= r && RoundedRoot(r, x, y)
  }

  /** Row y's root is left of the diagonal. */
  ghost predicate EndsAt(r: nat, y: nat) {
    forall x :: y <= x && 1 <= x ==> !RoundedRoot(r, x, y)
  }

  function PointsOf(columns: seq<int>, cx: int, cy: int): seq<Point> {
    if columns == [] then [] else
    var n := |columns| - 1;
    PointsOf(columns[..n], cx, cy) + Octants(cx, cy, columns[n], n)
  }

  // Moving out by k columns.
  lemma ExcessOut(r: nat, x: int, k: int, y: int)
    requires 1 <= k && 0 <= x
    ensures Excess(r, x + k, y) >= Excess(r, x, y) + x + (x + k)
  {
    assert (x + k) * (x + k) == x * x + k * (2 * x + k);
    MulMono(1, k, 2 * x + k);
  }

  /** The rounded root of a row is unique. */
  lemma RoundedRootUnique(r: nat, x: int, x': int, y: int)
    requires RoundedRoot(r, x, y) && RoundedRoot(r, x', y) && 1 <= x && 1 <= x'
    ensures x == x'
  {
    if x < x' {
      ExcessOut(r, x, x' - x, y);
    } else if x' < x {
      ExcessOut(r, x', x - x', y);
    }
  }

  // Left of the diagonal and not below the circle: the row has no column of its own.
  lemma OctantEnds(r: nat, x: int, y: nat)
    requires 0 <= x < y && 0 - x < Excess(r, x, y)
    ensures EndsAt(r, y)
  {
    forall x' | y <= x' && 1 <= x'
      ensures !RoundedRoot(r, x', y)
    {
      ExcessOut(r, x, x' - x, y);
    }
  }
}
