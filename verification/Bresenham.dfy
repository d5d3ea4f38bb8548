/** The line loop of os/kernel/lassist.c. */
module Bresenham {

  function Abs(a: int): nat {
    if a < 0 then -a else a
  }

  function Max(a: nat, b: nat): nat {
    if a >= b then a else b
  }

  datatype Point = Point(x: int, y: int)

  /** The longer of the two extents. */
  function Extent(a: Point, b: Point): nat {
    Max(Abs(b.x - a.x), Abs(b.y - a.y))
  }

  /** Twice the area between the segment a-b and p: the distance of p from the
      segment along the minor axis, times the extent along the major axis. */
  function Cross(a: Point, b: Point, p: Point): int {
    (p.y - a.y) * (b.x - a.x) - (p.x - a.x) * (b.y - a.y)
  }

  /** p is within half a pixel of the ideal segment along the minor axis. */
  predicate Near(a: Point, b: Point, p: Point) {
    2 * Abs(Cross(a, b, p)) <= Extent(a, b)
  }

  predicate Between(u: int, v: int, w: int) {
    u <= v <= w || w <= v <= u
  }

  /** From p to q, no coordinate moves by more than one or away from b. */
  predicate Advances(p: Point, q: Point, b: Point) {
    && Abs(q.x - p.x) <= 1 && Abs(q.y - p.y) <= 1 && p != q
    && Between(p.x, q.x, b.x) && Between(p.y, q.y, b.y)
  }

  function Visible(ps: seq<Point>): seq<Point> {
    if ps == [] then []
    else
      var p := ps[|ps| - 1];
      Visible(ps[..|ps| - 1]) + if p.x >= 0 && p.y >= 0 then [p] else []
  }

  // ---- One step, in terms of the steps i and j taken along the two axes ----

  /** d is j * dx - i * dy; the bound that keeps every point near the segment. Half a pixel is
      reached on one side only, the side away from a. */
  predicate Bounded(dx: nat, dy: nat, d: int) {
    && 2 * Abs(d) <= Max(dx, dy)
    && (dx >= dy && dx > 0 ==> 2 * d + dx > 0) && (dx < dy ==> 2 * d < dy)
  }

  /** k parts out of n of m, rounded to the nearest integer, halves up. */
  function Share(k: int, m: int, n: int): int {
    if n == 0 then 0 else (2 * k * m + n) / (2 * n)
  }

  /** The pixel for step k: k along the longer axis, and the nearest integer to the segment
      along the other. */
  function Pixel(a: Point, b: Point, k: nat): Point {
    var dx, dy := Abs(b.x - a.x), Abs(b.y - a.y);
    if dx >= dy then Point(Go(a.x, a.x < b.x, k), Go(a.y, a.y < b.y, Share(k, dy, dx)))
    else Point(Go(a.x, a.x < b.x, Share(k, dx, dy)), Go(a.y, a.y < b.y, k))
  }

  /** The bounds leave one integer only. */
  lemma {:induction false} ShareIs(k: nat, m: nat, n: nat, j: nat)
    requires n > 0 && 0 < 2 * (j * n - k * m) + n && 2 * (j * n - k * m) <= n
    ensures j == Share(k, m, n)
  {
    var y := 2 * k * m + n;
    Reorder(k, m, j, n);
    QuotientIs(y, 2 * n, j);
  }

  lemma Reorder(k: nat, m: nat, j: nat, n: nat)
    ensures 2 * k * m == 2 * (k * m) && (2 * n) * j == 2 * (j * n) && (2 * n) * (j + 1) == 2 * (j * n) + 2 * n
  {
  }

  lemma {:induction false} QuotientIs(y: int, n: nat, q: nat)
    requires n > 0 && n * q <= y < n * (q + 1)
    ensures y / n == q
  {
    var d := y / n;
    assert y == n * d + y % n;
    Strictly(n, d, q);
  }

  lemma {:induction false} Strictly(n: nat, d: int, q: nat)
    ensures d > q ==> n * d >= n * (q + 1)
    ensures d < q ==> n * d + n <= n * q
  {
    Factor(n, d - q - 1);
    Factor(n, q - d - 1);
    assert n * (d - q - 1) == n * d - n * (q + 1) && n * (q - d - 1) == n * q - n * d - n;
  }

  lemma Factor(n: nat, e: int)
    ensures e >= 0 ==> n * e >= 0
  {
  }

  /** Where the loop stands, in closed form. */
  lemma {:induction false} StandsAt(dx: nat, dy: nat, i: int, j: int, d: int, k: int)
    requires OnTheWay(dx, dy, i, j, d, k)
    ensures if dx >= dy then i == k && j == Share(k, dy, dx) else j == k && i == Share(k, dx, dy)
  {
    if dx >= dy && dx > 0 {
      ShareIs(i, dy, dx, j);
    } else if dx < dy {
      ShareIs(j, dx, dy, i);
    }
  }

  lemma StepBounded(dx: nat, dy: nat, d: int)
    requires Bounded(dx, dy, d) && (dx > 0 || dy > 0)
    ensures var e2 := 2 * (d + dx - dy);
            var stepX, stepY := e2 + dy >= 0, e2 <= dx;
            && Bounded(dx, dy, d - (if stepX then dy else 0) + (if stepY then dx else 0))
            && (dx >= dy ==> stepX) && (dx <= dy ==> stepY)
  {
  }

  /** The last point along the major axis is the end point, and none lies beyond it. */
  lemma {:induction false} MinorAxis(major: nat, minor: nat, k: nat, j: nat)
    requires 0 < major && k <= major && 2 * Abs(j * major - k * minor) <= major
    ensures j <= minor && (k == major ==> j == minor)
  {
    Expand(minor, major);
    Expand(j, major);
    if j > minor {
      Grows(major, j, minor + 1);
      Grows(minor, major, k);
    } else if k == major && j < minor {
      Grows(major, minor, j + 1);
    }
  }

  lemma Expand(u: nat, v: nat)
    ensures (u + 1) * v == u * v + v && u * v == v * u
  {
  }

  lemma {:induction false} Grows(a: nat, b: nat, c: nat)
    requires b >= c
    ensures b * a >= c * a && a * b >= a * c
  {
  }

  /** i steps from a, up or down. */
  function Go(a: int, up: bool, i: int): int {
    if up then a + i else a - i
  }

  lemma Product(u: int, v: int)
    ensures (-u) * v == -(u * v) == u * (-v) && (-u) * (-v) == u * v
  {
  }

  /** The cross product does not depend on the directions. */
  lemma CrossOfSteps(a: Point, b: Point, upX: bool, upY: bool, dx: nat, dy: nat, i: nat, j: nat)
    requires b == Point(Go(a.x, upX, dx), Go(a.y, upY, dy))
    ensures Abs(Cross(a, b, Point(Go(a.x, upX, i), Go(a.y, upY, j)))) == Abs(j * dx - i * dy)
  {
    Product(j, dx);
    Product(i, dy);
  }

  /** Where the loop stands after i and j steps: on the way, near the segment. */
  ghost predicate OnTheWay(dx: nat, dy: nat, i: int, j: int, d: int, k: int) {
    && 0 <= i <= dx && 0 <= j <= dy && d == j * dx - i * dy && Bounded(dx, dy, d)
    && k == (if dx >= dy then i else j)
  }

  lemma StartsOut(dx: nat, dy: nat)
    ensures OnTheWay(dx, dy, 0, 0, 0, 0)
  {
  }

  lemma EndsExactly(dx: nat, dy: nat, i: int, j: int, d: int, k: int)
    requires OnTheWay(dx, dy, i, j, d, k)
    ensures i == dx && j == dy <==> k == Max(dx, dy)
    ensures k <= Max(dx, dy)
  {
    if dx >= dy && dx > 0 && i == dx {
      assert 2 * Abs(j * dx - i * dy) <= dx;
      MinorAxis(dx, dy, i, j);
    } else if dx < dy && j == dy {
      assert 2 * Abs(i * dy - j * dx) <= dy;
      MinorAxis(dy, dx, j, i);
    }
  }

  lemma StepsOn(dx: nat, dy: nat, i: int, j: int, d: int, k: int)
    requires OnTheWay(dx, dy, i, j, d, k) && k < Max(dx, dy)
    ensures var e2 := 2 * (d + dx - dy);
            var i', j' := if e2 + dy >= 0 then i + 1 else i, if e2 <= dx then j + 1 else j;
            OnTheWay(dx, dy, i', j', d - (if e2 + dy >= 0 then dy else 0) + (if e2 <= dx then dx else 0), k + 1)
  {
    StepBounded(dx, dy, d);
    NextProducts(i, j, dx, dy);
    var e2 := 2 * (d + dx - dy);
    var i', j' := if e2 + dy >= 0 then i + 1 else i, if e2 <= dx then j + 1 else j;
    var d' := d - (if e2 + dy >= 0 then dy else 0) + (if e2 <= dx then dx else 0);
    assert d' == j' * dx - i' * dy;
    if dx >= dy {
      MinorAxis(dx, dy, i', j');
    } else {
      assert 2 * Abs(i' * dy - j' * dx) <= dy;
      MinorAxis(dy, dx, j', i');
    }
  }

  lemma NextProducts(i: int, j: int, dx: nat, dy: nat)
    ensures (i + 1) * dy == i * dy + dy && (j + 1) * dx == j * dx + dx
  {
  }

  lemma NowNear(a: Point, b: Point, upX: bool, upY: bool, dx: nat, dy: nat, i: int, j: int, d: int, k: int)
    requires OnTheWay(dx, dy, i, j, d, k) && b == Point(Go(a.x, upX, dx), Go(a.y, upY, dy))
    ensures Near(a, b, Point(Go(a.x, upX, i), Go(a.y, upY, j)))
  {
    CrossOfSteps(a, b, upX, upY, dx, dy, i, j);
    assert Extent(a, b) == Max(dx, dy);
  }

  /** The points so far: from a, the nearest pixels to the segment, each one step further. */
  ghost predicate Path(a: Point, b: Point, ps: seq<Point>) {
    && (ps != [] ==> ps[0] == a)
    && (forall k | 0 <= k < |ps| :: ps[k] == Pixel(a, b, k))
    && (forall k | 0 <= k < |ps| :: Near(a, b, ps[k]))
    && (forall k {:trigger ps[k]} | 0 < k < |ps| :: Advances(ps[k - 1], ps[k], b))
  }

  lemma OneMorePoint(a: Point, b: Point, ps: seq<Point>, p: Point)
    requires Path(a, b, ps) && Near(a, b, p) && p == Pixel(a, b, |ps|)
    requires if ps == [] then p == a else Advances(ps[|ps| - 1], p, b)
    ensures Path(a, b, ps + [p])
    ensures Visible(ps + [p]) == if p.x >= 0 && p.y >= 0 then Visible(ps) + [p] else Visible(ps)
  {
    hide Near, Advances, Pixel;
    var qs := ps + [p];
    assert qs[..|ps|] == ps;
    forall k | 0 <= k < |qs|
      ensures qs[k] == Pixel(a, b, k)
    {
      assert qs[k] == if k < |ps| then ps[k] else p;
    }
    forall k | 0 <= k < |qs|
      ensures Near(a, b, qs[k])
    {
      assert qs[k] == if k < |ps| then ps[k] else p;
    }
    forall k | 0 < k < |qs|
      ensures Advances(qs[k - 1], qs[k], b)
    {
      assert qs[k - 1] == ps[k - 1];
      if k < |ps| {
        assert qs[k] == ps[k];
      }
    }
  }

  lemma StepAdvances(p: Point, q: Point, b: Point, upX: bool, upY: bool, i: nat, j: nat, i': nat, j': nat, dx: nat,
                     dy: nat)
    requires i <= i' <= dx && j <= j' <= dy && i' <= i + 1 && j' <= j + 1 && (i != i' || j != j')
    requires q.x == Go(p.x, upX, i' - i) && q.y == Go(p.y, upY, j' - j)
    requires b.x == Go(p.x, upX, dx - i) && b.y == Go(p.y, upY, dy - j)
    ensures Advances(p, q, b)
  {
  }

  lemma ExtentIs(a: Point, b: Point)
    ensures Extent(a, b) == Max(if b.x > a.x then b.x - a.x else a.x - b.x, if b.y > a.y then b.y - a.y else a.y - b.y)
  {
  }

  lemma Starts(a: Point, b: Point)
    ensures Path(a, b, []) && Visible([]) == []
  {
  }

  lemma InRange(dx: nat, dy: nat, i: int, j: int, d: int, k: int)
    requires OnTheWay(dx, dy, i, j, d, k)
    ensures 0 <= i <= dx && 0 <= j <= dy && k <= Max(dx, dy)
  {
  }

  /** The loop stands before the point p, i and j steps along the axes; d is what err
      is but for dx + dy. */
  ghost predicate Walking(a: Point, b: Point, upX: bool, upY: bool, dx: nat, dy: nat, visited: seq<Point>, p: Point,
                          d: int, i: int, j: int)
  {
    && b == Point(Go(a.x, upX, dx), Go(a.y, upY, dy)) && Extent(a, b) == Max(dx, dy)
    && upX == (a.x < b.x) && upY == (a.y < b.y)
    && OnTheWay(dx, dy, i, j, d, |visited|) && p == Point(Go(a.x, upX, i), Go(a.y, upY, j))
    && Path(a, b, visited) && if visited == [] then p == a else Advances(visited[|visited| - 1], p, b)
  }

  lemma {:induction false} StartsWalking(a: Point, b: Point, upX: bool, upY: bool, dx: nat, dy: nat)
    requires upX == (a.x < b.x) && upY == (a.y < b.y)
    requires dx == (if b.x > a.x then b.x - a.x else a.x - b.x) && dy == if b.y > a.y then b.y - a.y else a.y - b.y
    ensures Walking(a, b, upX, upY, dx, dy, [], a, 0, 0, 0) && Visible([]) == []
  {
    StartsOut(dx, dy);
    ExtentIs(a, b);
    Starts(a, b);
  }

  lemma {:induction false} StandsOnPixel(a: Point, b: Point, upX: bool, upY: bool, dx: nat, dy: nat, i: int, j: int,
                                         d: int, k: int)
    requires OnTheWay(dx, dy, i, j, d, k) && b == Point(Go(a.x, upX, dx), Go(a.y, upY, dy))
    requires upX == (a.x < b.x) && upY == (a.y < b.y)
    ensures k >= 0 && Point(Go(a.x, upX, i), Go(a.y, upY, j)) == Pixel(a, b, k)
  {
    StandsAt(dx, dy, i, j, d, k);
    hide Share;
  }

  /** Visiting the point. It is the end exactly when all steps have been made. */
  lemma {:induction false} Visits(a: Point, b: Point, upX: bool, upY: bool, dx: nat, dy: nat, visited: seq<Point>,
                                  p: Point, d: int, i: int, j: int)
    requires Walking(a, b, upX, upY, dx, dy, visited, p, d, i, j)
    ensures Path(a, b, visited + [p]) && (p == b <==> |visited| == Extent(a, b)) && |visited| <= Extent(a, b)
    ensures Visible(visited + [p]) == if p.x >= 0 && p.y >= 0 then Visible(visited) + [p] else Visible(visited)
  {
    hide Near, Advances, Path, Visible, Extent, OnTheWay, Pixel;
    NowNear(a, b, upX, upY, dx, dy, i, j, d, |visited|);
    StandsOnPixel(a, b, upX, upY, dx, dy, i, j, d, |visited|);
    OneMorePoint(a, b, visited, p);
    EndsExactly(dx, dy, i, j, d, |visited|);
  }

  /** One round of error arithmetic. */
  lemma {:induction false} Moves(a: Point, b: Point, upX: bool, upY: bool, dx: nat, dy: nat, visited: seq<Point>,
                                 p: Point, d: int, i: int, j: int, q: Point, goX: bool, goY: bool)
    requires Walking(a, b, upX, upY, dx, dy, visited, p, d, i, j) && |visited| < Extent(a, b)
             && Path(a, b, visited + [p])
    requires goX == (2 * (d + dx - dy) + dy >= 0) && goY == (2 * (d + dx - dy) <= dx)
    requires q.x == (if goX then Go(p.x, upX, 1) else p.x) && q.y == if goY then Go(p.y, upY, 1) else p.y
    ensures Walking(a, b, upX, upY, dx, dy, visited + [p], q, d - (if goX then dy else 0) + (if goY then dx else 0),
                    if goX then i + 1 else i, if goY then j + 1 else j)
  {
    hide Near, Advances, Path, Visible, Extent, OnTheWay;
    var k := |visited|;
    var i', j' := if goX then i + 1 else i, if goY then j + 1 else j;
    StepsOn(dx, dy, i, j, d, k);
    InRange(dx, dy, i, j, d, k);
    InRange(dx, dy, i', j', d - (if goX then dy else 0) + (if goY then dx else 0), k + 1);
    SomeStep(dx, dy, i, j, d, k);
    StepAdvances(p, q, b, upX, upY, i, j, i', j', dx, dy);
  }

  /** At least one of the two coordinates moves. */
  lemma {:induction false} SomeStep(dx: nat, dy: nat, i: int, j: int, d: int, k: int)
    requires OnTheWay(dx, dy, i, j, d, k) && k < Max(dx, dy)
    ensures 2 * (d + dx - dy) + dy >= 0 || 2 * (d + dx - dy) <= dx
  {
    StepBounded(dx, dy, d);
  }

  /** line(): every point visited, in order, and those that were drawn. */
  method Line(a: Point, b: Point) returns (visited: seq<Point>, drawn: seq<Point>)
    ensures |visited| == Extent(a, b) + 1 && Path(a, b, visited) && visited[|visited| - 1] == b
    ensures drawn == Visible(visited)
  {
    hide Path, Visible, Extent, Walking, Go;
    var x, y := a.x, a.y;
    var dx := if b.x > x then b.x - x else x - b.x;
    var sx := if x < b.x then 1 else -1;
    var dy := if b.y > y then y - b.y else b.y - y;
    var sy := if y < b.y then 1 else -1;
    var err := dx + dy;
    visited, drawn := [], [];
    ghost var upX, upY, i, j := x < b.x, y < b.y, 0, 0;
    StartsWalking(a, b, upX, upY, dx, -dy);
    while true
      invariant Walking(a, b, upX, upY, dx, -dy, visited, Point(x, y), err - dx - dy, i, j)
      invariant drawn == Visible(visited) && |visited| <= Extent(a, b)
      decreases Extent(a, b) - |visited|
    {
      ghost var before, p, d := visited, Point(x, y), err - dx - dy;
      Visits(a, b, upX, upY, dx, -dy, visited, p, d, i, j);
      visited := visited + [Point(x, y)];
      if x >= 0 && y >= 0 {
        drawn := drawn + [Point(x, y)];
      }
      if x == b.x && y == b.y {
        break;
      }
      ghost var goX, goY := err * 2 >= dy, err * 2 <= dx;
      var e2 := err * 2;
      if e2 >= dy {
        err := err + dy;
        x := x + sx;
      }
      if e2 <= dx {
        err := err + dx;
        y := y + sy;
      }
      OneStep(p.x, upX);
      OneStep(p.y, upY);
      Moves(a, b, upX, upY, dx, -dy, before, p, d, i, j, Point(x, y), goX, goY);
      i, j := if goX then i + 1 else i, if goY then j + 1 else j;
    }
  }

  lemma {:induction false} OneStep(u: int, up: bool)
    ensures Go(u, up, 1) == if up then u + 1 else u - 1
  {
  }
}
