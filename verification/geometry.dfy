/**
 * Integer plane geometry used by the corner search and the rectifier:
 * pixel points, squared Euclidean distance, OpenCV's contour area (kept
 * doubled so that it stays an integer) and the integer square root that
 * `int(np.sqrt(n))` computes.
 */
module Geometry {

  /** A pixel position: column `x`, row `y`. */
  datatype Point = Point(x: int, y: int)

  function XOf(p: Point): int { p.x }

  function YOf(p: Point): int { p.y }

  /** The point mirrored in the main diagonal: rows become columns. */
  function Transpose(p: Point): Point { Point(p.y, p.x) }

  function Abs(n: int): nat {
    if n < 0 then -n else n
  }

  /** Squared Euclidean distance; comparing it against `d * d` compares the distance against `d`. */
  function SqDist(p: Point, q: Point): nat {
    (p.x - q.x) * (p.x - q.x) + (p.y - q.y) * (p.y - q.y)
  }

  lemma SqDistSymmetric(p: Point, q: Point)
    ensures SqDist(p, q) == SqDist(q, p)
  {
    assert (p.x - q.x) * (p.x - q.x) == (q.x - p.x) * (q.x - p.x);
    assert (p.y - q.y) * (p.y - q.y) == (q.y - p.y) * (q.y - p.y);
  }

  /** The z-component of the cross product of `a` and `b` taken as vectors from the origin. */
  function Cross(a: Point, b: Point): int {
    a.x * b.y - b.x * a.y
  }

  /** Sum of the cross products of consecutive vertices, not closing the polygon. */
  function ChainSum(poly: seq<Point>): int
    decreases |poly|
  {
    if |poly| < 2 then 0 else Cross(poly[0], poly[1]) + ChainSum(poly[1..])
  }

  /** Shoelace sum over the closed polygon: twice its signed area. */
  function ShoelaceSum(poly: seq<Point>): int {
    if |poly| == 0 then 0 else ChainSum(poly) + Cross(poly[|poly| - 1], poly[0])
  }

  /** `cv2.contourArea(poly)` doubled: the absolute shoelace sum. */
  function TwiceArea(poly: seq<Point>): nat {
    Abs(ShoelaceSum(poly))
  }

  lemma {:induction false} ChainSumSnoc(poly: seq<Point>, p: Point)
    requires |poly| > 0
    ensures ChainSum(poly + [p]) == ChainSum(poly) + Cross(poly[|poly| - 1], p)
    decreases |poly|
  {
    if |poly| > 1 {
      assert (poly + [p])[1..] == poly[1..] + [p];
      ChainSumSnoc(poly[1..], p);
    }
  }

  /** The area does not depend on which vertex the polygon starts from. */
  lemma ShoelaceRotation(poly: seq<Point>)
    requires |poly| > 0
    ensures ShoelaceSum(poly[1..] + [poly[0]]) == ShoelaceSum(poly)
    ensures TwiceArea(poly[1..] + [poly[0]]) == TwiceArea(poly)
  {
    if |poly| > 1 {
      ChainSumSnoc(poly[1..], poly[0]);
    }
  }

  /** An axis-parallel rectangle listed TL, TR, BR, BL has twice-area 2·width·height. */
  lemma RectangleArea(x0: int, y0: int, x1: int, y1: int)
    ensures TwiceArea([Point(x0, y0), Point(x1, y0), Point(x1, y1), Point(x0, y1)])
         == 2 * Abs(x1 - x0) * Abs(y1 - y0)
  {
    var poly := [Point(x0, y0), Point(x1, y0), Point(x1, y1), Point(x0, y1)];
    assert poly[1..][1..] == poly[2..] && poly[2..][1..] == [Point(x0, y1)];
    assert ChainSum(poly[2..]) == Cross(poly[2], poly[3]);
    assert ChainSum(poly[1..]) == Cross(poly[1], poly[2]) + ChainSum(poly[2..]);
    assert ChainSum(poly) == Cross(poly[0], poly[1]) + Cross(poly[1], poly[2]) + Cross(poly[2], poly[3]);
    assert ShoelaceSum(poly) == 2 * ((x1 - x0) * (y1 - y0));
    AbsProduct(x1 - x0, y1 - y0);
  }

  lemma AbsProduct(a: int, b: int)
    ensures Abs(2 * (a * b)) == 2 * Abs(a) * Abs(b)
  {
    if a < 0 && b >= 0 {
      assert a * b == -((-a) * b);
    } else if a >= 0 && b < 0 {
      assert a * b == -(a * (-b));
    } else if a < 0 && b < 0 {
      assert a * b == (-a) * (-b);
    }
  }

  /** The integer square root: `int(np.sqrt(n))` for a perfect-precision sqrt. */
  function FloorSqrt(n: nat): (r: nat)
    ensures r * r <= n < (r + 1) * (r + 1)
    decreases n
  {
    if n == 0 then 0
    else
      var s := FloorSqrt(n / 4);
      var t := 2 * s;
      DoubleRootBounds(n, s);
      if (t + 1) * (t + 1) <= n then t + 1 else t
  }

  /** Doubling the integer square root of `n / 4` gives `n`'s to within one. */
  lemma DoubleRootBounds(n: nat, s: nat)
    requires s * s <= n / 4 < (s + 1) * (s + 1)
    ensures (2 * s) * (2 * s) <= n < (2 * s + 2) * (2 * s + 2)
  {
    var q := n / 4;
    assert n == 4 * q + n % 4;
    assert (2 * s) * (2 * s) == 4 * (s * s);
    assert (2 * s + 2) * (2 * s + 2) == 4 * ((s + 1) * (s + 1));
    assert q + 1 <= (s + 1) * (s + 1);
  }

  lemma SquareMonotone(a: nat, b: nat)
    requires a <= b
    ensures a * a <= b * b
  {
    assert a * a <= a * b <= b * b;
  }

  /** At most one natural number is the integer square root of `n`. */
  lemma SqrtUnique(n: nat, a: nat, b: nat)
    requires a * a <= n < (a + 1) * (a + 1)
    requires b * b <= n < (b + 1) * (b + 1)
    ensures a == b
  {
    if a < b {
      SquareMonotone(a + 1, b);
    } else if b < a {
      SquareMonotone(b + 1, a);
    }
  }

  /** The integer square root of a perfect square is exact. */
  lemma FloorSqrtOfSquare(d: nat)
    ensures FloorSqrt(d * d) == d
  {
    assert d * d < (d + 1) * (d + 1) by {
      assert (d + 1) * (d + 1) == d * d + 2 * d + 1;
    }
    SqrtUnique(d * d, FloorSqrt(d * d), d);
  }

  /** The integer square root is monotone. */
  lemma FloorSqrtMonotone(m: nat, n: nat)
    requires m <= n
    ensures FloorSqrt(m) <= FloorSqrt(n)
  {
    var a := FloorSqrt(m);
    var b := FloorSqrt(n);
    RootsOrdered(m, n, a, b);
  }

  /** A lower root of the smaller number is at most an upper root of the larger. */
  lemma RootsOrdered(m: nat, n: nat, a: nat, b: nat)
    requires m <= n && a * a <= m && n < (b + 1) * (b + 1)
    ensures a <= b
  {
    SquareLess(a, b + 1);
  }

  /** Squares of naturals are strictly ordered like the naturals. */
  lemma SquareLess(x: nat, y: nat)
    requires x * x < y * y
    ensures x < y
  {
    if y <= x {
      SquareMonotone(y, x);
    }
  }
}
