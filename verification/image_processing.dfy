/**
 * `image_processing`: the pre-processing constants and the geometry of the
 * bird's-eye rectification, that is the size of the output image and the
 * destination rectangle the four card corners are mapped to. The image
 * operations themselves (colour conversion, blur, morphology, Canny, the
 * perspective warp) are OpenCV calls and are not modelled.
 */
module ImageProcessing {
  import opened Geometry
  import opened Seqs
  import opened PointOrder

  /** The constants `get_constants` hands to the pre-processing steps. */
  datatype Constants = Constants(morph: int, canny: int, hough: int)

  const DefaultMorph: int := 9
  const DefaultCanny: int := 84
  const DefaultHough: int := 25

  /**
   * `get_constants`: the three keyword arguments, MORPH 9, CANNY 84 and
   * HOUGH 25 unless overridden; the image size plays no part.
   */
  function GetConstants(height: int, width: int, morph: int := DefaultMorph,
                        canny: int := DefaultCanny, hough: int := DefaultHough): (r: Constants)
    ensures r.morph == morph && r.canny == canny && r.hough == hough
  {
    Constants(morph, canny, hough)
  }

  /** The size of the rectified image. */
  datatype Size = Size(width: nat, height: nat)

  /** `int(np.sqrt(dx ** 2 + dy ** 2))`: an edge length truncated to an integer. */
  function EdgeLength(p: Point, q: Point): (n: nat)
    ensures n * n <= SqDist(p, q) < (n + 1) * (n + 1)
  {
    FloorSqrt(SqDist(p, q))
  }

  /**
   * The output size in `to_bird_eye_view`: the width is the longer of the
   * truncated bottom (bl to br) and top (tl to tr) edges, the height the
   * longer of the truncated left (tl to bl) and right (tr to br) edges.
   * Equivalently each is the integer square root of the larger squared
   * edge length.
   */
  function OutputSize(q: Quad): (s: Size)
    ensures s.width * s.width <= Max(SqDist(q.br, q.bl), SqDist(q.tr, q.tl)) < (s.width + 1) * (s.width + 1)
    ensures s.height * s.height <= Max(SqDist(q.tl, q.bl), SqDist(q.tr, q.br)) < (s.height + 1) * (s.height + 1)
  {
    var widthA := EdgeLength(q.br, q.bl);
    var widthB := EdgeLength(q.tr, q.tl);
    var heightA := EdgeLength(q.tl, q.bl);
    var heightB := EdgeLength(q.tr, q.br);
    MaxOfRoots(SqDist(q.br, q.bl), SqDist(q.tr, q.tl));
    MaxOfRoots(SqDist(q.tl, q.bl), SqDist(q.tr, q.br));
    Size(Max(widthA, widthB), Max(heightA, heightB))
  }

  /** The larger of two integer square roots is the integer square root of the larger number. */
  lemma MaxOfRoots(m: nat, n: nat)
    ensures Max(FloorSqrt(m), FloorSqrt(n)) == FloorSqrt(Max(m, n))
  {
    if m <= n {
      FloorSqrtMonotone(m, n);
    } else {
      FloorSqrtMonotone(n, m);
    }
  }

  /**
   * The destination corners: (0, 0), (w-1, 0), (w-1, h-1), (0, h-1), in the
   * same tl, tr, br, bl order as the card corners.
   */
  function Destination(s: Size): (d: Quad)
    ensures d.tl == Point(0, 0)
    ensures d.tr.x == d.br.x == s.width - 1 && d.bl.y == d.br.y == s.height - 1
    ensures d.tr.y == d.tl.y && d.bl.x == d.tl.x
    ensures s.width > 0 && s.height > 0 ==>
      TwiceArea(Vertices(d)) == 2 * (s.width - 1) * (s.height - 1)
  {
    var d := Quad(Point(0, 0), Point(s.width - 1, 0), Point(s.width - 1, s.height - 1), Point(0, s.height - 1));
    RectangleArea(0, 0, s.width - 1, s.height - 1);
    d
  }

  /** An axis-aligned rectangle is rectified at its own size. */
  lemma RectangleSize(x0: int, y0: int, x1: int, y1: int)
    requires x0 <= x1 && y0 <= y1
    ensures OutputSize(Quad(Point(x0, y0), Point(x1, y0), Point(x1, y1), Point(x0, y1)))
         == Size(x1 - x0, y1 - y0)
  {
    var w: nat := x1 - x0;
    var h: nat := y1 - y0;
    AxisEdge(x1, x0, y1, w);
    AxisEdge(x1, x0, y0, w);
    AxisEdge(y0, y1, x0, h);
    assert SqDist(Point(x1, y0), Point(x1, y1)) == h * h by {
      AxisEdge(y0, y1, x1, h);
      SqDistSymmetric(Point(x1, y0), Point(x1, y1));
    }
    var q := Quad(Point(x0, y0), Point(x1, y0), Point(x1, y1), Point(x0, y1));
    assert EdgeLength(q.br, q.bl) == w && EdgeLength(q.tr, q.tl) == w;
    assert EdgeLength(q.tl, q.bl) == h && EdgeLength(q.tr, q.br) == h;
  }

  /** An edge along an axis is as long as the difference of its varying coordinates. */
  lemma AxisEdge(a: int, b: int, c: int, d: nat)
    requires d == a - b || d == b - a
    ensures SqDist(Point(a, c), Point(b, c)) == d * d
    ensures SqDist(Point(c, a), Point(c, b)) == d * d
    ensures EdgeLength(Point(a, c), Point(b, c)) == d
    ensures EdgeLength(Point(c, a), Point(c, b)) == d
  {
    var e := a - b;
    assert e * e == d * d by {
      if d != e {
        assert e == -(d as int);
        NegSquare(d);
      }
    }
    assert SqDist(Point(a, c), Point(b, c)) == e * e + 0 * 0;
    assert SqDist(Point(c, a), Point(c, b)) == 0 * 0 + e * e;
    FloorSqrtOfSquare(d);
  }

  lemma NegSquare(x: int)
    ensures (-x) * (-x) == x * x
  {
  }

  /** The card (50, 50)-(450, 350) gives a 400 by 300 image. */
  lemma RectangleSizeExample()
    ensures OutputSize(Quad(Point(50, 50), Point(450, 50), Point(450, 350), Point(50, 350))) == Size(400, 300)
  {
    RectangleSize(50, 50, 450, 350);
  }

  /** Four coinciding corners give an empty image. */
  lemma DegenerateSize(p: Point)
    ensures OutputSize(Quad(p, p, p, p)) == Size(0, 0)
  {
    FloorSqrtOfSquare(0);
  }
}
