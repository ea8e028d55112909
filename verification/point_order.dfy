/**
 * `sort_points`: canonical order of four points as top-left, top-right,
 * bottom-right, bottom-left.
 */
module PointOrder {
  import opened Geometry
  import opened Seqs

  /** Four corners in clockwise order from the top-left one. */
  datatype Quad = Quad(tl: Point, tr: Point, br: Point, bl: Point)

  /** The corners as a polygon, in the order tl, tr, br, bl. */
  function Vertices(q: Quad): seq<Point> {
    [q.tl, q.tr, q.br, q.bl]
  }

  /**
   * sort_points: the two smallest-x points form the left pair, ordered by y
   * into tl and bl; of the two right points the one farther from tl is br.
   * A tie in x or y keeps input order; a tie in distance makes the second
   * right point br (the reversed argsort).
   */
  function SortPoints(points: seq<Point>): (q: Quad)
    requires |points| == 4
    ensures multiset(Vertices(q)) == multiset(points)
    ensures q.tl.x <= q.tr.x && q.tl.x <= q.br.x
    ensures q.bl.x <= q.tr.x && q.bl.x <= q.br.x
    ensures q.tl.y <= q.bl.y
    ensures SqDist(q.tl, q.tr) <= SqDist(q.tl, q.br)
  {
    OrderXSorted(SortBy(points, XOf))
  }

  /** The part of sort_points after the points have been sorted by x. */
  function OrderXSorted(xSorted: seq<Point>): (q: Quad)
    requires |xSorted| == 4 && SortedBy(xSorted, XOf)
    ensures multiset(Vertices(q)) == multiset(xSorted)
    ensures q.tl.x <= q.tr.x && q.tl.x <= q.br.x
    ensures q.bl.x <= q.tr.x && q.bl.x <= q.br.x
    ensures q.tl.y <= q.bl.y
    ensures SqDist(q.tl, q.tr) <= SqDist(q.tl, q.br)
  {
    var (tl, bl) := SortedPair(xSorted[0], xSorted[1], YOf);
    var q := WithRight(tl, bl, xSorted[2], xSorted[3]);
    LeftRightPairs(xSorted, q);
    q
  }

  /** A quad made of the two leftmost points and the two rightmost ones permutes them and keeps left left of right. */
  lemma LeftRightPairs(xSorted: seq<Point>, q: Quad)
    requires |xSorted| == 4 && SortedBy(xSorted, XOf)
    requires (q.tl == xSorted[0] && q.bl == xSorted[1]) || (q.tl == xSorted[1] && q.bl == xSorted[0])
    requires (q.tr == xSorted[2] && q.br == xSorted[3]) || (q.tr == xSorted[3] && q.br == xSorted[2])
    ensures multiset(Vertices(q)) == multiset(xSorted)
    ensures q.tl.x <= q.tr.x && q.tl.x <= q.br.x
    ensures q.bl.x <= q.tr.x && q.bl.x <= q.br.x
  {
    assert xSorted == [xSorted[0], xSorted[1], xSorted[2], xSorted[3]];
    assert XOf(xSorted[0]) <= XOf(xSorted[2]) && XOf(xSorted[0]) <= XOf(xSorted[3]);
    assert XOf(xSorted[1]) <= XOf(xSorted[2]) && XOf(xSorted[1]) <= XOf(xSorted[3]);
    PairsPermutation(xSorted[0], xSorted[1], xSorted[2], xSorted[3], q);
  }

  /**
   * The right pair placed against the top-left corner: the nearer one is
   * top-right, the farther one bottom-right.
   */
  function WithRight(tl: Point, bl: Point, r0: Point, r1: Point): (q: Quad)
    ensures q.tl == tl && q.bl == bl
    ensures (q.tr == r0 && q.br == r1) || (q.tr == r1 && q.br == r0)
    ensures SqDist(q.tl, q.tr) <= SqDist(q.tl, q.br)
  {
    if SqDist(tl, r0) > SqDist(tl, r1) then Quad(tl, r1, r0, bl) else Quad(tl, r0, r1, bl)
  }

  function Indicator<T(==)>(a: T, e: T): nat { if a == e then 1 else 0 }

  lemma CountFour<T>(w: T, x: T, y: T, z: T, e: T)
    ensures multiset([w, x, y, z])[e] == Indicator(w, e) + Indicator(x, e) + Indicator(y, e) + Indicator(z, e)
  {
  }

  lemma MultisetExt<T>(a: multiset<T>, b: multiset<T>)
    requires forall e :: a[e] == b[e]
    ensures a == b
  {
  }

  /**
   * A quad whose left corners are the first two of four points, in either
   * order, and whose right corners are the last two, in either order, is a
   * permutation of them.
   */
  lemma PairsPermutation(a: Point, b: Point, c: Point, d: Point, q: Quad)
    requires (q.tl == a && q.bl == b) || (q.tl == b && q.bl == a)
    requires (q.tr == c && q.br == d) || (q.tr == d && q.br == c)
    ensures multiset(Vertices(q)) == multiset([a, b, c, d])
  {
    forall e ensures multiset(Vertices(q))[e] == multiset([a, b, c, d])[e] {
      PairsCount(a, b, c, d, q, e);
    }
    MultisetExt(multiset(Vertices(q)), multiset([a, b, c, d]));
  }

  lemma PairsCount(a: Point, b: Point, c: Point, d: Point, q: Quad, e: Point)
    requires (q.tl == a && q.bl == b) || (q.tl == b && q.bl == a)
    requires (q.tr == c && q.br == d) || (q.tr == d && q.br == c)
    ensures multiset(Vertices(q))[e] == multiset([a, b, c, d])[e]
  {
    CountFour(q.tl, q.tr, q.br, q.bl, e);
    CountFour(a, b, c, d, e);
    assert Indicator(q.tl, e) + Indicator(q.bl, e) == Indicator(a, e) + Indicator(b, e);
    assert Indicator(q.tr, e) + Indicator(q.br, e) == Indicator(c, e) + Indicator(d, e);
  }

  /**
   * When the four x-coordinates are distinct the canonical order does not
   * depend on the order the points come in.
   */
  lemma SortPointsPermutationInvariant(p: seq<Point>, q: seq<Point>)
    requires |p| == 4 && multiset(p) == multiset(q)
    requires forall i, j | 0 <= i < j < 4 :: p[i].x != p[j].x
    ensures |q| == 4
    ensures SortPoints(p) == SortPoints(q)
  {
    assert |q| == |multiset(q)| == |multiset(p)| == 4;
    DistinctKeysAt(p, XOf);
    SortByDeterminedByMultiset(p, q, XOf);
  }

  /** Re-ordering an already ordered quad changes nothing when the x-coordinates are distinct. */
  lemma SortPointsIdempotent(p: seq<Point>)
    requires |p| == 4
    requires forall i, j | 0 <= i < j < 4 :: p[i].x != p[j].x
    ensures SortPoints(Vertices(SortPoints(p))) == SortPoints(p)
  {
    SortPointsPermutationInvariant(p, Vertices(SortPoints(p)));
  }

  /** The rectangle (50,50)-(450,350), given in a scrambled order, comes out as TL, TR, BR, BL. */
  lemma SortPointsRectangle()
    ensures SortPoints([Point(450, 350), Point(50, 50), Point(450, 50), Point(50, 350)])
         == Quad(Point(50, 50), Point(450, 50), Point(450, 350), Point(50, 350))
  {
    RectangleXSorted();
    SortTwo(Point(50, 50), Point(50, 350), YOf);
  }

  /** Sorting the scrambled rectangle by x is stable: equal x keep input order. */
  lemma RectangleXSorted()
    ensures SortBy([Point(450, 350), Point(50, 50), Point(450, 50), Point(50, 350)], XOf)
         == [Point(50, 50), Point(50, 350), Point(450, 350), Point(450, 50)]
  {
    var p := [Point(450, 350), Point(50, 50), Point(450, 50), Point(50, 350)];
    assert p[..3] == [Point(450, 350), Point(50, 50), Point(450, 50)];
    RectangleXSortedThree();
    RectangleInsertLast();
    assert SortBy(p, XOf) == Insert(Point(50, 350), [Point(50, 50), Point(450, 350), Point(450, 50)], XOf);
  }

  lemma RectangleInsertLast()
    ensures Insert(Point(50, 350), [Point(50, 50), Point(450, 350), Point(450, 50)], XOf)
         == [Point(50, 50), Point(50, 350), Point(450, 350), Point(450, 50)]
  {
    var s3 := [Point(50, 50), Point(450, 350), Point(450, 50)];
    assert s3[..2] == [Point(50, 50), Point(450, 350)];
    assert s3[..2][..1] == [Point(50, 50)];
    assert Insert(Point(50, 350), s3[..2][..1], XOf) == [Point(50, 50), Point(50, 350)];
    assert Insert(Point(50, 350), s3[..2], XOf) == [Point(50, 50), Point(50, 350), Point(450, 350)];
  }

  lemma RectangleXSortedThree()
    ensures SortBy([Point(450, 350), Point(50, 50), Point(450, 50)], XOf)
         == [Point(50, 50), Point(450, 350), Point(450, 50)]
  {
    var p := [Point(450, 350), Point(50, 50), Point(450, 50)];
    assert p[..2] == [Point(450, 350), Point(50, 50)];
    assert p[..2][..1] == [Point(450, 350)];
    assert SortBy(p[..2], XOf) == [Point(50, 50), Point(450, 350)] by {
      SortTwo(Point(450, 350), Point(50, 50), XOf);
    }
  }
}
