/**
 * The candidate-corner stage of `get_corners`: detected segments are
 * classified as horizontal or vertical and extended, the longest contours
 * of each canvas give two endpoints each, and the cells where a horizontal
 * and a vertical line cross are added before `filter_corners` thins the
 * list out.
 *
 * OpenCV's drawing and contour tracing are not modelled: the strokes are
 * the model's output, and the traced contours and redrawn canvases are its
 * inputs.
 */
module LineCanvas {
  import opened Wrappers
  import opened Geometry
  import opened Seqs
  import opened CornerFilter

  // ---------------------------------------------------------------------
  // Segments and strokes
  // ---------------------------------------------------------------------

  /** A segment as the line detector reports it: real endpoints and a width. */
  datatype RawSegment = RawSegment(x1: real, y1: real, x2: real, y2: real, width: real)

  /** A segment after `astype(np.int32)`. */
  datatype Segment = Segment(a: Point, b: Point)

  datatype Canvas = Horizontal | Vertical

  /** A line drawn on one of the two canvases, from `from` to `to`. */
  datatype Stroke = Stroke(canvas: Canvas, from: Point, to: Point)

  /** The pixel margin by which every stroke is extended beyond its segment. */
  const Extension: int := 5

  /** Conversion of a float to an integer by truncation toward zero. */
  function TruncReal(r: real): (n: int)
    ensures 0.0 <= r ==> n as real <= r < n as real + 1.0
    ensures r < 0.0 ==> n as real - 1.0 < r <= n as real
  {
    if r >= 0.0 then r.Floor else -((-r).Floor)
  }

  lemma TruncRealOfInt(k: int)
    ensures TruncReal(k as real) == k
  {
  }

  /** The integer segment: each coordinate truncated, the width dropped. */
  function ToSegment(s: RawSegment): (r: Segment)
    ensures r.a.x == TruncReal(s.x1) && r.a.y == TruncReal(s.y1)
    ensures r.b.x == TruncReal(s.x2) && r.b.y == TruncReal(s.y2)
  {
    Segment(Point(TruncReal(s.x1), TruncReal(s.y1)), Point(TruncReal(s.x2), TruncReal(s.y2)))
  }

  /**
   * One iteration of the drawing loop for an image `width` wide and
   * `height` tall. A segment wider than tall goes to the horizontal
   * canvas with its endpoints ordered by x (a stable two-element sort),
   * the left one moved 5 px left but not past column 0 and the right one
   * 5 px right but not past the last column; any other segment goes to
   * the vertical canvas, ordered by y and extended the same way in rows.
   */
  function StrokeOf(s: Segment, width: int, height: int): (r: Stroke)
    ensures r.canvas == Horizontal <==> Abs(s.b.x - s.a.x) > Abs(s.b.y - s.a.y)
    ensures r.canvas == Horizontal ==>
      && r.from.x == Max(Min(s.a.x, s.b.x) - Extension, 0)
      && r.to.x == Min(Max(s.a.x, s.b.x) + Extension, width - 1)
      && (if s.b.x < s.a.x then r.from.y == s.b.y && r.to.y == s.a.y
          else r.from.y == s.a.y && r.to.y == s.b.y)
    ensures r.canvas == Vertical ==>
      && r.from.y == Max(Min(s.a.y, s.b.y) - Extension, 0)
      && r.to.y == Min(Max(s.a.y, s.b.y) + Extension, height - 1)
      && (if s.b.y < s.a.y then r.from.x == s.b.x && r.to.x == s.a.x
          else r.from.x == s.a.x && r.to.x == s.b.x)
  {
    if Abs(s.b.x - s.a.x) > Abs(s.b.y - s.a.y) then HorizontalStroke(s, width) else VerticalStroke(s, height)
  }

  /** The stroke `lo`..`hi` covers both ends `a` and `b` and stays within 0..`size` - 1. */
  predicate Covers(lo: int, hi: int, a: int, b: int, size: int) {
    0 <= lo && hi <= size - 1 && lo <= a <= hi && lo <= b <= hi
  }

  /**
   * The stroke of a segment on the horizontal canvas; for a segment inside
   * the image it covers the segment's columns and stays within the image.
   */
  function HorizontalStroke(s: Segment, width: int): (r: Stroke)
    ensures r.canvas == Horizontal
    ensures r.from.x == Max(Min(s.a.x, s.b.x) - Extension, 0)
    ensures r.to.x == Min(Max(s.a.x, s.b.x) + Extension, width - 1)
    ensures if s.b.x < s.a.x then r.from.y == s.b.y && r.to.y == s.a.y
            else r.from.y == s.a.y && r.to.y == s.b.y
    ensures 0 <= s.a.x < width && 0 <= s.b.x < width ==> Covers(r.from.x, r.to.x, s.a.x, s.b.x, width)
  {
    var (lo, hi) := SortedPair(s.a, s.b, XOf);
    Stroke(Horizontal, Point(Max(lo.x - Extension, 0), lo.y), Point(Min(hi.x + Extension, width - 1), hi.y))
  }

  /** The stroke on the vertical canvas, covering the segment's rows within the image. */
  function VerticalStroke(s: Segment, height: int): (r: Stroke)
    ensures r.canvas == Vertical
    ensures r.from.y == Max(Min(s.a.y, s.b.y) - Extension, 0)
    ensures r.to.y == Min(Max(s.a.y, s.b.y) + Extension, height - 1)
    ensures if s.b.y < s.a.y then r.from.x == s.b.x && r.to.x == s.a.x
            else r.from.x == s.a.x && r.to.x == s.b.x
    ensures 0 <= s.a.y < height && 0 <= s.b.y < height ==> Covers(r.from.y, r.to.y, s.a.y, s.b.y, height)
  {
    var (lo, hi) := SortedPair(s.a, s.b, YOf);
    Stroke(Vertical, Point(lo.x, Max(lo.y - Extension, 0)), Point(hi.x, Min(hi.y + Extension, height - 1)))
  }

  /** The strokes the drawing loop makes, one per detected segment, in order. */
  function Strokes(segments: seq<RawSegment>, width: int, height: int): (r: seq<Stroke>)
    ensures |r| == |segments|
    ensures forall i | 0 <= i < |r| :: r[i] == StrokeOf(ToSegment(segments[i]), width, height)
  {
    seq(|segments|, i requires 0 <= i < |segments| => StrokeOf(ToSegment(segments[i]), width, height))
  }

  // ---------------------------------------------------------------------
  // Endpoints of the longest contours
  // ---------------------------------------------------------------------

  function Sum(vals: seq<int>): int
    decreases |vals|
  {
    if |vals| == 0 then 0 else Sum(vals[..|vals| - 1]) + vals[|vals| - 1]
  }

  function SeqMin(vals: seq<int>): (m: int)
    requires |vals| > 0
    ensures forall i | 0 <= i < |vals| :: m <= vals[i]
    ensures exists i | 0 <= i < |vals| :: m == vals[i]
    decreases |vals|
  {
    if |vals| == 1 then vals[0]
    else
      var m := SeqMin(vals[..|vals| - 1]);
      assert forall i | 0 <= i < |vals| - 1 :: vals[..|vals| - 1][i] == vals[i];
      Min(m, vals[|vals| - 1])
  }

  function SeqMax(vals: seq<int>): (m: int)
    requires |vals| > 0
    ensures forall i | 0 <= i < |vals| :: vals[i] <= m
    ensures exists i | 0 <= i < |vals| :: m == vals[i]
    decreases |vals|
  {
    if |vals| == 1 then vals[0]
    else
      var m := SeqMax(vals[..|vals| - 1]);
      assert forall i | 0 <= i < |vals| - 1 :: vals[..|vals| - 1][i] == vals[i];
      Max(m, vals[|vals| - 1])
  }

  /** The sum of `n` values lies between `n` times their least and `n` times their greatest. */
  lemma {:induction false} SumBounds(vals: seq<int>)
    requires |vals| > 0
    ensures |vals| * SeqMin(vals) <= Sum(vals) <= |vals| * SeqMax(vals)
    decreases |vals|
  {
    var n := |vals|;
    if n > 1 {
      var init := vals[..n - 1];
      SumBounds(init);
      assert Sum(vals) == Sum(init) + vals[n - 1];
      LowerStep(n, Sum(init), vals[n - 1], SeqMin(init), SeqMin(vals));
      UpperStep(n, Sum(init), vals[n - 1], SeqMax(init), SeqMax(vals));
    }
  }

  /** One step of `SumBounds`: adding a value no smaller than the bound keeps the lower bound. */
  lemma LowerStep(n: int, s: int, x: int, m: int, lo: int)
    requires n >= 1 && (n - 1) * m <= s && lo <= m && lo <= x
    ensures n * lo <= s + x
  {
    MulMonotone(n - 1, lo, m);
  }

  lemma UpperStep(n: int, s: int, x: int, m: int, hi: int)
    requires n >= 1 && s <= (n - 1) * m && m <= hi && x <= hi
    ensures s + x <= n * hi
  {
    MulMonotone(n - 1, m, hi);
  }

  lemma MulMonotone(n: nat, a: int, b: int)
    requires a <= b
    ensures n * a <= n * b
  {
  }

  lemma MulStrict(n: nat, a: int, b: int)
    requires n > 0 && a < b
    ensures n * a < n * b
  {
  }

  /** Integer division truncating toward zero, as `int()` of a float quotient does. */
  function TruncDiv(a: int, b: int): (q: int)
    requires b > 0
    ensures 0 <= a ==> b * q <= a < b * (q + 1)
    ensures a < 0 ==> b * (q - 1) < a <= b * q
  {
    if a >= 0 then a / b else -((-a) / b)
  }

  /**
   * `int(np.average(vals))`: the mean truncated toward zero; an empty
   * selection has no mean (NumPy yields NaN and `int()` raises).
   */
  function TruncMean(vals: seq<int>): (r: Option<int>)
    ensures r.None? <==> |vals| == 0
    ensures r.Some? ==> SeqMin(vals) <= r.value <= SeqMax(vals)
    ensures r.Some? && Sum(vals) >= 0 ==> |vals| * r.value <= Sum(vals) < |vals| * (r.value + 1)
    ensures r.Some? && Sum(vals) < 0 ==> |vals| * (r.value - 1) < Sum(vals) <= |vals| * r.value
  {
    if |vals| == 0 then None
    else
      var q := TruncDiv(Sum(vals), |vals|);
      MeanBetween(vals, q);
      Some(q)
  }

  lemma MeanBetween(vals: seq<int>, q: int)
    requires |vals| > 0 && q == TruncDiv(Sum(vals), |vals|)
    ensures SeqMin(vals) <= q <= SeqMax(vals)
  {
    var n := |vals|;
    var s := Sum(vals);
    var lo := SeqMin(vals);
    var hi := SeqMax(vals);
    SumBounds(vals);
    if s >= 0 {
      // n * q <= s < n * (q + 1)
      if q < lo {
        MulMonotone(n, q + 1, lo);
      }
      if hi < q {
        MulStrict(n, hi, q);
      }
    } else {
      // n * (q - 1) < s <= n * q
      if q < lo {
        MulStrict(n, q, lo);
      }
      if hi < q {
        MulMonotone(n, hi, q - 1);
      }
    }
  }

  /** The `along` coordinate of every pixel of a contour, in contour order. */
  function Along(contour: seq<Point>, along: Point -> int): (r: seq<int>)
    ensures |r| == |contour|
    ensures forall i | 0 <= i < |r| :: r[i] == along(contour[i])
  {
    seq(|contour|, i requires 0 <= i < |contour| => along(contour[i]))
  }

  /**
   * `contour[contour[:, along] == v][:, across]`: the `across` coordinates
   * of the pixels whose `along` coordinate is `v`, in contour order.
   */
  function AcrossAt(contour: seq<Point>, along: Point -> int, across: Point -> int, v: int): (r: seq<int>)
    ensures |r| == 0 <==> forall i | 0 <= i < |contour| :: along(contour[i]) != v
    ensures forall a :: a in r <==> exists i | 0 <= i < |contour| :: along(contour[i]) == v && across(contour[i]) == a
    decreases |contour|
  {
    if |contour| == 0 then []
    else
      var init := contour[..|contour| - 1];
      var p := contour[|contour| - 1];
      assert forall i | 0 <= i < |init| :: init[i] == contour[i];
      AcrossAt(init, along, across, v) + (if along(p) == v then [across(p)] else [])
  }

  /** The two ends found on one contour: positions along the line and across it. */
  datatype Ends = Ends(lo: int, loAcross: int, hi: int, hiAcross: int)

  /**
   * The endpoint rule shared by both canvases: the contour's least `along`
   * coordinate plus 2 and its greatest minus 2, each paired with the
   * truncated mean `across` coordinate of the contour pixels at that
   * position. There are no ends for an empty contour (the minimum of
   * nothing raises) or when a position holds no contour pixel.
   */
  function ContourEnds(contour: seq<Point>, along: Point -> int, across: Point -> int): (r: Option<Ends>)
    ensures r.Some? <==>
      && |contour| > 0
      && (exists i | 0 <= i < |contour| :: along(contour[i]) == SeqMin(Along(contour, along)) + 2)
      && (exists i | 0 <= i < |contour| :: along(contour[i]) == SeqMax(Along(contour, along)) - 2)
    ensures r.Some? ==>
      && r.value.lo == SeqMin(Along(contour, along)) + 2
      && r.value.hi == SeqMax(Along(contour, along)) - 2
      && SeqMin(AcrossAt(contour, along, across, r.value.lo)) <= r.value.loAcross
      && r.value.loAcross <= SeqMax(AcrossAt(contour, along, across, r.value.lo))
      && SeqMin(AcrossAt(contour, along, across, r.value.hi)) <= r.value.hiAcross
      && r.value.hiAcross <= SeqMax(AcrossAt(contour, along, across, r.value.hi))
    ensures r.Some? ==>
      && TruncMean(AcrossAt(contour, along, across, r.value.lo)) == Some(r.value.loAcross)
      && TruncMean(AcrossAt(contour, along, across, r.value.hi)) == Some(r.value.hiAcross)
  {
    if |contour| == 0 then None
    else
      var lo := SeqMin(Along(contour, along)) + 2;
      var hi := SeqMax(Along(contour, along)) - 2;
      match (TruncMean(AcrossAt(contour, along, across, lo)), TruncMean(AcrossAt(contour, along, across, hi)))
      case (Some(a), Some(b)) => Some(Ends(lo, a, hi, b))
      case _ => None
  }

  /** When every pixel at the chosen column shares one row, that row is the endpoint's row. */
  lemma EndsOnFlatColumn(contour: seq<Point>, along: Point -> int, across: Point -> int, e: Ends, row: int)
    requires ContourEnds(contour, along, across) == Some(e)
    requires forall i | 0 <= i < |contour| && along(contour[i]) == e.lo :: across(contour[i]) == row
    ensures e.loAcross == row
  {
    var vals := AcrossAt(contour, along, across, e.lo);
    var k :| 0 <= k < |vals| && SeqMin(vals) == vals[k];
    var m :| 0 <= m < |vals| && SeqMax(vals) == vals[m];
    assert vals[k] in vals && vals[m] in vals;
  }

  /**
   * The two corners a contour contributes: on the horizontal canvas
   * (min_x, left_y) and (max_x, right_y); on the vertical canvas
   * (top_x, min_y) and (bottom_x, max_y).
   */
  function EndPoints(contour: seq<Point>, canvas: Canvas): (r: Option<(Point, Point)>)
    ensures r.Some? <==> (if canvas == Horizontal then ContourEnds(contour, XOf, YOf) else ContourEnds(contour, YOf, XOf)).Some?
    ensures canvas == Horizontal && r.Some? ==> r.value.0.x == SeqMin(Along(contour, XOf)) + 2 && r.value.1.x == SeqMax(Along(contour, XOf)) - 2
    ensures canvas == Vertical && r.Some? ==> r.value.0.y == SeqMin(Along(contour, YOf)) + 2 && r.value.1.y == SeqMax(Along(contour, YOf)) - 2
    ensures canvas == Horizontal && r.Some? ==>
      && TruncMean(AcrossAt(contour, XOf, YOf, r.value.0.x)) == Some(r.value.0.y)
      && TruncMean(AcrossAt(contour, XOf, YOf, r.value.1.x)) == Some(r.value.1.y)
    ensures canvas == Vertical && r.Some? ==>
      && TruncMean(AcrossAt(contour, YOf, XOf, r.value.0.y)) == Some(r.value.0.x)
      && TruncMean(AcrossAt(contour, YOf, XOf, r.value.1.y)) == Some(r.value.1.x)
  {
    match canvas
    case Horizontal =>
      (match ContourEnds(contour, XOf, YOf)
       case None => None
       case Some(e) => Some((Point(e.lo, e.loAcross), Point(e.hi, e.hiAcross))))
    case Vertical =>
      (match ContourEnds(contour, YOf, XOf)
       case None => None
       case Some(e) => Some((Point(e.loAcross, e.lo), Point(e.hiAcross, e.hi))))
  }

  /**
   * The pairs `f` gives for each element, flattened in order; nothing when
   * `f` gives nothing for some element.
   */
  function AllPairs<T, U>(xs: seq<T>, f: T -> Option<(U, U)>): (r: Option<seq<U>>)
    ensures r.Some? <==> forall i | 0 <= i < |xs| :: f(xs[i]).Some?
    ensures r.Some? ==> |r.value| == 2 * |xs|
    ensures r.Some? ==> forall i | 0 <= i < |xs| :: (r.value[2 * i], r.value[2 * i + 1]) == f(xs[i]).value
    decreases |xs|
  {
    if |xs| == 0 then Some([])
    else
      var init := xs[..|xs| - 1];
      assert forall i | 0 <= i < |init| :: init[i] == xs[i];
      var rest := AllPairs(init, f);
      var last := f(xs[|xs| - 1]);
      if rest.None? || last.None? then None
      else
        var r := rest.value + [last.value.0, last.value.1];
        assert forall i | 0 <= i < |init| :: r[2 * i] == rest.value[2 * i] && r[2 * i + 1] == rest.value[2 * i + 1];
        Some(r)
  }

  /**
   * The endpoint corners of a list of contours, two per contour in order;
   * nothing when any contour has no ends, since the source raises there.
   */
  function AllEndPoints(contours: seq<seq<Point>>, canvas: Canvas): (r: Option<seq<Point>>)
    ensures r.Some? <==> forall i | 0 <= i < |contours| :: EndPoints(contours[i], canvas).Some?
    ensures r.Some? ==> |r.value| == 2 * |contours|
    ensures r.Some? ==> forall i | 0 <= i < |contours| ::
      (r.value[2 * i], r.value[2 * i + 1]) == EndPoints(contours[i], canvas).value
  {
    AllPairs(contours, c => EndPoints(c, canvas))
  }

  /** The contours the source keeps: the first two of a list already ordered by decreasing perimeter. */
  function Longest(contours: seq<seq<Point>>): (r: seq<seq<Point>>)
    ensures |r| == Min(2, |contours|)
    ensures r <= contours
  {
    contours[..Min(2, |contours|)]
  }

  // ---------------------------------------------------------------------
  // Intersections of the redrawn canvases
  // ---------------------------------------------------------------------

  /** A `uint8` image of the given shape: `height` rows of `width` cells. */
  ghost predicate IsCanvas(g: seq<seq<int>>, width: nat, height: nat) {
    && |g| == height
    && forall r | 0 <= r < height :: |g[r]| == width && forall c | 0 <= c < width :: 0 <= g[r][c] < 256
  }

  /**
   * The cell at `p` counts when the `uint8` sum of the two canvases there
   * is 2; NumPy's `uint8` addition wraps around at 256.
   */
  predicate Hit(h: seq<seq<int>>, v: seq<seq<int>>, p: Point) {
    && 0 <= p.y < |h| && 0 <= p.y < |v|
    && 0 <= p.x < |h[p.y]| && 0 <= p.x < |v[p.y]|
    && (h[p.y][p.x] + v[p.y][p.x]) % 256 == 2
  }

  /** `p` comes before `q` in row-major order. */
  predicate RowMajorBefore(p: Point, q: Point) {
    p.y < q.y || (p.y == q.y && p.x < q.x)
  }

  /** The hits at or after row `y`, column `x`, in row-major order. */
  function ScanFrom(h: seq<seq<int>>, v: seq<seq<int>>, width: nat, height: nat, y: nat, x: nat): (r: seq<Point>)
    requires IsCanvas(h, width, height) && IsCanvas(v, width, height)
    requires x <= width
    ensures forall p :: p in r <==>
      Hit(h, v, p) && (y < p.y || (y == p.y && x <= p.x))
    ensures forall i, j | 0 <= i < j < |r| :: RowMajorBefore(r[i], r[j])
    ensures forall i | 0 <= i < |r| :: y < r[i].y || (y == r[i].y && x <= r[i].x)
    decreases height - y, width - x
  {
    if y >= height then []
    else if x == width then ScanFrom(h, v, width, height, y + 1, 0)
    else
      var rest := ScanFrom(h, v, width, height, y, x + 1);
      var p := Point(x, y);
      if Hit(h, v, p) then [p] + rest else rest
  }

  /**
   * `np.where(h + v == 2)` zipped back into points: every cell where the
   * two canvases sum to 2, in row-major order.
   */
  function Intersections(h: seq<seq<int>>, v: seq<seq<int>>, width: nat, height: nat): (r: seq<Point>)
    requires IsCanvas(h, width, height) && IsCanvas(v, width, height)
    ensures forall p :: p in r <==> Hit(h, v, p)
    ensures forall i, j | 0 <= i < j < |r| :: RowMajorBefore(r[i], r[j])
  {
    ScanFrom(h, v, width, height, 0, 0)
  }

  /** On canvases holding only 0 and 1 a cell is a hit exactly when both canvases hold 1 there. */
  lemma HitOnBinaryCanvases(h: seq<seq<int>>, v: seq<seq<int>>, width: nat, height: nat, p: Point)
    requires IsCanvas(h, width, height) && IsCanvas(v, width, height)
    requires forall r, c | 0 <= r < height && 0 <= c < width :: h[r][c] in {0, 1} && v[r][c] in {0, 1}
    requires 0 <= p.x < width && 0 <= p.y < height
    ensures Hit(h, v, p) <==> h[p.y][p.x] == 1 && v[p.y][p.x] == 1
  {
  }

  /** With `uint8` wrap-around a cell holding 255 on one canvas and 3 on the other is also a hit. */
  lemma HitWrapsAround(h: seq<seq<int>>, v: seq<seq<int>>, p: Point)
    requires 0 <= p.y < |h| && 0 <= p.y < |v| && 0 <= p.x < |h[p.y]| && 0 <= p.x < |v[p.y]|
    requires h[p.y][p.x] == 255 && v[p.y][p.x] == 3
    ensures Hit(h, v, p)
  {
  }

  // ---------------------------------------------------------------------
  // The candidate list
  // ---------------------------------------------------------------------

  /**
   * Candidate corners: the endpoints of the two longest horizontal
   * contours, then of the two longest vertical ones, then the
   * intersections, filtered with the default minimum distance. Nothing
   * when an endpoint cannot be computed.
   */
  function CandidateCorners(hContours: seq<seq<Point>>, vContours: seq<seq<Point>>,
                            hLines: seq<seq<int>>, vLines: seq<seq<int>>,
                            width: nat, height: nat): (r: Option<seq<Point>>)
    requires IsCanvas(hLines, width, height) && IsCanvas(vLines, width, height)
    ensures r.Some? <==>
      AllEndPoints(Longest(hContours), Horizontal).Some? && AllEndPoints(Longest(vContours), Vertical).Some?
    ensures r.Some? ==>
      var raw := AllEndPoints(Longest(hContours), Horizontal).value
               + AllEndPoints(Longest(vContours), Vertical).value
               + Intersections(hLines, vLines, width, height);
      && IsSubseq(r.value, raw)
      && Separated(r.value, DefaultMinDist)
      && (|raw| > 0 ==> |r.value| > 0 && r.value[0] == raw[0])
      && r.value == FilterCorners(raw, DefaultMinDist)
  {
    match (AllEndPoints(Longest(hContours), Horizontal), AllEndPoints(Longest(vContours), Vertical))
    case (Some(hs), Some(vs)) =>
      Some(FilterCorners(hs + vs + Intersections(hLines, vLines, width, height), DefaultMinDist))
    case _ => None
  }
}
