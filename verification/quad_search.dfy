/**
 * The quadrilateral search at the end of `get_corners`: every 4-subset of
 * the candidate corners is put in canonical order, the five largest are
 * kept, the most rectangular of those is checked for validity, a
 * contour-based polygon is checked too, and the larger valid one wins over
 * a whole-frame fallback.
 *
 * The interior-angle range (`angle_range`, arccos in floating point) is a
 * parameter `angleRange`: only its comparisons are modelled.
 */
module QuadSearch {
  import opened Wrappers
  import opened Geometry
  import opened Seqs
  import opened PointOrder
  import opened LineCanvas

  /** `MIN_QUAD_AREA_RATIO`'s default. */
  const DefaultMinAreaRatio: real := 0.25

  /** `MAX_QUAD_ANGLE_RANGE`'s default. */
  const DefaultMaxAngleRange: real := 40.0

  /** How many of the largest quads compete on angle range, and how many contours are tried. */
  const TopCount: nat := 5

  // ---------------------------------------------------------------------
  // Combinations
  // ---------------------------------------------------------------------

  ghost predicate Increasing(c: seq<nat>) {
    forall i, j | 0 <= i < j < |c| :: c[i] < c[j]
  }

  /** Strict lexicographic order on index tuples. */
  predicate LexLess(a: seq<nat>, b: seq<nat>)
    decreases |a|
  {
    && |a| > 0 && |b| > 0
    && (a[0] < b[0] || (a[0] == b[0] && LexLess(a[1..], b[1..])))
  }

  /** The binomial coefficient by Pascal's rule. */
  function Choose(n: nat, k: nat): nat {
    if k == 0 then 1 else if n == 0 then 0 else Choose(n - 1, k - 1) + Choose(n - 1, k)
  }

  /** `[lo] + c` for every `c` of `cs`. */
  function Prepend(lo: nat, cs: seq<seq<nat>>): (r: seq<seq<nat>>)
    ensures |r| == |cs|
    ensures forall i | 0 <= i < |r| :: r[i] == [lo] + cs[i]
  {
    seq(|cs|, i requires 0 <= i < |cs| => [lo] + cs[i])
  }

  /**
   * `itertools.combinations(range(lo, n), k)` as index tuples: those that
   * start with `lo` come first, then those that do not.
   */
  function Combos(lo: nat, n: nat, k: nat): (r: seq<seq<nat>>)
    requires lo <= n
    ensures |r| == Choose(n - lo, k)
    ensures forall i | 0 <= i < |r| :: |r[i]| == k && Increasing(r[i])
    ensures forall i, j | 0 <= i < |r| && 0 <= j < |r[i]| :: lo <= r[i][j] < n
    decreases n - lo
  {
    if k == 0 then [[]]
    else if n <= lo then []
    else
      var with := Combos(lo + 1, n, k - 1);
      var without := Combos(lo + 1, n, k);
      CombosCons(lo, n, k, with, without);
      Prepend(lo, with) + without
  }

  /** The tuples led by `lo` followed by those in `[lo + 1, n)` are increasing `k`-tuples in `[lo, n)`. */
  lemma CombosCons(lo: nat, n: nat, k: nat, with: seq<seq<nat>>, without: seq<seq<nat>>)
    requires 0 < k && lo < n
    requires forall i | 0 <= i < |with| :: |with[i]| == k - 1 && Increasing(with[i])
    requires forall i, j | 0 <= i < |with| && 0 <= j < |with[i]| :: lo + 1 <= with[i][j] < n
    requires forall i | 0 <= i < |without| :: |without[i]| == k && Increasing(without[i])
    requires forall i, j | 0 <= i < |without| && 0 <= j < |without[i]| :: lo + 1 <= without[i][j] < n
    ensures var r := Prepend(lo, with) + without;
      && (forall i | 0 <= i < |r| :: |r[i]| == k && Increasing(r[i]))
      && (forall i, j | 0 <= i < |r| && 0 <= j < |r[i]| :: lo <= r[i][j] < n)
  {
    var r := Prepend(lo, with) + without;
    forall i | 0 <= i < |r|
      ensures |r[i]| == k && Increasing(r[i])
      ensures forall j | 0 <= j < |r[i]| :: lo <= r[i][j] < n
    {
      if i < |with| {
        var c := [lo] + with[i];
        assert r[i] == c;
        assert forall j | 0 < j < |c| :: c[j] == with[i][j - 1];
      } else {
        assert r[i] == without[i - |with|];
      }
    }
  }

  /** Every increasing `k`-tuple of indices in `[lo, n)` is produced. */
  lemma {:induction false} CombosComplete(lo: nat, n: nat, k: nat, c: seq<nat>)
    requires lo <= n
    requires |c| == k && Increasing(c)
    requires forall j | 0 <= j < |c| :: lo <= c[j] < n
    ensures c in Combos(lo, n, k)
    decreases n - lo
  {
    if k > 0 {
      assert lo <= c[0] < n;
      if c[0] == lo {
        var tail := c[1..];
        assert forall j | 0 <= j < |tail| :: tail[j] == c[j + 1];
        CombosComplete(lo + 1, n, k - 1, tail);
        CombosWith(lo, n, k, tail);
        assert c == [lo] + tail;
      } else {
        CombosComplete(lo + 1, n, k, c);
        CombosWithout(lo, n, k, c);
      }
    }
  }

  lemma CombosWith(lo: nat, n: nat, k: nat, tail: seq<nat>)
    requires lo < n && k > 0
    requires tail in Combos(lo + 1, n, k - 1)
    ensures [lo] + tail in Combos(lo, n, k)
  {
    var with := Combos(lo + 1, n, k - 1);
    var t :| 0 <= t < |with| && with[t] == tail;
    assert Combos(lo, n, k)[t] == Prepend(lo, with)[t];
  }

  lemma CombosWithout(lo: nat, n: nat, k: nat, c: seq<nat>)
    requires lo < n && k > 0
    requires c in Combos(lo + 1, n, k)
    ensures c in Combos(lo, n, k)
  {
    var with := Combos(lo + 1, n, k - 1);
    var without := Combos(lo + 1, n, k);
    var t :| 0 <= t < |without| && without[t] == c;
    assert Combos(lo, n, k)[|with| + t] == c;
  }

  lemma {:induction false} LexPrepend(lo: nat, a: seq<nat>, b: seq<nat>)
    requires LexLess(a, b)
    ensures LexLess([lo] + a, [lo] + b)
  {
    assert ([lo] + a)[1..] == a;
    assert ([lo] + b)[1..] == b;
  }

  /** The tuples come in strictly increasing lexicographic order. */
  lemma {:induction false} CombosLexOrdered(lo: nat, n: nat, k: nat)
    requires lo <= n
    ensures forall i, j | 0 <= i < j < |Combos(lo, n, k)| :: LexLess(Combos(lo, n, k)[i], Combos(lo, n, k)[j])
    decreases n - lo
  {
    if k > 0 && lo < n {
      var with := Combos(lo + 1, n, k - 1);
      var without := Combos(lo + 1, n, k);
      var p := Prepend(lo, with);
      var r := p + without;
      assert Combos(lo, n, k) == r;
      CombosLexOrdered(lo + 1, n, k - 1);
      CombosLexOrdered(lo + 1, n, k);
      forall i, j | 0 <= i < j < |r| ensures LexLess(r[i], r[j]) {
        if j < |p| {
          LexPrepend(lo, with[i], with[j]);
        } else if i >= |p| {
          assert r[i] == without[i - |p|] && r[j] == without[j - |p|];
        } else {
          assert r[i][0] == lo;
          assert r[j] == without[j - |p|];
          assert lo < r[j][0];
        }
      }
    }
  }

  lemma {:induction false} LexIrreflexive(a: seq<nat>)
    ensures !LexLess(a, a)
    decreases |a|
  {
    if |a| > 0 {
      LexIrreflexive(a[1..]);
    }
  }

  /** Hence no tuple is produced twice. */
  lemma CombosDistinct(lo: nat, n: nat, k: nat)
    requires lo <= n
    ensures forall i, j | 0 <= i < j < |Combos(lo, n, k)| :: Combos(lo, n, k)[i] != Combos(lo, n, k)[j]
  {
    CombosLexOrdered(lo, n, k);
    forall i, j | 0 <= i < j < |Combos(lo, n, k)| ensures Combos(lo, n, k)[i] != Combos(lo, n, k)[j] {
      LexIrreflexive(Combos(lo, n, k)[i]);
    }
  }

  /** The elements of `s` at the given indices. */
  function Pick<T>(s: seq<T>, idx: seq<nat>): (r: seq<T>)
    requires forall j | 0 <= j < |idx| :: idx[j] < |s|
    ensures |r| == |idx|
    ensures forall j | 0 <= j < |r| :: r[j] == s[idx[j]]
  {
    seq(|idx|, j requires 0 <= j < |idx| => s[idx[j]])
  }

  // ---------------------------------------------------------------------
  // Subset search
  // ---------------------------------------------------------------------

  /**
   * One quad per 4-subset of the corners, in `itertools.combinations`
   * order, each put in canonical corner order.
   */
  function SubsetQuads(corners: seq<Point>): (r: seq<seq<Point>>)
    ensures |r| == Choose(|corners|, 4)
    ensures forall i | 0 <= i < |r| :: |r[i]| == 4
  {
    var combos := Combos(0, |corners|, 4);
    seq(|combos|, i requires 0 <= i < |combos| => QuadOf(corners, combos[i]))
  }

  /** The canonical quad of the corners at four indices. */
  function QuadOf(corners: seq<Point>, c: seq<nat>): (q: seq<Point>)
    requires |c| == 4 && forall j | 0 <= j < 4 :: c[j] < |corners|
    ensures |q| == 4
    ensures multiset(q) == multiset(Pick(corners, c))
  {
    Vertices(SortPoints(Pick(corners, c)))
  }

  /** Every 4-subset of the corners, taken in index order, contributes its canonical quad. */
  lemma SubsetQuadsComplete(corners: seq<Point>, c: seq<nat>)
    requires |c| == 4 && Increasing(c)
    requires forall j | 0 <= j < 4 :: c[j] < |corners|
    ensures QuadOf(corners, c) in SubsetQuads(corners)
  {
    var combos := Combos(0, |corners|, 4);
    CombosComplete(0, |corners|, 4, c);
    var t :| 0 <= t < |combos| && combos[t] == c;
    SubsetQuadAt(corners, t);
  }

  /** The quad at position `t` is that of the `t`-th combination. */
  lemma SubsetQuadAt(corners: seq<Point>, t: nat)
    requires t < Choose(|corners|, 4)
    ensures SubsetQuads(corners)[t] == QuadOf(corners, Combos(0, |corners|, 4)[t])
  {
  }

  /** The key of `max(approx_contours, key=cv2.contourArea)`. */
  function AreaKey(q: seq<Point>): int { TwiceArea(q) }

  /** The sort key for `sorted(quads, key=cv2.contourArea, reverse=True)`. */
  function NegArea(q: seq<Point>): int { -(TwiceArea(q) as int) }

  /**
   * The five largest quads by area, ties kept in enumeration order (a
   * reversed Python sort is stable).
   */
  function TopByArea(quads: seq<seq<Point>>): (r: seq<seq<Point>>)
    ensures |r| == Min(TopCount, |quads|)
    ensures multiset(r) <= multiset(quads)
    ensures forall i, j | 0 <= i < j < |r| :: TwiceArea(r[j]) <= TwiceArea(r[i])
  {
    var sorted := SortBy(quads, NegArea);
    var top := sorted[..Min(TopCount, |quads|)];
    PrefixMultiset(sorted, Min(TopCount, |quads|));
    top
  }

  lemma PrefixMultiset<T>(s: seq<T>, n: nat)
    requires n <= |s|
    ensures multiset(s) == multiset(s[..n]) + multiset(s[n..])
  {
    assert s == s[..n] + s[n..];
  }

  /** No quad left out of the top five is larger than any quad kept. */
  lemma TopByAreaLargest(quads: seq<seq<Point>>, x: seq<Point>, t: seq<Point>)
    requires x in multiset(quads) - multiset(TopByArea(quads))
    requires t in TopByArea(quads)
    ensures TwiceArea(x) <= TwiceArea(t)
  {
    var sorted := SortBy(quads, NegArea);
    var n := Min(TopCount, |quads|);
    PrefixMultiset(sorted, n);
    assert x in multiset(sorted[n..]);
    var j :| n <= j < |sorted| && sorted[j] == x by {
      assert x in sorted[n..];
    }
    var i :| 0 <= i < n && sorted[i] == t;
    assert NegArea(sorted[i]) <= NegArea(sorted[j]);
  }

  /**
   * Ties keep enumeration order: for every area, the kept quads of that area
   * are the first ones of that area in `quads`, in the same order.
   */
  lemma TopByAreaStable(quads: seq<seq<Point>>, k: int)
    ensures WithKey(TopByArea(quads), NegArea, k) <= WithKey(quads, NegArea, k)
  {
    var sorted := SortBy(quads, NegArea);
    WithKeyPrefix(sorted, Min(TopCount, |quads|), NegArea, k);
    SortByStable(quads, NegArea, k);
  }

  /** `valid_contour`: four vertices, area above the given share of the frame, angle range below the bound. */
  predicate Valid(poly: seq<Point>, width: nat, height: nat, minAreaRatio: real,
                  maxAngleRange: real, angleRange: seq<Point> -> real) {
    && |poly| == 4
    && TwiceArea(poly) as real / 2.0 > (width * height) as real * minAreaRatio
    && angleRange(poly) < maxAngleRange
  }

  /** With the default ratio the area test is the integer comparison `2 * twice-area > W * H`. */
  lemma DefaultAreaTest(poly: seq<Point>, width: nat, height: nat, angleRange: seq<Point> -> real)
    ensures Valid(poly, width, height, DefaultMinAreaRatio, DefaultMaxAngleRange, angleRange)
        <==> |poly| == 4 && 2 * TwiceArea(poly) > width * height && angleRange(poly) < DefaultMaxAngleRange
  {
  }

  /**
   * Position `i` holds the first quad of least angle range in `quads`: the
   * head of the stable `sorted(quads, key=angle_range)`.
   */
  predicate FirstLeastAngle(quads: seq<seq<Point>>, i: nat, angleRange: seq<Point> -> real) {
    && i < |quads|
    && (forall j | 0 <= j < i :: angleRange(quads[i]) < angleRange(quads[j]))
    && (forall j | i <= j < |quads| :: angleRange(quads[i]) <= angleRange(quads[j]))
  }

  /** At most one position is the first of least angle range. */
  lemma FirstLeastAngleUnique(quads: seq<seq<Point>>, i: nat, k: nat, angleRange: seq<Point> -> real)
    requires FirstLeastAngle(quads, i, angleRange) && FirstLeastAngle(quads, k, angleRange)
    ensures i == k
  {
    var qi, qk := quads[i], quads[k];
    assert i < k ==> angleRange(qk) < angleRange(qi);
    assert k < i ==> angleRange(qi) < angleRange(qk);
  }

  /** `ArgMinFirst` picks exactly the first position of least angle range. */
  lemma ArgMinFirstLeast(quads: seq<seq<Point>>, angleRange: seq<Point> -> real)
    requires |quads| > 0
    ensures FirstLeastAngle(quads, ArgMinFirst(quads, angleRange), angleRange)
    ensures forall i: nat | FirstLeastAngle(quads, i, angleRange) :: i == ArgMinFirst(quads, angleRange)
  {
    var m := ArgMinFirst(quads, angleRange);
    forall i: nat | FirstLeastAngle(quads, i, angleRange) ensures i == m {
      FirstLeastAngleUnique(quads, i, m, angleRange);
    }
  }

  /**
   * `sorted(quads, key=angle_range)[0]`, kept when `valid`: the first quad
   * of least angle range, or nothing when that quad is not valid.
   */
  function LeastAngleValid(top: seq<seq<Point>>, angleRange: seq<Point> -> real,
                           valid: seq<Point> -> bool): (r: Option<seq<Point>>)
    requires |top| > 0
    ensures exists i: nat :: FirstLeastAngle(top, i, angleRange)
    ensures forall i: nat | FirstLeastAngle(top, i, angleRange) ::
      r == if valid(top[i]) then Some(top[i]) else None
    ensures r.Some? ==> valid(r.value) && r.value in top
    ensures r.Some? ==> forall q | q in top :: angleRange(r.value) <= angleRange(q)
  {
    ArgMinFirstLeast(top, angleRange);
    var best := top[ArgMinFirst(top, angleRange)];
    if valid(best) then Some(best) else None
  }

  /**
   * The subset path: with at least four corners, the quad of least angle
   * range among the five largest (the first one on ties), kept only when
   * it is valid.
   */
  function SubsetSearch(corners: seq<Point>, width: nat, height: nat, minAreaRatio: real,
                        maxAngleRange: real, angleRange: seq<Point> -> real): (r: Option<seq<Point>>)
    ensures |corners| < 4 ==> r.None?
    ensures |corners| >= 4 ==> exists i: nat :: FirstLeastAngle(TopByArea(SubsetQuads(corners)), i, angleRange)
    ensures |corners| >= 4 ==> forall i: nat | FirstLeastAngle(TopByArea(SubsetQuads(corners)), i, angleRange) ::
      var best := TopByArea(SubsetQuads(corners))[i];
      r == if Valid(best, width, height, minAreaRatio, maxAngleRange, angleRange) then Some(best) else None
    ensures r.Some? ==> Valid(r.value, width, height, minAreaRatio, maxAngleRange, angleRange)
    ensures r.Some? ==> r.value in TopByArea(SubsetQuads(corners))
    ensures r.Some? ==> forall q | q in TopByArea(SubsetQuads(corners)) :: angleRange(r.value) <= angleRange(q)
  {
    if |corners| < 4 then None
    else
      ChooseFourPositive(|corners|);
      var valid := q => Valid(q, width, height, minAreaRatio, maxAngleRange, angleRange);
      LeastAngleValid(TopByArea(SubsetQuads(corners)), angleRange, valid)
  }

  lemma {:induction false} ChooseFourPositive(n: nat)
    requires n >= 4
    ensures Choose(n, 4) > 0
  {
    ChoosePositive(n, 4);
  }

  lemma {:induction false} ChoosePositive(n: nat, k: nat)
    requires k <= n
    ensures Choose(n, k) > 0
  {
    if k > 0 {
      ChoosePositive(n - 1, k - 1);
    }
  }

  // ---------------------------------------------------------------------
  // Contour path and final choice
  // ---------------------------------------------------------------------

  /**
   * The contour path: the five largest contours by area, ties in the order
   * they are listed, each simplified by `approx` (`cv2.approxPolyDP` with
   * epsilon 80, closed); the first valid polygon among them, if any.
   */
  function ContourSearch(cnts: seq<seq<Point>>, approx: seq<Point> -> seq<Point>, width: nat, height: nat,
                         minAreaRatio: real, maxAngleRange: real, angleRange: seq<Point> -> real): (r: Option<seq<Point>>)
    ensures var top := TopByArea(cnts);
      r.Some? <==> exists i | 0 <= i < |top| :: Valid(approx(top[i]), width, height, minAreaRatio, maxAngleRange, angleRange)
    ensures var top := TopByArea(cnts);
      r.Some? ==> exists i | 0 <= i < |top| ::
        && r.value == approx(top[i])
        && Valid(approx(top[i]), width, height, minAreaRatio, maxAngleRange, angleRange)
        && forall j | 0 <= j < i :: !Valid(approx(top[j]), width, height, minAreaRatio, maxAngleRange, angleRange)
    ensures r.Some? ==> exists c | c in cnts :: r.value == approx(c)
  {
    var top := TopByArea(cnts);
    var r := FirstValid(top, approx, width, height, minAreaRatio, maxAngleRange, angleRange);
    assert r.Some? ==> exists i | 0 <= i < |top| :: r.value == approx(top[i]) && top[i] in multiset(cnts);
    r
  }

  /** The `for c in cnts` loop: the first contour whose simplified polygon is valid, simplified. */
  function FirstValid(cnts: seq<seq<Point>>, approx: seq<Point> -> seq<Point>, width: nat, height: nat,
                      minAreaRatio: real, maxAngleRange: real, angleRange: seq<Point> -> real): (r: Option<seq<Point>>)
    ensures r.Some? <==> exists i | 0 <= i < |cnts| :: Valid(approx(cnts[i]), width, height, minAreaRatio, maxAngleRange, angleRange)
    ensures r.Some? ==> exists i | 0 <= i < |cnts| ::
      && r.value == approx(cnts[i])
      && Valid(approx(cnts[i]), width, height, minAreaRatio, maxAngleRange, angleRange)
      && forall j | 0 <= j < i :: !Valid(approx(cnts[j]), width, height, minAreaRatio, maxAngleRange, angleRange)
    decreases |cnts|
  {
    if |cnts| == 0 then None
    else if Valid(approx(cnts[0]), width, height, minAreaRatio, maxAngleRange, angleRange) then Some(approx(cnts[0]))
    else
      var r := FirstValid(cnts[1..], approx, width, height, minAreaRatio, maxAngleRange, angleRange);
      assert forall i | 0 <= i < |cnts| - 1 :: cnts[1..][i] == cnts[i + 1];
      r
  }

  /** The whole frame, as top-right, bottom-right, bottom-left, top-left. */
  function Fallback(width: nat, height: nat): seq<Point> {
    [Point(width, 0), Point(width, height), Point(0, height), Point(0, 0)]
  }

  /** The outcome of the search: four corners and whether a quad was found. */
  datatype Found = Found(corners: seq<Point>, found: bool)

  /**
   * The final choice: the whole-frame fallback when neither path found a
   * quad, otherwise the found quad of largest area, the subset quad
   * winning a tie.
   */
  function SelectQuad(fromSubset: Option<seq<Point>>, fromContour: Option<seq<Point>>,
                      width: nat, height: nat): (r: Found)
    ensures r.found <==> fromSubset.Some? || fromContour.Some?
    ensures !r.found ==> r.corners == Fallback(width, height)
    ensures r.found ==>
      || (fromSubset.Some? && r.corners == fromSubset.value)
      || (fromContour.Some? && r.corners == fromContour.value)
    ensures r.found && fromSubset.Some? ==> TwiceArea(fromSubset.value) <= TwiceArea(r.corners)
    ensures r.found && fromContour.Some? ==> TwiceArea(fromContour.value) <= TwiceArea(r.corners)
    ensures fromSubset.Some? && fromContour.Some? && TwiceArea(fromContour.value) <= TwiceArea(fromSubset.value) ==>
              r.corners == fromSubset.value
  {
    var pool := (if fromSubset.Some? then [fromSubset.value] else [])
              + (if fromContour.Some? then [fromContour.value] else []);
    if |pool| == 0 then Found(Fallback(width, height), false)
    else
      var i := ArgMaxFirst(pool, AreaKey);
      assert fromSubset.Some? ==> pool[0] == fromSubset.value;
      assert fromContour.Some? ==> pool[|pool| - 1] == fromContour.value;
      assert TwiceArea(pool[0]) <= TwiceArea(pool[i]);
      assert TwiceArea(pool[|pool| - 1]) <= TwiceArea(pool[i]);
      Found(pool[i], true)
  }

  /**
   * `get_corners` from the intermediate results OpenCV would produce:
   * nothing when an endpoint cannot be computed (the source raises),
   * otherwise the selected quad.
   */
  function GetCorners(width: nat, height: nat,
                      hContours: seq<seq<Point>>, vContours: seq<seq<Point>>,
                      hLines: seq<seq<int>>, vLines: seq<seq<int>>,
                      cnts: seq<seq<Point>>, approx: seq<Point> -> seq<Point>, angleRange: seq<Point> -> real,
                      minAreaRatio: real := DefaultMinAreaRatio,
                      maxAngleRange: real := DefaultMaxAngleRange): (r: Option<Found>)
    requires IsCanvas(hLines, width, height) && IsCanvas(vLines, width, height)
    ensures r.Some? <==> CandidateCorners(hContours, vContours, hLines, vLines, width, height).Some?
    ensures r.Some? && r.value.found ==> Valid(r.value.corners, width, height, minAreaRatio, maxAngleRange, angleRange)
    ensures r.Some? && !r.value.found ==> r.value.corners == Fallback(width, height)
    ensures r.Some? ==>
      var corners := CandidateCorners(hContours, vContours, hLines, vLines, width, height).value;
      r.value == SelectQuad(SubsetSearch(corners, width, height, minAreaRatio, maxAngleRange, angleRange),
                            ContourSearch(cnts, approx, width, height, minAreaRatio, maxAngleRange, angleRange),
                            width, height)
  {
    match CandidateCorners(hContours, vContours, hLines, vLines, width, height)
    case None => None
    case Some(corners) =>
      Some(SelectQuad(SubsetSearch(corners, width, height, minAreaRatio, maxAngleRange, angleRange),
                      ContourSearch(cnts, approx, width, height, minAreaRatio, maxAngleRange, angleRange),
                      width, height))
  }
}
