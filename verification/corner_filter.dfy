/**
 * `filter_corners`: greedy removal of candidate corners that lie too close
 * to a corner kept before them.
 */
module CornerFilter {
  import opened Geometry
  import opened Seqs

  /** The default minimum distance between two kept corners. */
  const DefaultMinDist: int := 20

  /**
   * `dist.euclidean(p, q) > minDist` on integer points: compared through the
   * squared distance; every distance exceeds a negative bound.
   */
  predicate Far(p: Point, q: Point, minDist: int) {
    minDist < 0 || SqDist(p, q) > minDist * minDist
  }

  /** `c` is far from every corner already kept. */
  predicate FarFromAll(c: Point, kept: seq<Point>, minDist: int) {
    forall k | 0 <= k < |kept| :: Far(kept[k], c, minDist)
  }

  /** Every corner of `s` is far from each corner after it. */
  ghost predicate Separated(s: seq<Point>, minDist: int) {
    forall i, j | 0 <= i < j < |s| :: Far(s[i], s[j], minDist)
  }

  /**
   * filter_corners: walk the corners in order, keeping a corner when it is
   * farther than `minDist` from every corner kept so far.
   */
  function FilterCorners(corners: seq<Point>, minDist: int): (r: seq<Point>)
    ensures IsSubseq(r, corners)
    ensures |corners| > 0 ==> |r| > 0 && r[0] == corners[0]
    ensures Separated(r, minDist)
    decreases |corners|
  {
    if |corners| == 0 then []
    else
      var init := corners[..|corners| - 1];
      var kept := FilterCorners(init, minDist);
      var c := corners[|corners| - 1];
      assert IsSubseq(kept, corners) by {
        assert corners[..|corners| - 1] == init;
      }
      if FarFromAll(c, kept, minDist) then kept + [c] else kept
  }

  /** The Python loop itself: `filtered_corners` grows by one corner whenever the `all(...)` test passes. */
  method FilterCornersLoop(corners: seq<Point>, minDist: int) returns (filtered: seq<Point>)
    ensures filtered == FilterCorners(corners, minDist)
  {
    filtered := [];
    for i := 0 to |corners|
      invariant filtered == FilterCorners(corners[..i], minDist)
    {
      var c := corners[i];
      var allFar := true;
      for k := 0 to |filtered|
        invariant allFar <==> forall k' | 0 <= k' < k :: Far(filtered[k'], c, minDist)
      {
        if !Far(filtered[k], c, minDist) {
          allFar := false;
        }
      }
      FilterStep(corners, i, minDist);
      if allFar {
        filtered := filtered + [c];
      }
    }
    assert corners[..|corners|] == corners;
  }

  /** One more corner of the list: appended when it is far from every corner kept before it. */
  lemma FilterStep(corners: seq<Point>, i: nat, minDist: int)
    requires i < |corners|
    ensures var kept := FilterCorners(corners[..i], minDist);
      FilterCorners(corners[..i + 1], minDist)
        == if FarFromAll(corners[i], kept, minDist) then kept + [corners[i]] else kept
  {
    assert corners[..i + 1][..i] == corners[..i];
  }

  lemma FarDistinct(p: Point, q: Point, minDist: int)
    requires minDist >= 0 && Far(p, q, minDist)
    ensures p != q
  {
    assert minDist * minDist >= 0;
  }

  /** With a non-negative bound, kept corners are pairwise distinct. */
  lemma KeptDistinct(corners: seq<Point>, minDist: int)
    requires minDist >= 0
    ensures var r := FilterCorners(corners, minDist);
            forall i, j | 0 <= i < j < |r| :: r[i] != r[j]
  {
    var r := FilterCorners(corners, minDist);
    forall i, j | 0 <= i < j < |r| ensures r[i] != r[j] {
      FarDistinct(r[i], r[j], minDist);
    }
  }

  /** The kept corners of a prefix are a prefix of the kept corners of the whole list. */
  lemma {:induction false} FilterPrefix(corners: seq<Point>, minDist: int, i: nat)
    requires i <= |corners|
    ensures FilterCorners(corners[..i], minDist) <= FilterCorners(corners, minDist)
    decreases |corners| - i
  {
    if i < |corners| {
      FilterPrefix(corners, minDist, i + 1);
      var pre := corners[..i + 1];
      assert pre[..|pre| - 1] == corners[..i];
      FilterGrows(pre, minDist);
    } else {
      assert corners[..i] == corners;
    }
  }

  /** Adding a corner at the end only ever appends to the kept corners. */
  lemma FilterGrows(s: seq<Point>, minDist: int)
    requires |s| > 0
    ensures FilterCorners(s[..|s| - 1], minDist) <= FilterCorners(s, minDist)
  {
  }

  /**
   * The corner at position `i` is dropped (the kept list does not grow)
   * exactly when it lies within `minDist` of some corner kept before it.
   */
  lemma DroppedNearKept(corners: seq<Point>, minDist: int, i: nat)
    requires i < |corners|
    ensures FilterCorners(corners[..i + 1], minDist) == FilterCorners(corners[..i], minDist)
      <==> exists k | 0 <= k < |FilterCorners(corners[..i], minDist)| ::
             !Far(FilterCorners(corners[..i], minDist)[k], corners[i], minDist)
  {
    FilterStep(corners, i, minDist);
    var kept := FilterCorners(corners[..i], minDist);
    assert |kept + [corners[i]]| != |kept|;
  }

  /** A list that is already separated passes the filter unchanged. */
  lemma {:induction false} FilterSeparated(corners: seq<Point>, minDist: int)
    requires Separated(corners, minDist)
    ensures FilterCorners(corners, minDist) == corners
    decreases |corners|
  {
    if |corners| > 0 {
      var init := corners[..|corners| - 1];
      FilterSeparated(init, minDist);
      assert corners == init + [corners[|corners| - 1]];
    }
  }

  /** Filtering twice is filtering once. */
  lemma FilterIdempotent(corners: seq<Point>, minDist: int)
    ensures FilterCorners(FilterCorners(corners, minDist), minDist) == FilterCorners(corners, minDist)
  {
    FilterSeparated(FilterCorners(corners, minDist), minDist);
  }

  /** Two candidates 5 apart collapse to the first; two candidates 25 apart both survive. */
  lemma FilterExamples()
    ensures FilterCorners([Point(0, 0), Point(3, 4)], DefaultMinDist) == [Point(0, 0)]
    ensures FilterCorners([Point(0, 0), Point(15, 20)], DefaultMinDist) == [Point(0, 0), Point(15, 20)]
  {
    var o, near, far := Point(0, 0), Point(3, 4), Point(15, 20);
    assert DefaultMinDist * DefaultMinDist == 400;
    assert SqDist(o, near) == 3 * 3 + 4 * 4 == 25;
    assert SqDist(o, far) == 15 * 15 + 20 * 20 == 625;
    FilterPair(o, near, DefaultMinDist);
    FilterPair(o, far, DefaultMinDist);
  }

  /** Of two corners the second is kept exactly when it is far from the first. */
  lemma FilterPair(p: Point, q: Point, minDist: int)
    ensures FilterCorners([p, q], minDist) == if Far(p, q, minDist) then [p, q] else [p]
  {
    assert [p, q][..1] == [p];
    assert [p][..0] == [];
  }
}
