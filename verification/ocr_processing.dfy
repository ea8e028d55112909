/**
 * `ocr_processing`: the recognised text regions are placed back on the card
 * by the coordinates written in their file names, grouped into lines from
 * top to bottom, and each line's words are joined from left to right.
 *
 * The pandas data frames become sequences of records; the column positions
 * the source reads (`iloc[i, 0]`, `iloc[i, 2]`, `iloc[j, 9]`) become the
 * record fields `file`, `pt1.y` and `text`.
 */
module OcrProcessing {
  import opened Wrappers
  import opened Geometry
  import opened Seqs
  import opened Text
  import opened FloatText

  // ---------------------------------------------------------------------
  // File names to boxes
  // ---------------------------------------------------------------------

  /** `name[-0:-4].split("_")`: the name without its last four characters (a ".jpg"), split on '_'. */
  function SplitImgName(name: string): (r: seq<string>)
    ensures |r| > 0
    ensures Join(r, "_") == if |name| >= 4 then name[..|name| - 4] else ""
  {
    var stem := if |name| >= 4 then name[..|name| - 4] else "";
    JoinSplit(stem, "_");
    Split(stem, "_")
  }

  /** `split_img_name`: one field list per name, in the same order. */
  function SplitImgNames(names: seq<string>): (r: seq<seq<string>>)
    ensures |r| == |names|
    ensures forall i | 0 <= i < |r| :: r[i] == SplitImgName(names[i])
  {
    seq(|names|, i requires 0 <= i < |names| => SplitImgName(names[i]))
  }

  /** `int(float(text))`: the number truncated toward zero, or ValueError when the text is not one. */
  function IntOfFloat(text: string): (r: Result<int>)
    ensures r.Ok? <==> ParseFloat(text).Ok?
    ensures r.Ok? ==> r.value == Trunc(ParseFloat(text).value)
    ensures r.Err? ==> r.error == ValueError
  {
    match ParseFloat(text)
    case Ok(d) => Ok(Trunc(d))
    case Err(e) => Err(e)
  }

  /** `int(float(repr(d)))` is `d` truncated toward zero. */
  lemma IntOfFloatRepr(d: Decimal)
    requires Canonical(d)
    ensures IntOfFloat(Repr(d)) == Ok(Trunc(d))
  {
    ReprRoundTrip(d);
  }

  /** `conv(fields[k])`, or IndexError when there is no field `k`. */
  function Field(fields: seq<string>, k: nat, conv: string -> Result<int>): (r: Result<int>)
    ensures k >= |fields| ==> r == Err(IndexError)
    ensures k < |fields| ==> r == conv(fields[k])
  {
    if k < |fields| then conv(fields[k]) else Err(IndexError)
  }

  /**
   * The body of `boxes` for one name, the conversion of a field being
   * `conv`: the points (f1, f2), (f3, f4), (f5, f6), (f7, f8), field 0
   * being the image stem. The x fields 1, 3, 5, 7 are converted before the
   * y fields 2, 4, 6, 8, and the first field that is missing or fails to
   * convert decides the error.
   */
  function BoxWith(fields: seq<string>, conv: string -> Result<int>): (r: Result<seq<Point>>)
    ensures r.Ok? <==> |fields| >= 9 && forall k | 1 <= k <= 8 :: conv(fields[k]).Ok?
    ensures r.Ok? ==> |r.value| == 4 && forall j | 0 <= j < 4 ::
      r.value[j] == Point(conv(fields[2 * j + 1]).value, conv(fields[2 * j + 2]).value)
    ensures r.Err? ==> r.error == IndexError || exists k | 1 <= k <= 8 && k < |fields| :: conv(fields[k]) == Err(r.error)
    ensures |fields| < 9 && (forall k | 1 <= k < |fields| :: conv(fields[k]).Ok?) ==> r == Err(IndexError)
  {
    match Field(fields, 1, conv)
    case Err(e) => Err(e)
    case Ok(x1) =>
    match Field(fields, 3, conv)
    case Err(e) => Err(e)
    case Ok(x2) =>
    match Field(fields, 5, conv)
    case Err(e) => Err(e)
    case Ok(x3) =>
    match Field(fields, 7, conv)
    case Err(e) => Err(e)
    case Ok(x4) =>
    match Field(fields, 2, conv)
    case Err(e) => Err(e)
    case Ok(y1) =>
    match Field(fields, 4, conv)
    case Err(e) => Err(e)
    case Ok(y2) =>
    match Field(fields, 6, conv)
    case Err(e) => Err(e)
    case Ok(y3) =>
    match Field(fields, 8, conv)
    case Err(e) => Err(e)
    case Ok(y4) =>
      Ok([Point(x1, y1), Point(x2, y2), Point(x3, y3), Point(x4, y4)])
  }

  /** When fields 1 to 8 convert to `vals`, the box is the four points they pair into. */
  lemma BoxWithValues(fields: seq<string>, conv: string -> Result<int>, vals: seq<int>)
    requires |fields| == 9 && |vals| == 8
    requires forall k | 1 <= k <= 8 :: conv(fields[k]) == Ok(vals[k - 1])
    ensures BoxWith(fields, conv) == Ok([Point(vals[0], vals[1]), Point(vals[2], vals[3]), Point(vals[4], vals[5]), Point(vals[6], vals[7])])
  {
  }

  /** `boxes` for one name: every coordinate read with `int(float(...))`. */
  function Box(fields: seq<string>): Result<seq<Point>> {
    BoxWith(fields, IntOfFloat)
  }

  /**
   * `boxes` succeeds on a name exactly when it has at least nine fields
   * and fields 1 to 8 are numbers, and then the corners are the truncated
   * numbers; with fewer fields, all of them numbers, it raises IndexError.
   */
  lemma BoxSucceeds(fields: seq<string>)
    ensures Box(fields).Ok? <==> |fields| >= 9 && forall k | 1 <= k <= 8 :: ParseFloat(fields[k]).Ok?
    ensures Box(fields).Ok? ==> forall j | 0 <= j < 4 ::
      Box(fields).value[j] == Point(Trunc(ParseFloat(fields[2 * j + 1]).value), Trunc(ParseFloat(fields[2 * j + 2]).value))
    ensures |fields| < 9 && (forall k | 1 <= k < |fields| :: ParseFloat(fields[k]).Ok?) ==> Box(fields) == Err(IndexError)
  {
  }

  /**
   * `f` applied to each element in order, as a loop whose first exception
   * propagates: the first error, or all the results.
   */
  function MapResult<A, B>(xs: seq<A>, f: A -> Result<B>): (r: Result<seq<B>>)
    ensures r.Ok? <==> forall j | 0 <= j < |xs| :: f(xs[j]).Ok?
    ensures r.Ok? ==> |r.value| == |xs| && forall j | 0 <= j < |xs| :: r.value[j] == f(xs[j]).value
    ensures r.Err? ==> exists j | 0 <= j < |xs| ::
      && f(xs[j]) == Err(r.error)
      && forall j' | 0 <= j' < j :: f(xs[j']).Ok?
    decreases |xs|
  {
    if |xs| == 0 then Ok([])
    else
      match f(xs[0])
      case Err(e) => Err(e)
      case Ok(v) =>
        var rest := MapResult(xs[1..], f);
        assert forall j | 0 < j < |xs| :: xs[1..][j - 1] == xs[j];
        match rest
        case Err(e) => Err(e)
        case Ok(vs) => Ok([v] + vs)
  }

  /** `boxes` over all names, failing at the first name that fails. */
  function Boxes(allFields: seq<seq<string>>): (r: Result<seq<seq<Point>>>)
    ensures r.Ok? <==> forall i | 0 <= i < |allFields| :: Box(allFields[i]).Ok?
    ensures r.Ok? ==> |r.value| == |allFields| && forall i | 0 <= i < |allFields| :: r.value[i] == Box(allFields[i]).value
    ensures r.Err? ==> exists i | 0 <= i < |allFields| ::
      && Box(allFields[i]) == Err(r.error)
      && forall i' | 0 <= i' < i :: Box(allFields[i']).Ok?
  {
    MapResult(allFields, Box)
  }

  // ---------------------------------------------------------------------
  // Rows
  // ---------------------------------------------------------------------

  /** A row of VietOCR's raw result: the text-region file and the recognised text. */
  datatype RawRow = RawRow(file: string, text: string)

  /** A row after `add_to_data`: the region's four corners inserted between file and text. */
  datatype Row = Row(file: string, pt1: Point, pt2: Point, pt3: Point, pt4: Point, text: string)

  /** `add_to_data`: row `i` gets the corners of box `i`. */
  function AddToData(raw: seq<RawRow>, boxes: seq<seq<Point>>): (r: seq<Row>)
    requires |boxes| >= |raw|
    requires forall i | 0 <= i < |boxes| :: |boxes[i]| == 4
    ensures |r| == |raw|
    ensures forall i | 0 <= i < |r| ::
      && r[i].file == raw[i].file && r[i].text == raw[i].text
      && [r[i].pt1, r[i].pt2, r[i].pt3, r[i].pt4] == boxes[i]
  {
    seq(|raw|, i requires 0 <= i < |raw| =>
      Row(raw[i].file, boxes[i][0], boxes[i][1], boxes[i][2], boxes[i][3], raw[i].text))
  }

  function Pt1X(r: Row): int { r.pt1.x }

  function Pt1Y(r: Row): int { r.pt1.y }

  function Texts(rows: seq<Row>): (r: seq<string>)
    ensures |r| == |rows|
    ensures forall i | 0 <= i < |r| :: r[i] == rows[i].text
  {
    seq(|rows|, i requires 0 <= i < |rows| => rows[i].text)
  }

  // ---------------------------------------------------------------------
  // Lines
  // ---------------------------------------------------------------------

  /** The vertical gap in pixels above which the next row starts a new line. */
  const LineGap: int := 4

  /** Row `i + 1` starts a new line: its top is more than 4 px below row `i`'s. */
  predicate Gap(rows: seq<Row>, i: nat)
    requires i + 1 < |rows|
  {
    rows[i + 1].pt1.y - LineGap > rows[i].pt1.y
  }

  /**
   * What the first `k` iterations of the first loop of `sorting_detail`
   * append to `range_pt1_y`: `i + 1` after a gap, and the row count on the
   * last iteration, where reading row `i + 1` raises IndexError.
   */
  function Breaks(rows: seq<Row>, k: nat): (r: seq<nat>)
    requires k <= |rows|
    ensures |r| <= k
    ensures forall j | 0 <= j < |r| :: 0 < r[j] <= k
    ensures forall j1, j2 | 0 <= j1 < j2 < |r| :: r[j1] < r[j2]
    ensures forall b :: b in r <==> 0 < b <= k && (b == |rows| || Gap(rows, b - 1))
    ensures 0 < k == |rows| ==> |r| > 0 && r[|r| - 1] == k
  {
    if k == 0 then []
    else
      var prev := Breaks(rows, k - 1);
      var next := if k < |rows| then (if Gap(rows, k - 1) then [k] else []) else [k];
      prev + next
  }

  /** `range_pt1_y`: the index of the first row of each line, then the row count. */
  function Bounds(rows: seq<Row>): (r: seq<nat>)
    ensures |r| > 0 && r[0] == 0
    ensures |rows| == 0 ==> r == [0]
    ensures |rows| > 0 ==> r[|r| - 1] == |rows|
    ensures |r| <= |rows| + 1
    ensures forall j | 0 <= j < |r| :: r[j] <= |rows|
    ensures forall j1, j2 | 0 <= j1 < j2 < |r| :: r[j1] < r[j2]
    ensures forall b | 0 < b < |rows| :: b in r <==> Gap(rows, b - 1)
  {
    [0] + Breaks(rows, |rows|)
  }

  /** A line's text: its words in ascending `pt1_x`, joined by single spaces. */
  function LineText(line: seq<Row>): string {
    Join(Texts(SortBy(line, Pt1X)), " ")
  }

  /** One row of `sorting_detail`'s result. */
  datatype Line = Line(imgName: string, fullText: string)

  /** The rows between consecutive bounds. */
  function Slices<T>(s: seq<T>, bounds: seq<nat>): (r: seq<seq<T>>)
    requires |bounds| > 0
    requires forall j | 0 <= j < |bounds| :: bounds[j] <= |s|
    requires forall j1, j2 | 0 <= j1 < j2 < |bounds| :: bounds[j1] <= bounds[j2]
    ensures |r| == |bounds| - 1
    ensures forall i | 0 <= i < |r| :: r[i] == s[bounds[i]..bounds[i + 1]]
  {
    seq(|bounds| - 1, i requires 0 <= i < |bounds| - 1 => s[bounds[i]..bounds[i + 1]])
  }

  /** The y-sorted rows broken into lines. */
  function Lines(rows: seq<Row>): (r: seq<seq<Row>>)
    ensures |rows| == 0 ==> |r| == 0
    ensures forall i | 0 <= i < |r| :: |r[i]| > 0
  {
    var sorted := SortBy(rows, Pt1Y);
    var bounds := Bounds(sorted);
    Slices(sorted, bounds)
  }

  /**
   * `sorting_detail`: line `i`'s text is its rows' words by ascending x;
   * its `img_name` is the file of the `i`-th y-sorted row, whichever line
   * that row is in.
   */
  function SortingDetail(rows: seq<Row>): (r: seq<Line>)
    ensures |r| == |Lines(rows)|
    ensures forall i | 0 <= i < |r| ::
      && r[i].fullText == LineText(Lines(rows)[i])
      && r[i].imgName == SortBy(rows, Pt1Y)[i].file
  {
    var sorted := SortBy(rows, Pt1Y);
    var lines := Lines(rows);
    assert |lines| <= |sorted|;
    seq(|lines|, i requires 0 <= i < |lines| => Line(sorted[i].file, LineText(lines[i])))
  }

  /**
   * `boxes(split_img_name(raw['text_region_file']))`: the corners read from
   * every row's file name, or the error of the first name that fails.
   */
  function FileBoxes(raw: seq<RawRow>): (r: Result<seq<seq<Point>>>)
    ensures r.Ok? <==> forall i | 0 <= i < |raw| :: Box(SplitImgName(raw[i].file)).Ok?
    ensures r.Ok? ==> |r.value| == |raw| && forall i | 0 <= i < |raw| ::
      r.value[i] == Box(SplitImgName(raw[i].file)).value && |r.value[i]| == 4
    ensures r.Err? ==> exists i | 0 <= i < |raw| ::
      && Box(SplitImgName(raw[i].file)) == Err(r.error)
      && forall i' | 0 <= i' < i :: Box(SplitImgName(raw[i'].file)).Ok?
  {
    MapResult(raw, (row: RawRow) => Box(SplitImgName(row.file)))
  }

  /**
   * `sort_ocr_result`: parse every file name, attach the corners, order the
   * lines; an unreadable name is the error of the first one.
   */
  function SortOcrResult(raw: seq<RawRow>): (r: Result<seq<Line>>)
    ensures r.Ok? <==> forall i | 0 <= i < |raw| :: Box(SplitImgName(raw[i].file)).Ok?
    ensures r.Ok? ==> FileBoxes(raw).Ok? && r.value == SortingDetail(AddToData(raw, FileBoxes(raw).value))
    ensures r.Err? ==> r == Err(FileBoxes(raw).error)
  {
    match FileBoxes(raw)
    case Err(e) => Err(e)
    case Ok(bs) => Ok(SortingDetail(AddToData(raw, bs)))
  }

  // ---------------------------------------------------------------------
  // Properties of the line grouping
  // ---------------------------------------------------------------------

  /** Concatenating consecutive slices gives the span from the first bound to the last. */
  lemma {:induction false} FlattenSlices<T>(s: seq<T>, bounds: seq<nat>)
    requires |bounds| > 0
    requires forall j | 0 <= j < |bounds| :: bounds[j] <= |s|
    requires forall j1, j2 | 0 <= j1 < j2 < |bounds| :: bounds[j1] <= bounds[j2]
    ensures Flatten(Slices(s, bounds)) == s[bounds[0]..bounds[|bounds| - 1]]
    decreases |bounds|
  {
    if |bounds| > 1 {
      var init := bounds[..|bounds| - 1];
      FlattenSlices(s, init);
      var r := Slices(s, bounds);
      assert r[..|r| - 1] == Slices(s, init);
      var a := bounds[0];
      var b := bounds[|bounds| - 2];
      var c := bounds[|bounds| - 1];
      assert s[a..c] == s[a..b] + s[b..c];
    }
  }

  /** The lines partition the y-sorted rows: read in order they are exactly those rows. */
  lemma LinesPartition(rows: seq<Row>)
    ensures Flatten(Lines(rows)) == SortBy(rows, Pt1Y)
  {
    var sorted := SortBy(rows, Pt1Y);
    var bounds := Bounds(sorted);
    FlattenSlices(sorted, bounds);
    if |rows| == 0 {
      assert Lines(rows) == [];
    } else {
      assert sorted[0..|sorted|] == sorted;
    }
  }

  lemma {:induction false} FlattenMultiset<T>(a: seq<seq<T>>, b: seq<seq<T>>)
    requires |a| == |b|
    requires forall i | 0 <= i < |a| :: multiset(a[i]) == multiset(b[i])
    ensures multiset(Flatten(a)) == multiset(Flatten(b))
    decreases |a|
  {
    if |a| > 0 {
      FlattenMultiset(a[..|a| - 1], b[..|b| - 1]);
    }
  }

  /**
   * Every row lands in exactly one line: the rows of all lines, each line
   * in x order, are a permutation of the input rows.
   */
  lemma LinesCoverRows(rows: seq<Row>)
    ensures var lines := Lines(rows);
      multiset(Flatten(seq(|lines|, i requires 0 <= i < |lines| => SortBy(lines[i], Pt1X)))) == multiset(rows)
  {
    var lines := Lines(rows);
    var byX := seq(|lines|, i requires 0 <= i < |lines| => SortBy(lines[i], Pt1X));
    FlattenMultiset(byX, lines);
    LinesPartition(rows);
  }

  /** Within a line each row's top is at most 4 px below the previous row's. */
  lemma WithinLineSmallGaps(rows: seq<Row>, i: nat, j: nat)
    requires i < |Lines(rows)| && j + 1 < |Lines(rows)[i]|
    ensures Lines(rows)[i][j + 1].pt1.y - LineGap <= Lines(rows)[i][j].pt1.y
  {
    var sorted := SortBy(rows, Pt1Y);
    var bounds := Bounds(sorted);
    assert Lines(rows) == Slices(sorted, bounds);
    var lo, hi := bounds[i], bounds[i + 1];
    var line := sorted[lo..hi];
    assert Lines(rows)[i] == line;
    assert lo + j + 1 < hi;
    NoGapInsideLine(sorted, i, lo + j + 1);
    assert line[j] == sorted[lo + j] && line[j + 1] == sorted[lo + j + 1];
  }

  /** No gap separates a row from the one before it when both are in the same line. */
  lemma NoGapInsideLine(sorted: seq<Row>, i: nat, b: nat)
    requires i + 1 < |Bounds(sorted)|
    requires Bounds(sorted)[i] < b < Bounds(sorted)[i + 1]
    ensures !Gap(sorted, b - 1)
  {
    BetweenBounds(Bounds(sorted), i, b);
  }

  /** A position strictly between two consecutive bounds is not itself a bound. */
  lemma BetweenBounds(bounds: seq<nat>, i: nat, b: nat)
    requires i + 1 < |bounds|
    requires forall j1, j2 | 0 <= j1 < j2 < |bounds| :: bounds[j1] < bounds[j2]
    requires bounds[i] < b < bounds[i + 1]
    ensures b !in bounds
  {
    forall m | 0 <= m < |bounds| ensures bounds[m] != b {
      if m <= i {
        assert bounds[m] <= bounds[i];
      } else {
        assert bounds[i + 1] <= bounds[m];
      }
    }
  }

  /** Consecutive lines are separated by a gap of more than 4 px. */
  lemma BetweenLinesGap(rows: seq<Row>, i: nat)
    requires i + 1 < |Lines(rows)|
    ensures var lines := Lines(rows);
      lines[i + 1][0].pt1.y - LineGap > lines[i][|lines[i]| - 1].pt1.y
  {
    var sorted := SortBy(rows, Pt1Y);
    var bounds := Bounds(sorted);
    var b := bounds[i + 1];
    assert 0 < b < |sorted|;
    assert b in bounds;
    assert Lines(rows)[i + 1][0] == sorted[b];
    assert Lines(rows)[i][|Lines(rows)[i]| - 1] == sorted[b - 1];
  }

  /** No rows, no lines. */
  lemma SortingDetailEmpty()
    ensures SortingDetail([]) == []
  {
  }

  /** When all `pt1_y` values differ, the lines do not depend on the order the rows come in. */
  lemma SortingDetailOrderFree(a: seq<Row>, b: seq<Row>)
    requires multiset(a) == multiset(b)
    requires forall i, j | 0 <= i < j < |a| :: a[i].pt1.y != a[j].pt1.y
    ensures SortingDetail(a) == SortingDetail(b)
  {
    DistinctKeysAt(a, Pt1Y);
    SortByDeterminedByMultiset(a, b, Pt1Y);
  }
}
