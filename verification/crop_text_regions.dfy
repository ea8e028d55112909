/**
 * `crop_text_regions.generate_words`: the text the CRAFT detector prints for
 * its boxes (the `str` of a dictionary of numpy arrays) is cut into
 * entries, each entry's four corner rows are read back as floats, boxes
 * with a zero coordinate are dropped, and every kept box is written to a
 * file whose name carries the eight coordinates. The cropping of the image
 * itself is not modelled; a kept box is a file name.
 */
module CropTextRegions {
  import opened Wrappers
  import opened Geometry
  import opened Text
  import opened FloatText
  import opened OcrProcessing

  /** The separator `generate_words` cuts the dictionary text at: the close of one array repr. */
  const EntrySep: string := "),"
  /** The separator between the rows of a 4 by 2 array repr. */
  const RowSep: string := ",\n"
  /** The characters stripped around the first row, which carries the `array([` opening. */
  const FirstRowChars: string := " array(["
  /** The characters stripped around the other rows. */
  const RowChars: string := " ["

  // ---------------------------------------------------------------------
  // Parsing one entry
  // ---------------------------------------------------------------------

  /**
   * `entry.split(':')[-1].split(',\n')`: the corner rows of one entry.
   * Joined back they are the text after the entry's last ':' (all of it
   * when there is none).
   */
  function CoordTexts(entry: string): (r: seq<string>)
    ensures |r| > 0
    ensures var tail := Join(r, RowSep);
      && ':' !in tail && |tail| <= |entry| && entry[|entry| - |tail|..] == tail
      && (|tail| < |entry| ==> entry[|entry| - |tail| - 1] == ':')
  {
    var tail := Last(Split(entry, ":"));
    LastPiece(entry, ":");
    JoinSplit(tail, RowSep);
    Split(tail, RowSep)
  }

  /** `parse` only ever returns canonical decimals, as `float()` followed by repr does. */
  ghost predicate ParsesCanonical(parse: string -> Result<Decimal>) {
    forall s :: parse(s).Ok? ==> Canonical(parse(s).value)
  }

  /**
   * The items of corner row `k`: the row stripped of the opening
   * characters (those of `array([` on row 0), then of ']', and split on ','.
   */
  function RowItems(row: string, k: nat): (r: seq<string>)
    ensures |r| > 0
  {
    Split(Strip(Strip(row, OpenChars(k)), "]"), ",")
  }

  /** The characters stripped from the front and back of row `k` first. */
  function OpenChars(k: nat): string {
    if k == 0 then FirstRowChars else RowChars
  }

  /** The items of every row. */
  function Items(coords: seq<string>): (r: seq<seq<string>>)
    ensures |r| == |coords|
    ensures forall k | 0 <= k < |r| :: r[k] == RowItems(coords[k], k)
  {
    seq(|coords|, k requires 0 <= k < |coords| => RowItems(coords[k], k))
  }

  /**
   * The two numbers of corner row `k`, read with `parse`: item 0 is x and
   * item 1 is y, the last row's y being stripped of ']' once more. A missing
   * row or a missing item raises IndexError; x is read before y is looked
   * up, so a bad x is reported even when y is missing.
   */
  function CornerWith(items: seq<seq<string>>, k: nat, parse: string -> Result<Decimal>): (r: Result<(Decimal, Decimal)>)
    requires ParsesCanonical(parse)
    ensures r.Ok? <==>
      && k < |items| && |items[k]| >= 2
      && parse(items[k][0]).Ok? && parse(YText(items[k], k)).Ok?
    ensures r.Ok? ==> r.value == (parse(items[k][0]).value, parse(YText(items[k], k)).value)
    ensures r.Ok? ==> Canonical(r.value.0) && Canonical(r.value.1)
    ensures k >= |items| ==> r == Err(IndexError)
    ensures k < |items| && |items[k]| == 0 ==> r == Err(IndexError)
    ensures k < |items| && |items[k]| > 0 && parse(items[k][0]).Err? ==> r == Err(parse(items[k][0]).error)
    ensures k < |items| && |items[k]| == 1 && parse(items[k][0]).Ok? ==> r == Err(IndexError)
    ensures k < |items| && |items[k]| >= 2 && parse(items[k][0]).Ok? && parse(YText(items[k], k)).Err? ==>
      r == Err(parse(YText(items[k], k)).error)
  {
    if k >= |items| || |items[k]| == 0 then Err(IndexError)
    else
      var parts := items[k];
      match parse(parts[0])
      case Err(e) => Err(e)
      case Ok(x) =>
        if |parts| < 2 then Err(IndexError)
        else
          match parse(YText(parts, k))
          case Err(e) => Err(e)
          case Ok(y) => Ok((x, y))
  }

  /** The y item of row `k`: item 1, stripped of ']' once more on the last row. */
  function YText(parts: seq<string>, k: nat): string
    requires |parts| >= 2
  {
    if k == 3 then Strip(parts[1], "]") else parts[1]
  }

  /** The floats Python reads are written canonically. */
  predicate AllCanonical(v: seq<Decimal>) {
    forall i | 0 <= i < |v| :: Canonical(v[i])
  }

  /** The corners of rows 0 to 3, each read with `parse` on its own. */
  function RowCorners(items: seq<seq<string>>, parse: string -> Result<Decimal>): (cs: seq<Result<(Decimal, Decimal)>>)
    requires ParsesCanonical(parse)
    ensures |cs| == 4 && CornersCanonical(cs)
    ensures forall j | 0 <= j < 4 :: cs[j] == CornerWith(items, j, parse)
  {
    seq(4, j requires 0 <= j < 4 => CornerWith(items, j, parse))
  }

  /** Every corner that was read holds canonical numbers. */
  predicate CornersCanonical(cs: seq<Result<(Decimal, Decimal)>>) {
    forall j | 0 <= j < |cs| :: cs[j].Ok? ==> Canonical(cs[j].value.0) && Canonical(cs[j].value.1)
  }

  /**
   * The numbers of rows `k` to 3, read in order: x then y of each row.
   * The first row that fails decides the error, and the rows are read
   * exactly when each of their corners is.
   */
  function RowsFrom(cs: seq<Result<(Decimal, Decimal)>>, k: nat): (r: Result<seq<Decimal>>)
    requires k <= 4 && |cs| == 4 && CornersCanonical(cs)
    ensures r.Ok? ==> |r.value| == 2 * (4 - k) && AllCanonical(r.value)
    ensures r.Ok? <==> forall j | k <= j < 4 :: cs[j].Ok?
    ensures r.Err? ==> exists j | k <= j < 4 :: cs[j].Err? && r.error == cs[j].error
    decreases 4 - k
  {
    if k == 4 then Ok([])
    else
      match cs[k]
      case Err(e) => Err(e)
      case Ok(c) =>
        match RowsFrom(cs, k + 1)
        case Err(e) => Err(e)
        case Ok(rest) => CanonicalPrepend(c.0, c.1, rest); Ok([c.0, c.1] + rest)
  }

  lemma CanonicalPrepend(a: Decimal, b: Decimal, rest: seq<Decimal>)
    requires Canonical(a) && Canonical(b) && AllCanonical(rest)
    ensures AllCanonical([a, b] + rest)
  {
    var v := [a, b] + rest;
    forall i | 0 <= i < |v| ensures Canonical(v[i]) {
      if i >= 2 {
        assert v[i] == rest[i - 2];
      }
    }
  }

  /**
   * The rows of one entry with the numbers read by `parse`: None when they
   * are exactly `['{}']` (an empty dictionary), otherwise the eight numbers
   * l_t, t_l, r_t, t_r, r_b, b_r, l_b, b_l of rows 0 to 3.
   */
  function RowsWith(coords: seq<string>, parse: string -> Result<Decimal>): (r: Result<Option<seq<Decimal>>>)
    requires ParsesCanonical(parse)
    ensures r == Ok(None) <==> coords == ["{}"]
    ensures r.Ok? && r.value.Some? ==> |r.value.value| == 8 && AllCanonical(r.value.value)
    ensures |coords| < 4 && coords != ["{}"] ==> r.Err?
  {
    if coords == ["{}"] then Ok(None)
    else
      match RowsFrom(RowCorners(Items(coords), parse), 0)
      case Err(e) => Err(e)
      case Ok(v) => Ok(Some(v))
  }

  /** One entry with `float()`: None when skipped, else the eight coordinates. */
  function EntryValues(entry: string): (r: Result<Option<seq<Decimal>>>)
    ensures r == Ok(None) <==> CoordTexts(entry) == ["{}"]
    ensures r.Ok? && r.value.Some? ==> |r.value.value| == 8 && AllCanonical(r.value.value)
  {
    RowsWith(CoordTexts(entry), ParseFloat)
  }

  // ---------------------------------------------------------------------
  // The kept boxes and their file names
  // ---------------------------------------------------------------------

  /** `np.array([[int(l_t), int(t_l)], ...])`: the four corners truncated toward zero. */
  function Corners(v: seq<Decimal>): (pts: seq<Point>)
    requires |v| == 8 && AllCanonical(v)
    ensures |pts| == 4
    ensures forall j | 0 <= j < 4 :: pts[j] == Point(Trunc(v[2 * j]), Trunc(v[2 * j + 1]))
  {
    seq(4, j requires 0 <= j < 4 => Point(Trunc(v[2 * j]), Trunc(v[2 * j + 1])))
  }

  /** `np.all(pts)`: no coordinate is zero. */
  predicate NpAll(pts: seq<Point>) {
    forall j | 0 <= j < |pts| :: pts[j].x != 0 && pts[j].y != 0
  }

  /** The crop guard `np.all(pts) > 0`: the boolean compared with 0 as an integer. */
  predicate CropGuard(pts: seq<Point>) {
    (if NpAll(pts) then 1 else 0) > 0
  }

  /** The coordinates' reprs, in the order they appear in the file name. */
  function Reprs(v: seq<Decimal>): (r: seq<string>)
    ensures |r| == |v| && forall i | 0 <= i < |v| :: r[i] == Repr(v[i])
  {
    seq(|v|, i requires 0 <= i < |v| => Repr(v[i]))
  }

  /** `stem + '_{}_{}_{}_{}_{}_{}_{}_{}.jpg'.format(l_t, t_l, ...)`. */
  function FileName(stem: string, v: seq<Decimal>): string
    requires |v| == 8
  {
    stem + "_" + Join(Reprs(v), "_") + ".jpg"
  }

  /** What one entry contributes: nothing when skipped or filtered out, else its file name. */
  function EntryFiles(stem: string, entry: string): (r: Result<seq<string>>)
    ensures r.Ok? <==> EntryValues(entry).Ok?
    ensures r.Ok? ==> forall name :: name in r.value <==> Written(stem, entry, name)
    ensures r.Ok? ==> |r.value| <= 1
  {
    match EntryValues(entry)
    case Err(e) => Err(e)
    case Ok(None) => Ok([])
    case Ok(Some(v)) => if CropGuard(Corners(v)) then Ok([FileName(stem, v)]) else Ok([])
  }

  /** `name` is the file written for `entry`: its box was read and passed the guard. */
  ghost predicate Written(stem: string, entry: string, name: string) {
    && EntryValues(entry).Ok? && EntryValues(entry).value.Some?
    && var v := EntryValues(entry).value.value;
       CropGuard(Corners(v)) && name == FileName(stem, v)
  }

  /**
   * `f` applied to each element in order, its results concatenated, the
   * first exception propagating.
   */
  function ConcatMapResult<A, B(!new)>(xs: seq<A>, f: A -> Result<seq<B>>): (r: Result<seq<B>>)
    ensures r.Ok? <==> forall i | 0 <= i < |xs| :: f(xs[i]).Ok?
    ensures r.Ok? ==> forall y :: y in r.value <==> exists i | 0 <= i < |xs| :: y in f(xs[i]).value
    ensures r.Err? ==> exists i | 0 <= i < |xs| :: f(xs[i]) == Err(r.error)
    decreases |xs|
  {
    if |xs| == 0 then Ok([])
    else
      match f(xs[0])
      case Err(e) => Err(e)
      case Ok(first) =>
        var rest := ConcatMapResult(xs[1..], f);
        assert forall i | 1 <= i < |xs| :: xs[1..][i - 1] == xs[i];
        match rest
        case Err(e) => Err(e)
        case Ok(ys) => Ok(first + ys)
  }

  /**
   * The files written for the entries of the score text, in entry order,
   * or the exception that ends the loop.
   */
  function FilesOf(stem: string, entries: seq<string>): (r: Result<seq<string>>)
    ensures r.Ok? <==> forall i | 0 <= i < |entries| :: EntryFiles(stem, entries[i]).Ok?
    ensures r.Ok? ==> forall name :: name in r.value <==> exists i | 0 <= i < |entries| :: name in EntryFiles(stem, entries[i]).value
  {
    ConcatMapResult(entries, entry => EntryFiles(stem, entry))
  }

  /**
   * `generate_words` for the image `stem` (its name without extension) and
   * CRAFT's text `score`: the entries are the pieces of `score.split('),')`.
   */
  function GenerateWords(stem: string, score: string): Result<seq<string>> {
    FilesOf(stem, Split(score, EntrySep))
  }

  /**
   * The loop fails exactly when some entry cannot be read, and it writes
   * exactly one file per entry whose box is read and passes the guard,
   * named after that box.
   */
  lemma FilesWritten(stem: string, entries: seq<string>)
    ensures FilesOf(stem, entries).Ok? <==> forall i | 0 <= i < |entries| :: EntryValues(entries[i]).Ok?
    ensures FilesOf(stem, entries).Ok? ==> forall name ::
      name in FilesOf(stem, entries).value <==> exists i | 0 <= i < |entries| :: Written(stem, entries[i], name)
  {
  }

  // ---------------------------------------------------------------------
  // Properties
  // ---------------------------------------------------------------------

  /** The guard keeps a box exactly when no coordinate is zero: negative coordinates pass. */
  lemma CropGuardNonzero(pts: seq<Point>)
    ensures CropGuard(pts) <==> forall j | 0 <= j < |pts| :: pts[j].x != 0 && pts[j].y != 0
    ensures CropGuard([Point(-5, 3), Point(40, 3), Point(40, 20), Point(-5, 20)])
    ensures !CropGuard([Point(0, 3), Point(40, 3), Point(40, 20), Point(0, 20)])
  {
    var zero := [Point(0, 3), Point(40, 3), Point(40, 20), Point(0, 20)];
    assert zero[0].x == 0;
  }

  /** The empty dictionary prints as "{}" and writes nothing. */
  lemma EmptyDictionary(stem: string)
    ensures GenerateWords(stem, "{}") == Ok([])
  {
    SplitNoSeparator("{}", EntrySep);
    SplitNoSeparator("{}", ":");
    SplitNoSeparator("{}", RowSep);
    assert CoordTexts("{}") == ["{}"];
    assert EntryFiles(stem, "{}") == Ok([]);
    var r := FilesOf(stem, ["{}"]);
    assert r.Ok?;
    assert r.value == [];
    assert GenerateWords(stem, "{}") == r;
  }

  // ---------------------------------------------------------------------
  // The text CRAFT prints, read back
  // ---------------------------------------------------------------------

  /** What numpy prints after the rows of a float32 array. */
  const Dtype: string := ", dtype=float32"

  /** A number's text as a repr writes it: not empty, only digits, '-' and '.'. */
  predicate NumberText(x: string) {
    |x| > 0 && forall k | 0 <= k < |x| :: ReprChar(x[k])
  }

  lemma ReprIsNumberText(d: Decimal)
    requires Canonical(d)
    ensures NumberText(Repr(d))
  {
    ReprChars(d);
  }

  /** What numpy prints before the numbers of row `k`. */
  function RowOpen(k: nat): string {
    if k == 0 then " array([[" else " ["
  }

  /** What numpy prints after the numbers of row `k`, `close` ending the last. */
  function RowClose(k: nat, close: string): string {
    if k < 3 then "]" else "]]" + Dtype + close
  }

  /** Row `k` of a printed array whose numbers there read `x` and `y`. */
  function RowText(k: nat, x: string, y: string, close: string): string {
    RowOpen(k) + x + ", " + y + RowClose(k, close)
  }

  /** Eight number texts, as reprs write them. */
  predicate NumberTexts(t: seq<string>) {
    |t| == 8 && forall i | 0 <= i < 8 :: NumberText(t[i])
  }

  /**
   * Row `k` of a 4 by 2 float32 array as numpy prints it inside a
   * dictionary, its numbers written as the texts `t`; `close` is what the
   * entry's piece of text holds after the array: nothing, or ")}" for the
   * dictionary's last entry.
   */
  function PrintedRow(t: seq<string>, k: nat, close: string): string
    requires |t| == 8 && k < 4
  {
    RowText(k, t[2 * k], t[2 * k + 1], close)
  }

  function PrintedRows(t: seq<string>, close: string): (r: seq<string>)
    requires |t| == 8
    ensures |r| == 4 && forall k | 0 <= k < 4 :: r[k] == PrintedRow(t, k, close)
  {
    [PrintedRow(t, 0, close), PrintedRow(t, 1, close), PrintedRow(t, 2, close), PrintedRow(t, 3, close)]
  }

  /** One entry of CRAFT's text: its key (the score's repr, after '{' or ' '), ':', and the box. */
  function CraftEntry(key: string, t: seq<string>, close: string): string
    requires |t| == 8
  {
    key + ":" + Join(PrintedRows(t, close), RowSep)
  }

  /** A printed row has no ':' or newline and does not end in ','. */
  lemma RowTextChars(k: nat, x: string, y: string, close: string)
    requires NumberText(x) && NumberText(y)
    requires close == "" || close == ")}"
    ensures ':' !in RowText(k, x, y, close) && '\n' !in RowText(k, x, y, close)
    ensures RowText(k, x, y, close)[|RowText(k, x, y, close)| - 1] != ','
  {
    NumberTextAvoids(x);
    NumberTextAvoids(y);
    RowCloseChars(k, close);
    assert ':' !in RowOpen(k) && '\n' !in RowOpen(k);
    var after := RowClose(k, close);
    assert RowText(k, x, y, close) == (RowOpen(k) + x + ", " + y) + after;
  }

  /** A number's text holds none of the characters that delimit it in CRAFT's text. */
  lemma NumberTextAvoids(x: string)
    requires NumberText(x)
    ensures ':' !in x && '\n' !in x && ',' !in x && ']' !in x
    ensures x[0] !in FirstRowChars && x[0] !in RowChars && x[0] != ' '
    ensures x[|x| - 1] != ']'
  {
    assert ReprChar(x[0]) && ReprChar(x[|x| - 1]);
  }

  lemma RowCloseChars(k: nat, close: string)
    requires close == "" || close == ")}"
    ensures ':' !in RowClose(k, close) && '\n' !in RowClose(k, close)
    ensures |RowClose(k, close)| > 0 && RowClose(k, close)[|RowClose(k, close)| - 1] != ','
  {
    if k >= 3 {
      assert ':' !in Dtype && '\n' !in Dtype && |Dtype| == 15;
      assert ':' !in close && '\n' !in close;
      var after := "]]" + Dtype + close;
      assert after[|after| - 1] == if close == "" then Dtype[14] else close[1];
    }
  }

  /** The rows of an entry are the rows numpy printed. */
  lemma CraftCoordTexts(key: string, t: seq<string>, close: string)
    requires ':' !in key
    requires NumberTexts(t)
    requires close == "" || close == ")}"
    ensures CoordTexts(CraftEntry(key, t, close)) == PrintedRows(t, close)
  {
    var rows := PrintedRows(t, close);
    var tail := Join(rows, RowSep);
    forall k | 0 <= k < 4 ensures ':' !in rows[k] && '\n' !in rows[k] && rows[k][|rows[k]| - 1] != ',' {
      RowTextChars(k, t[2 * k], t[2 * k + 1], close);
    }
    JoinAvoids(rows, RowSep, ':');
    SplitAfterPiece(key, ":", tail);
    SplitNoSeparator(tail, ":");
    assert Last(Split(CraftEntry(key, t, close), ":")) == tail;
    SplitJoinPair(rows, RowSep);
  }

  /** Stripping the row's opening leaves the numbers and what follows them. */
  lemma StripOpen(k: nat, b: string)
    requires |b| > 0 && ReprChar(b[0]) && b[|b| - 1] !in OpenChars(k)
    ensures Strip(RowOpen(k) + b, OpenChars(k)) == b
  {
    var chars := OpenChars(k);
    var open := RowOpen(k);
    if k == 0 {
      assert open == " array([[" && chars == " array([";
    } else {
      assert open == " [" && chars == " [";
    }
    assert forall i | 0 <= i < |open| :: open[i] in chars;
    assert b[0] !in chars;
    assert open + b == open + b + "";
    StripPadded(open, b, "", chars);
  }

  /** Stripping ']' from "x, y]" leaves "x, y". */
  lemma StripCloseBracket(x: string, y: string, after: string)
    requires NumberText(x) && NumberText(y)
    requires forall i | 0 <= i < |after| :: after[i] == ']'
    ensures Strip(x + ", " + y + after, "]") == x + ", " + y
  {
    var pair := x + ", " + y;
    NumberTextAvoids(x);
    NumberTextAvoids(y);
    assert pair[0] == x[0] && pair[|pair| - 1] == y[|y| - 1];
    assert pair + after == "" + pair + after;
    StripPadded("", pair, after, "]");
  }

  /** "x, y" splits on ',' into x and " y". */
  lemma SplitPair(x: string, y: string)
    requires NumberText(x) && NumberText(y)
    ensures Split(x + ", " + y, ",") == [x, " " + y]
  {
    NumberTextAvoids(x);
    NumberTextAvoids(y);
    assert x + ", " + y == x + "," + (" " + y);
    SplitAfterPiece(x, ",", " " + y);
    assert ',' !in " " + y;
    SplitNoSeparator(" " + y, ",");
  }

  /** Rows 0 to 2 give the x text and the y text behind one space. */
  lemma InnerRowItems(k: nat, x: string, y: string, close: string)
    requires k < 3 && NumberText(x) && NumberText(y)
    ensures RowItems(RowText(k, x, y, close), k) == [x, " " + y]
  {
    InnerRowOpen(k, x, y, close);
    InnerRowPair(x, y);
  }

  /** Stripping row `k`'s opening characters leaves "x, y]". */
  lemma InnerRowOpen(k: nat, x: string, y: string, close: string)
    requires k < 3 && NumberText(x)
    ensures Strip(RowText(k, x, y, close), OpenChars(k)) == x + ", " + y + "]"
  {
    var b := x + ", " + y + "]";
    InnerRowText(k, x, y, close);
    assert ']' !in OpenChars(k);
    assert b[0] == x[0] && ReprChar(x[0]);
    StripOpen(k, b);
  }

  /** "x, y]" stripped of ']' and split on ',' gives x and " y". */
  lemma InnerRowPair(x: string, y: string)
    requires NumberText(x) && NumberText(y)
    ensures Split(Strip(x + ", " + y + "]", "]"), ",") == [x, " " + y]
  {
    var s := x + ", " + y;
    StripCloseBracket(x, y, "]");
    assert Strip(s + "]", "]") == s;
    SplitPair(x, y);
    assert Split(s, ",") == [x, " " + y];
  }

  lemma InnerRowText(k: nat, x: string, y: string, close: string)
    requires k < 3
    ensures RowText(k, x, y, close) == RowOpen(k) + (x + ", " + y + "]")
  {
  }

  /** The tail of row 3: its y text, "]]", numpy's dtype and `close`, split on ','. */
  lemma SplitLastRowTail(y: string, close: string)
    requires NumberText(y)
    requires close == "" || close == ")}"
    ensures var parts := Split(" " + y + "]]" + Dtype + close, ",");
      |parts| >= 1 && parts[0] == " " + y + "]]"
  {
    NumberTextAvoids(y);
    var head := " " + y + "]]";
    assert ',' !in head;
    assert " " + y + "]]" + Dtype + close == head + "," + (" dtype=float32" + close);
    SplitAfterPiece(head, ",", " dtype=float32" + close);
  }

  /** Row 3 gives the x text and the y text behind one space and before "]]". */
  lemma LastRowItems(x: string, y: string, close: string)
    requires NumberText(x) && NumberText(y)
    requires close == "" || close == ")}"
    ensures var items := RowItems(RowText(3, x, y, close), 3);
      |items| >= 2 && items[0] == x && items[1] == " " + y + "]]"
  {
    var rest := " " + y + "]]" + Dtype + close;
    var b := x + "," + rest;
    LastRowOpen(x, y, close);
    assert Strip(RowText(3, x, y, close), OpenChars(3)) == b;
    LastRowTail(x, y, close);
  }

  /** Stripping row 3's opening characters leaves "x, y]]" and numpy's dtype. */
  lemma LastRowOpen(x: string, y: string, close: string)
    requires NumberText(x)
    requires close == "" || close == ")}"
    ensures Strip(RowText(3, x, y, close), OpenChars(3)) == x + "," + (" " + y + "]]" + Dtype + close)
  {
    var rest := " " + y + "]]" + Dtype + close;
    var b := x + "," + rest;
    assert RowText(3, x, y, close) == RowOpen(3) + b;
    RowCloseChars(3, close);
    assert b[|b| - 1] == RowClose(3, close)[|RowClose(3, close)| - 1];
    assert b[|b| - 1] in "2}";
    assert b[0] == x[0] && ReprChar(x[0]);
    StripOpen(3, b);
  }

  /** What is left of row 3 after its opening, stripped of ']' and split on ',', starts with x and " y]]". */
  lemma LastRowTail(x: string, y: string, close: string)
    requires NumberText(x) && NumberText(y)
    requires close == "" || close == ")}"
    ensures var items := Split(Strip(x + "," + (" " + y + "]]" + Dtype + close), "]"), ",");
      |items| >= 2 && items[0] == x && items[1] == " " + y + "]]"
  {
    var rest := " " + y + "]]" + Dtype + close;
    var b := x + "," + rest;
    RowCloseChars(3, close);
    assert b[|b| - 1] == RowClose(3, close)[|RowClose(3, close)| - 1];
    assert b[|b| - 1] in "2}";
    assert b[0] == x[0] && ReprChar(x[0]);
    assert b == "" + b + "";
    StripPadded("", b, "", "]");
    assert Strip(b, "]") == b;
    NumberTextAvoids(x);
    SplitAfterPiece(x, ",", rest);
    assert Split(b, ",") == [x] + Split(rest, ",");
    SplitLastRowTail(y, close);
  }

  /** When every row gives its two numbers, rows `k` to 3 give the numbers from `2 * k` on. */
  lemma {:induction false} RowsFromValues(cs: seq<Result<(Decimal, Decimal)>>, k: nat, v: seq<Decimal>)
    requires k <= 4 && |cs| == 4 && CornersCanonical(cs)
    requires |v| == 8
    requires forall j | k <= j < 4 :: cs[j] == Ok((v[2 * j], v[2 * j + 1]))
    ensures RowsFrom(cs, k) == Ok(v[2 * k..])
    decreases 4 - k
  {
    if k < 4 {
      RowsFromValues(cs, k + 1, v);
      assert v[2 * k..] == [v[2 * k], v[2 * k + 1]] + v[2 * (k + 1)..];
    }
  }

  /**
   * Parsing round trip: an entry printed the way CRAFT's dictionary prints
   * a float32 box, with the numbers as reprs, reads back as exactly those
   * eight numbers.
   */
  lemma EntryRoundTrip(key: string, v: seq<Decimal>, close: string)
    requires ':' !in key
    requires |v| == 8 && AllCanonical(v)
    requires close == "" || close == ")}"
    ensures EntryValues(CraftEntry(key, Reprs(v), close)) == Ok(Some(v))
  {
    var t := Reprs(v);
    forall i | 0 <= i < 8 ensures NumberText(t[i]) && ParseFloat(t[i]) == Ok(v[i]) && ParseFloat(" " + t[i]) == Ok(v[i]) {
      ReprIsNumberText(v[i]);
      ReprRoundTrip(v[i]);
      PaddedReprRoundTrip(v[i]);
    }
    CraftCoordTexts(key, t, close);
    RowsRoundTrip(t, v, close, ParseFloat);
  }

  /** Printed rows read back by a parser that inverts the number texts give the numbers printed. */
  lemma RowsRoundTrip(t: seq<string>, v: seq<Decimal>, close: string, parse: string -> Result<Decimal>)
    requires NumberTexts(t) && |v| == 8
    requires close == "" || close == ")}"
    requires ParsesCanonical(parse)
    requires forall i | 0 <= i < 8 :: parse(t[i]) == Ok(v[i]) && parse(" " + t[i]) == Ok(v[i])
    ensures RowsWith(PrintedRows(t, close), parse) == Ok(Some(v))
  {
    var rows := PrintedRows(t, close);
    forall k | 0 <= k < 4 ensures CornerWith(Items(rows), k, parse) == Ok((v[2 * k], v[2 * k + 1])) {
      PrintedCorner(t, v, close, parse, k);
    }
    RowsOfCorners(rows, v, parse);
  }

  /** Four rows whose corners read as the numbers give all eight. */
  lemma RowsOfCorners(rows: seq<string>, v: seq<Decimal>, parse: string -> Result<Decimal>)
    requires |rows| == 4 && |v| == 8
    requires ParsesCanonical(parse)
    requires forall k | 0 <= k < 4 :: CornerWith(Items(rows), k, parse) == Ok((v[2 * k], v[2 * k + 1]))
    ensures RowsWith(rows, parse) == Ok(Some(v))
  {
    RowsFromValues(RowCorners(Items(rows), parse), 0, v);
    assert v[0..] == v;
  }

  lemma PrintedCorner(t: seq<string>, v: seq<Decimal>, close: string, parse: string -> Result<Decimal>, k: nat)
    requires NumberTexts(t) && |v| == 8 && k < 4
    requires close == "" || close == ")}"
    requires ParsesCanonical(parse)
    requires parse(t[2 * k]) == Ok(v[2 * k]) && parse(" " + t[2 * k + 1]) == Ok(v[2 * k + 1])
    ensures CornerWith(Items(PrintedRows(t, close)), k, parse) == Ok((v[2 * k], v[2 * k + 1]))
  {
    var items := Items(PrintedRows(t, close));
    assert items[k] == RowItems(PrintedRow(t, k, close), k);
    RowCorner(items, k, t[2 * k], t[2 * k + 1], close, parse, v[2 * k], v[2 * k + 1]);
  }

  /** Row `k` of a printed array reads back as its two numbers. */
  lemma RowCorner(items: seq<seq<string>>, k: nat, x: string, y: string, close: string,
                  parse: string -> Result<Decimal>, a: Decimal, b: Decimal)
    requires k < 4 && k < |items| && items[k] == RowItems(RowText(k, x, y, close), k)
    requires NumberText(x) && NumberText(y)
    requires close == "" || close == ")}"
    requires ParsesCanonical(parse)
    requires parse(x) == Ok(a) && parse(" " + y) == Ok(b)
    ensures CornerWith(items, k, parse) == Ok((a, b))
  {
    if k < 3 {
      InnerRowItems(k, x, y, close);
    } else {
      LastRowItems(x, y, close);
      StripLastY(y);
    }
    CornerFromTexts(items, k, parse, x, " " + y, a, b);
  }

  /** The y text of row 3 loses its "]]" to the extra strip. */
  lemma StripLastY(y: string)
    requires NumberText(y)
    ensures Strip(" " + y + "]]", "]") == " " + y
  {
    NumberTextAvoids(y);
    assert (" " + y)[|" " + y| - 1] == y[|y| - 1];
    StripPadded("", " " + y, "]]", "]");
    assert " " + y + "]]" == "" + (" " + y) + "]]";
  }

  /** A row whose two texts parse gives the two numbers. */
  lemma CornerFromTexts(items: seq<seq<string>>, k: nat, parse: string -> Result<Decimal>,
                        xText: string, yText: string, a: Decimal, b: Decimal)
    requires ParsesCanonical(parse)
    requires k < |items| && |items[k]| >= 2 && items[k][0] == xText
    requires YText(items[k], k) == yText
    requires parse(xText) == Ok(a) && parse(yText) == Ok(b)
    ensures CornerWith(items, k, parse) == Ok((a, b))
  {
  }

  // ---------------------------------------------------------------------
  // A whole dictionary
  // ---------------------------------------------------------------------

  /**
   * The entries of a printed dictionary whose keys are `keys` and whose
   * boxes are `vs`, the numbers written as reprs: the last entry ends with
   * the dictionary's ")}", the others lose their ')' to the split.
   */
  function CraftEntries(keys: seq<string>, vs: seq<seq<Decimal>>): (r: seq<string>)
    requires |keys| == |vs| && forall i | 0 <= i < |vs| :: |vs[i]| == 8
    ensures |r| == |keys|
    ensures forall i | 0 <= i < |r| ::
      r[i] == CraftEntry(keys[i], Reprs(vs[i]), if i == |r| - 1 then ")}" else "")
  {
    seq(|keys|, i requires 0 <= i < |keys| =>
      CraftEntry(keys[i], Reprs(vs[i]), if i == |keys| - 1 then ")}" else ""))
  }

  /** The printed dictionary: its entries joined by "),". */
  function CraftDict(keys: seq<string>, vs: seq<seq<Decimal>>): string
    requires |keys| == |vs| && forall i | 0 <= i < |vs| :: |vs[i]| == 8
  {
    Join(CraftEntries(keys, vs), EntrySep)
  }

  /** The last entry is the others' form followed by ")}". */
  lemma CloseAppended(key: string, t: seq<string>)
    requires |t| == 8
    ensures CraftEntry(key, t, ")}") == CraftEntry(key, t, "") + ")}"
  {
    var open := PrintedRows(t, "");
    var closed := PrintedRows(t, ")}");
    assert closed[3] == open[3] + ")}";
    JoinExtendLast(open, closed, RowSep, ")}");
  }

  /** An entry that is not the last holds no ')'. */
  lemma EntryAvoidsParen(key: string, t: seq<string>)
    requires ')' !in key && NumberTexts(t)
    ensures ')' !in CraftEntry(key, t, "")
  {
    var rows := PrintedRows(t, "");
    forall k | 0 <= k < 4 ensures ')' !in rows[k] {
      RowAvoidsParen(k, t[2 * k], t[2 * k + 1]);
    }
    JoinAvoids(rows, RowSep, ')');
  }

  lemma RowAvoidsParen(k: nat, x: string, y: string)
    requires NumberText(x) && NumberText(y)
    ensures ')' !in RowText(k, x, y, "")
  {
    assert ')' !in x && ')' !in y;
    assert ')' !in RowOpen(k);
    assert ')' !in RowClose(k, "") by {
      if k >= 3 {
        assert ')' !in Dtype;
        assert RowClose(k, "") == "]]" + Dtype;
      }
    }
    assert RowText(k, x, y, "") == (RowOpen(k) + x + ", " + y) + RowClose(k, "");
  }

  /** `score.split('),')` gives back the printed entries. */
  lemma DictSplit(keys: seq<string>, vs: seq<seq<Decimal>>)
    requires |keys| == |vs| > 0
    requires forall i | 0 <= i < |keys| :: ')' !in keys[i]
    requires forall i | 0 <= i < |vs| :: |vs[i]| == 8 && AllCanonical(vs[i])
    ensures Split(CraftDict(keys, vs), EntrySep) == CraftEntries(keys, vs)
  {
    var entries := CraftEntries(keys, vs);
    var n := |entries|;
    forall i | 0 <= i < n ensures NumberTexts(Reprs(vs[i])) {
      forall j | 0 <= j < 8 ensures NumberText(Reprs(vs[i])[j]) {
        ReprIsNumberText(vs[i][j]);
      }
    }
    forall i | 0 <= i < n - 1 ensures ')' !in entries[i] {
      EntryAvoidsParen(keys[i], Reprs(vs[i]));
    }
    CloseAppended(keys[n - 1], Reprs(vs[n - 1]));
    EntryAvoidsParen(keys[n - 1], Reprs(vs[n - 1]));
    SplitEndAbsent(CraftEntry(keys[n - 1], Reprs(vs[n - 1]), ""), EntrySep, '}');
    assert [EntrySep[0], '}'] == ")}";
    SplitJoinLast(entries, EntrySep);
  }

  /**
   * End to end: for a dictionary printed from boxes `vs`, `generate_words`
   * succeeds and writes exactly one file per box that passes the guard,
   * named after that box.
   */
  lemma DictionaryFiles(stem: string, keys: seq<string>, vs: seq<seq<Decimal>>)
    requires |keys| == |vs| > 0
    requires forall i | 0 <= i < |keys| :: ':' !in keys[i] && ')' !in keys[i]
    requires forall i | 0 <= i < |vs| :: |vs[i]| == 8 && AllCanonical(vs[i])
    ensures GenerateWords(stem, CraftDict(keys, vs)).Ok?
    ensures forall name :: name in GenerateWords(stem, CraftDict(keys, vs)).value <==>
      exists i | 0 <= i < |vs| :: CropGuard(Corners(vs[i])) && name == FileName(stem, vs[i])
  {
    DictSplit(keys, vs);
    EntriesValues(keys, vs);
    FilesOfValues(stem, CraftEntries(keys, vs), vs);
  }

  /** Entries that read back as the boxes `vs` give one file per box that passes the guard. */
  lemma FilesOfValues(stem: string, entries: seq<string>, vs: seq<seq<Decimal>>)
    requires |entries| == |vs|
    requires forall i | 0 <= i < |vs| :: |vs[i]| == 8 && AllCanonical(vs[i])
    requires forall i | 0 <= i < |vs| :: EntryValues(entries[i]) == Ok(Some(vs[i]))
    ensures FilesOf(stem, entries).Ok?
    ensures forall name :: name in FilesOf(stem, entries).value <==>
      exists i | 0 <= i < |vs| :: CropGuard(Corners(vs[i])) && name == FileName(stem, vs[i])
  {
    var r := FilesOf(stem, entries);
    FilesWritten(stem, entries);
    forall name | name in r.value
      ensures exists i | 0 <= i < |vs| :: CropGuard(Corners(vs[i])) && name == FileName(stem, vs[i])
    {
      var i :| 0 <= i < |entries| && Written(stem, entries[i], name);
      WrittenOf(stem, entries[i], vs[i], name);
    }
    forall i | 0 <= i < |vs| && CropGuard(Corners(vs[i])) ensures FileName(stem, vs[i]) in r.value {
      WrittenOf(stem, entries[i], vs[i], FileName(stem, vs[i]));
    }
  }

  /** Every printed entry reads back as its box. */
  lemma EntriesValues(keys: seq<string>, vs: seq<seq<Decimal>>)
    requires |keys| == |vs|
    requires forall i | 0 <= i < |keys| :: ':' !in keys[i]
    requires forall i | 0 <= i < |vs| :: |vs[i]| == 8 && AllCanonical(vs[i])
    ensures forall i | 0 <= i < |vs| :: EntryValues(CraftEntries(keys, vs)[i]) == Ok(Some(vs[i]))
  {
    var entries := CraftEntries(keys, vs);
    forall i | 0 <= i < |entries| ensures EntryValues(entries[i]) == Ok(Some(vs[i])) {
      EntryRoundTrip(keys[i], vs[i], if i == |entries| - 1 then ")}" else "");
    }
  }

  /** For an entry read as `v`, the file written is the one named after `v`, if `v` passes the guard. */
  lemma WrittenOf(stem: string, entry: string, v: seq<Decimal>, name: string)
    requires EntryValues(entry) == Ok(Some(v))
    ensures Written(stem, entry, name) <==> CropGuard(Corners(v)) && name == FileName(stem, v)
  {
  }

  /** The OCR stage splits a written file name into the stem and the eight reprs, when the stem has no '_'. */
  lemma FileNameFields(stem: string, v: seq<Decimal>)
    requires '_' !in stem
    requires |v| == 8 && AllCanonical(v)
    ensures SplitImgName(FileName(stem, v)) == [stem] + Reprs(v)
  {
    var reprs := Reprs(v);
    var fields := [stem] + reprs;
    var name := FileName(stem, v);
    assert fields[1..] == reprs;
    assert Join(fields, "_") == stem + "_" + Join(reprs, "_");
    assert name[..|name| - 4] == Join(fields, "_");
    forall k | 0 <= k < |fields| ensures "_"[0] !in fields[k] {
      if k > 0 {
        ReprHasNoUnderscore(v[k - 1]);
      }
    }
    SplitJoin(fields, "_");
  }

  /**
   * A stem with one '_' in it is split too: the OCR stage sees its second
   * half where the first coordinate belongs, and every coordinate moves one
   * field to the right, so the last one is never read.
   */
  lemma FileNameSplitStem(a: string, b: string, v: seq<Decimal>)
    requires '_' !in a && '_' !in b
    requires |v| == 8 && AllCanonical(v)
    ensures SplitImgName(FileName(a + "_" + b, v)) == [a, b] + Reprs(v)
    ensures Box(SplitImgName(FileName(a + "_" + b, v))) == Box([a, b] + Reprs(v)[..7])
  {
    SplitStemFields(a, b, v);
    var reprs := Reprs(v);
    var fields := [a, b] + reprs;
    assert fields[..9] == [a, b] + reprs[..7];
    BoxPrefix(fields, [a, b] + reprs[..7]);
  }

  /** The '_'-split of a file name whose stem holds one '_'. */
  lemma SplitStemFields(a: string, b: string, v: seq<Decimal>)
    requires '_' !in a && '_' !in b
    requires |v| == 8 && AllCanonical(v)
    ensures SplitImgName(FileName(a + "_" + b, v)) == [a, b] + Reprs(v)
  {
    var reprs := Reprs(v);
    var fields := [a, b] + reprs;
    var name := FileName(a + "_" + b, v);
    assert fields[1..] == [b] + reprs && fields[2..] == reprs;
    assert Join(fields, "_") == a + "_" + b + "_" + Join(reprs, "_");
    assert name[..|name| - 4] == Join(fields, "_");
    forall k | 0 <= k < |fields| ensures "_"[0] !in fields[k] {
      if k > 1 {
        ReprHasNoUnderscore(v[k - 2]);
      }
    }
    SplitJoin(fields, "_");
  }

  /** `boxes` reads fields 1 to 8 only: whatever follows the ninth field is ignored. */
  lemma BoxFirstNine(fields: seq<string>)
    requires |fields| >= 9
    ensures Box(fields) == Box(fields[..9])
  {
    BoxWithFirstNine(fields, IntOfFloat);
  }

  lemma BoxPrefix(fields: seq<string>, head: seq<string>)
    requires |fields| >= 9 && fields[..9] == head
    ensures Box(fields) == Box(head)
  {
    BoxFirstNine(fields);
  }

  lemma BoxWithFirstNine(fields: seq<string>, conv: string -> Result<int>)
    requires |fields| >= 9
    ensures BoxWith(fields, conv) == BoxWith(fields[..9], conv)
  {
    var head := fields[..9];
    assert head[1] == fields[1] && head[2] == fields[2] && head[3] == fields[3] && head[4] == fields[4];
    assert head[5] == fields[5] && head[6] == fields[6] && head[7] == fields[7] && head[8] == fields[8];
  }

  /** Reading the eight reprs back with `int(float(...))` gives the truncated corners. */
  lemma BoxOfReprs(stem: string, v: seq<Decimal>)
    requires |v| == 8 && AllCanonical(v)
    ensures Box([stem] + Reprs(v)) == Ok(Corners(v))
  {
    var fields := [stem] + Reprs(v);
    var vals := TruncAll(v);
    forall k | 1 <= k <= 8 ensures IntOfFloat(fields[k]) == Ok(vals[k - 1]) {
      assert fields[k] == Repr(v[k - 1]);
      IntOfFloatRepr(v[k - 1]);
    }
    BoxWithValues(fields, IntOfFloat, vals);
    CornersOfTruncated(v);
  }

  /** `int(x)` of every number. */
  function TruncAll(v: seq<Decimal>): (r: seq<int>)
    requires AllCanonical(v)
    ensures |r| == |v| && forall i | 0 <= i < |v| :: r[i] == Trunc(v[i])
  {
    seq(|v|, i requires 0 <= i < |v| => Trunc(v[i]))
  }

  lemma CornersOfTruncated(v: seq<Decimal>)
    requires |v| == 8 && AllCanonical(v)
    ensures var t := TruncAll(v);
      Corners(v) == [Point(t[0], t[1]), Point(t[2], t[3]), Point(t[4], t[5]), Point(t[6], t[7])]
  {
  }

  /**
   * File-name round trip: for a stem without '_', the OCR stage reads the
   * box's four corners back exactly from the name.
   */
  lemma FileNameRoundTrip(stem: string, v: seq<Decimal>)
    requires '_' !in stem
    requires |v| == 8 && AllCanonical(v)
    ensures Box(SplitImgName(FileName(stem, v))) == Ok(Corners(v))
  {
    FileNameFields(stem, v);
    BoxOfReprs(stem, v);
  }

  /**
   * Every file `generate_words` writes is read back by the OCR stage as the
   * corners of a box that passed the guard, so no coordinate it reads is 0.
   */
  lemma WrittenFilesReadBack(stem: string, score: string, name: string)
    requires '_' !in stem
    requires GenerateWords(stem, score).Ok? && name in GenerateWords(stem, score).value
    ensures exists pts :: Box(SplitImgName(name)) == Ok(pts) && |pts| == 4 && NpAll(pts)
  {
    var entries := Split(score, EntrySep);
    FilesWritten(stem, entries);
    var i :| 0 <= i < |entries| && Written(stem, entries[i], name);
    var v := EntryValues(entries[i]).value.value;
    FileNameRoundTrip(stem, v);
    assert Box(SplitImgName(name)) == Ok(Corners(v));
  }
}
