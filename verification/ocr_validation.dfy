/**
 * `check_valid_predicted`: whether the text read from a card is that of a
 * Vietnamese ID card. The text loses its Vietnamese accents through two
 * parallel tables, is lower-cased, and is searched for a fixed list of
 * phrases.
 */
module OcrValidation {
  import opened Wrappers
  import opened Seqs
  import opened Text

  // ---------------------------------------------------------------------
  // The two tables of `remove_accents`, sixteen letters to a chunk
  // ---------------------------------------------------------------------

  const Accented0: string := "ÀÁÂÃÈÉÊÌÍÒÓÔÕÙÚÝ"
  const Accented1: string := "àáâãèéêìíòóôõùúý"
  const Accented2: string := "ĂăĐđĨĩŨũƠơƯưẠạẢả"
  const Accented3: string := "ẤấẦầẨẩẪẫẬậẮắẰằẲẳ"
  const Accented4: string := "ẴẵẶặẸẹẺẻẼẽẾếỀềỂể"
  const Accented5: string := "ỄễỆệỈỉỊịỌọỎỏỐốỒồ"
  const Accented6: string := "ỔổỖỗỘộỚớỜờỞởỠỡỢợ"
  const Accented7: string := "ỤụỦủỨứỪừỬửỮữỰựỲỳ"
  const Accented8: string := "ỴỵỶỷỸỹ"

  const Plain0: string := "AAAAEEEIIOOOOUUY"
  const Plain1: string := "aaaaeeeiioooouuy"
  const Plain2: string := "AaDdIiUuOoUuAaAa"
  const Plain3: string := "AaAaAaAaAaAaAaAa"
  const Plain4: string := "AaAaEeEeEeEeEeEe"
  const Plain5: string := "EeEeIiIiOoOoOoOo"
  const Plain6: string := "OoOoOoOoOoOoOoOo"
  const Plain7: string := "UuUuUuUuUuUuUuYy"
  const Plain8: string := "YyYyYy"

  /** `s1`: the accented letters, in increasing code-point order. */
  const Accented: string := Accented0 + Accented1 + Accented2 + Accented3 + Accented4 + Accented5 + Accented6 + Accented7 + Accented8

  /** `s0`: for each letter of `s1`, the plain letter at the same index. */
  const Plain: string := Plain0 + Plain1 + Plain2 + Plain3 + Plain4 + Plain5 + Plain6 + Plain7 + Plain8

  /** The letters of `s1` in chunks of sixteen. */
  const AccentedChunks: seq<string> := [Accented0, Accented1, Accented2, Accented3, Accented4, Accented5, Accented6, Accented7, Accented8]

  /** The letters of `s0` in chunks of sixteen, each below the accented letter it replaces. */
  const PlainChunks: seq<string> := [Plain0, Plain1, Plain2, Plain3, Plain4, Plain5, Plain6, Plain7, Plain8]

  /** Nine chunks flattened are the nine strings concatenated. */
  lemma FlattenNine(c0: string, c1: string, c2: string, c3: string, c4: string, c5: string, c6: string, c7: string, c8: string)
    ensures Flatten([c0, c1, c2, c3, c4, c5, c6, c7, c8]) == c0 + c1 + c2 + c3 + c4 + c5 + c6 + c7 + c8
  {
    var cs := [c0, c1, c2, c3, c4, c5, c6, c7, c8];
    assert cs[..0] == [];
    FlattenPrefix(cs, 0);
    FlattenPrefix(cs, 1);
    FlattenPrefix(cs, 2);
    FlattenPrefix(cs, 3);
    FlattenPrefix(cs, 4);
    FlattenPrefix(cs, 5);
    FlattenPrefix(cs, 6);
    FlattenPrefix(cs, 7);
    FlattenPrefix(cs, 8);
    assert cs[..9] == cs;
  }

  /** Flattening one more chunk of a prefix appends that chunk. */
  lemma FlattenPrefix(cs: seq<string>, i: nat)
    requires i < |cs|
    ensures Flatten(cs[..i + 1]) == Flatten(cs[..i]) + cs[i]
  {
    assert cs[..i + 1][..i] == cs[..i];
  }

  /** The tables are their chunks one after another. */
  lemma TablesFlatten()
    ensures Accented == Flatten(AccentedChunks) && Plain == Flatten(PlainChunks)
  {
    FlattenNine(Accented0, Accented1, Accented2, Accented3, Accented4, Accented5, Accented6, Accented7, Accented8);
    FlattenNine(Plain0, Plain1, Plain2, Plain3, Plain4, Plain5, Plain6, Plain7, Plain8);
  }

  /** Every chunk but the last has sixteen letters. */
  ghost predicate FullChunks(chunks: seq<string>) {
    forall j | 0 <= j < |chunks| - 1 :: |chunks[j]| == 16
  }

  /** Chunks of sixteen letters each flatten to sixteen letters per chunk. */
  lemma {:induction false} FullLength(chunks: seq<string>)
    requires forall j | 0 <= j < |chunks| :: |chunks[j]| == 16
    ensures |Flatten(chunks)| == 16 * |chunks|
    decreases |chunks|
  {
    if |chunks| > 0 {
      var init := chunks[..|chunks| - 1];
      assert forall j | 0 <= j < |init| :: init[j] == chunks[j];
      FullLength(init);
    }
  }

  lemma FlattenLength(chunks: seq<string>)
    requires |chunks| > 0 && FullChunks(chunks)
    ensures |Flatten(chunks)| == 16 * (|chunks| - 1) + |chunks[|chunks| - 1]|
  {
    var init := chunks[..|chunks| - 1];
    assert forall j | 0 <= j < |init| :: init[j] == chunks[j];
    FullLength(init);
  }

  /** Letter `k` of chunk `j` sits at index `16 * j + k` of the flattened string. */
  lemma {:induction false} FlattenAt(chunks: seq<string>, j: nat, k: nat)
    requires j < |chunks| && k < |chunks[j]| && FullChunks(chunks)
    ensures 16 * j + k < |Flatten(chunks)| && Flatten(chunks)[16 * j + k] == chunks[j][k]
    decreases |chunks|
  {
    var init := chunks[..|chunks| - 1];
    assert forall m | 0 <= m < |init| :: init[m] == chunks[m];
    if j == |chunks| - 1 {
      FullLength(init);
    } else {
      FlattenAt(init, j, k);
    }
  }

  /** Every letter lies between `lo` and `hi`. */
  predicate Within(s: string, lo: char, hi: char) {
    forall k | 0 <= k < |s| :: lo <= s[k] <= hi
  }

  lemma {:induction false} FlattenWithin(chunks: seq<string>, lo: char, hi: char)
    requires forall j | 0 <= j < |chunks| :: Within(chunks[j], lo, hi)
    ensures Within(Flatten(chunks), lo, hi)
    decreases |chunks|
  {
    if |chunks| > 0 {
      var init := chunks[..|chunks| - 1];
      var last := chunks[|chunks| - 1];
      assert forall j | 0 <= j < |init| :: init[j] == chunks[j];
      FlattenWithin(init, lo, hi);
      var s := Flatten(chunks);
      forall k | 0 <= k < |s| ensures lo <= s[k] <= hi {
        if k >= |Flatten(init)| {
          assert s[k] == last[k - |Flatten(init)|];
        }
      }
    }
  }

  /** Each letter is below the next one. */
  predicate StepsUp(s: string) {
    forall k | 0 < k < |s| :: s[k - 1] < s[k]
  }

  /** Each letter is below every later one. */
  ghost predicate Ascending(s: string) {
    forall i, j | 0 <= i < j < |s| :: s[i] < s[j]
  }

  lemma {:induction false} StepsUpAscending(s: string)
    requires StepsUp(s)
    ensures Ascending(s)
    decreases |s|
  {
    if |s| > 1 {
      var init := s[..|s| - 1];
      assert StepsUp(init) by {
        forall k | 0 < k < |init| ensures init[k - 1] < init[k] {
          assert init[k - 1] == s[k - 1] && init[k] == s[k];
        }
      }
      StepsUpAscending(init);
      forall i, j | 0 <= i < j < |s| ensures s[i] < s[j] {
        if j < |s| - 1 {
          assert s[i] == init[i] && s[j] == init[j];
        } else if i < |s| - 2 {
          assert s[i] == init[i] && s[|s| - 2] == init[|s| - 2];
        }
      }
    }
  }

  lemma AscendingConcat(a: string, b: string)
    requires Ascending(a) && Ascending(b)
    requires |a| > 0 && |b| > 0 && a[|a| - 1] < b[0]
    ensures Ascending(a + b)
  {
    var s := a + b;
    forall i, j | 0 <= i < j < |s| ensures s[i] < s[j] {
      if j < |a| {
        assert s[i] == a[i] && s[j] == a[j];
      } else if i >= |a| {
        assert s[i] == b[i - |a|] && s[j] == b[j - |a|];
      } else {
        assert s[i] == a[i] && s[j] == b[j - |a|];
        assert a[i] <= a[|a| - 1] && b[0] <= b[j - |a|];
      }
    }
  }

  /** Chunks that each rise, and that each end below where the next one starts, flatten to a rising string. */
  lemma {:induction false} FlattenAscending(chunks: seq<string>)
    requires forall j | 0 <= j < |chunks| :: |chunks[j]| > 0 && StepsUp(chunks[j])
    requires forall j | 0 < j < |chunks| :: chunks[j - 1][|chunks[j - 1]| - 1] < chunks[j][0]
    ensures Ascending(Flatten(chunks))
    ensures |chunks| > 0 ==> |Flatten(chunks)| > 0 && Last(Flatten(chunks)) == Last(chunks[|chunks| - 1])
    decreases |chunks|
  {
    if |chunks| > 0 {
      var init := chunks[..|chunks| - 1];
      var last := chunks[|chunks| - 1];
      assert forall j | 0 <= j < |init| :: init[j] == chunks[j];
      FlattenAscending(init);
      StepsUpAscending(last);
      if |init| > 0 {
        assert Last(init[|init| - 1]) < last[0];
        AscendingConcat(Flatten(init), last);
      } else {
        assert Flatten(chunks) == last;
      }
    }
  }

  lemma Chunk0()
    ensures |AccentedChunks[0]| == |PlainChunks[0]|
    ensures Within(PlainChunks[0], 'A', 'z') && Within(AccentedChunks[0], 'À', 'ỹ')
    ensures StepsUp(AccentedChunks[0])
  {
  }

  lemma Chunk1()
    ensures |AccentedChunks[1]| == |PlainChunks[1]|
    ensures Within(PlainChunks[1], 'A', 'z') && Within(AccentedChunks[1], 'À', 'ỹ')
    ensures StepsUp(AccentedChunks[1])
  {
  }

  lemma Chunk2()
    ensures |AccentedChunks[2]| == |PlainChunks[2]|
    ensures Within(PlainChunks[2], 'A', 'z') && Within(AccentedChunks[2], 'À', 'ỹ')
    ensures StepsUp(AccentedChunks[2])
  {
  }

  lemma Chunk3()
    ensures |AccentedChunks[3]| == |PlainChunks[3]|
    ensures Within(PlainChunks[3], 'A', 'z') && Within(AccentedChunks[3], 'À', 'ỹ')
    ensures StepsUp(AccentedChunks[3])
  {
  }

  lemma Chunk4()
    ensures |AccentedChunks[4]| == |PlainChunks[4]|
    ensures Within(PlainChunks[4], 'A', 'z') && Within(AccentedChunks[4], 'À', 'ỹ')
    ensures StepsUp(AccentedChunks[4])
  {
  }

  lemma Chunk5()
    ensures |AccentedChunks[5]| == |PlainChunks[5]|
    ensures Within(PlainChunks[5], 'A', 'z') && Within(AccentedChunks[5], 'À', 'ỹ')
    ensures StepsUp(AccentedChunks[5])
  {
  }

  lemma Chunk6()
    ensures |AccentedChunks[6]| == |PlainChunks[6]|
    ensures Within(PlainChunks[6], 'A', 'z') && Within(AccentedChunks[6], 'À', 'ỹ')
    ensures StepsUp(AccentedChunks[6])
  {
  }

  lemma Chunk7()
    ensures |AccentedChunks[7]| == |PlainChunks[7]|
    ensures Within(PlainChunks[7], 'A', 'z') && Within(AccentedChunks[7], 'À', 'ỹ')
    ensures StepsUp(AccentedChunks[7])
  {
  }

  lemma Chunk8()
    ensures |AccentedChunks[8]| == |PlainChunks[8]|
    ensures Within(PlainChunks[8], 'A', 'z') && Within(AccentedChunks[8], 'À', 'ỹ')
    ensures StepsUp(AccentedChunks[8])
  {
  }

  /** Facts about each chunk, and about where one chunk ends and the next begins. */
  lemma ChunkFacts()
    ensures |AccentedChunks| == |PlainChunks| == 9
    ensures forall j | 0 <= j < 9 :: |AccentedChunks[j]| == |PlainChunks[j]| > 0
    ensures forall j | 0 <= j < 9 :: Within(PlainChunks[j], 'A', 'z') && Within(AccentedChunks[j], 'À', 'ỹ')
    ensures forall j | 0 <= j < 9 :: StepsUp(AccentedChunks[j])
    ensures forall j | 0 < j < 9 :: AccentedChunks[j - 1][|AccentedChunks[j - 1]| - 1] < AccentedChunks[j][0]
    ensures FullChunks(AccentedChunks) && FullChunks(PlainChunks)
  {
    Chunk0();
    Chunk1();
    Chunk2();
    Chunk3();
    Chunk4();
    Chunk5();
    Chunk6();
    Chunk7();
    Chunk8();
  }

  /** Both tables have 134 letters. */
  lemma TableSizes()
    ensures |Accented| == 134 && |Plain| == 134
  {
    ChunkFacts();
    TablesFlatten();
    FlattenLength(AccentedChunks);
    FlattenLength(PlainChunks);
  }

  /** The plain letters are ASCII letters; the accented ones lie at U+00C0 or above, so the tables share no letter. */
  lemma TablesApart()
    ensures Within(Plain, 'A', 'z') && Within(Accented, 'À', 'ỹ')
    ensures forall c | c in Plain :: c !in Accented
  {
    ChunkFacts();
    TablesFlatten();
    FlattenWithin(PlainChunks, 'A', 'z');
    FlattenWithin(AccentedChunks, 'À', 'ỹ');
  }

  /** `s1` is strictly increasing, so no letter occurs in it twice. */
  lemma AccentedAscending()
    ensures Ascending(Accented)
  {
    ChunkFacts();
    TablesFlatten();
    FlattenAscending(AccentedChunks);
  }

  /** Letter `k` of chunk `j` of `s1` and of `s0` sit at the same index of the two tables. */
  lemma TablesAt(j: nat, k: nat)
    requires j < 9 && k < |AccentedChunks[j]|
    ensures 16 * j + k < |Accented| && Accented[16 * j + k] == AccentedChunks[j][k]
    ensures 16 * j + k < |Plain| && Plain[16 * j + k] == PlainChunks[j][k]
  {
    ChunkFacts();
    TablesFlatten();
    FlattenAt(AccentedChunks, j, k);
    FlattenAt(PlainChunks, j, k);
  }

  /** Python's `s.index(c)` for a character known to occur: its first position. */
  function IndexOf(s: string, c: char): (i: nat)
    requires c in s
    ensures i < |s| && s[i] == c
    ensures forall j | 0 <= j < i :: s[j] != c
    decreases |s|
  {
    if s[0] == c then 0
    else
      var i := IndexOf(s[1..], c);
      assert forall j | 1 <= j <= i :: s[j] == s[1..][j - 1];
      1 + i
  }

  /** In a strictly increasing string, the first position of a letter is its only one. */
  lemma IndexOfAscending(s: string, i: nat)
    requires Ascending(s) && i < |s|
    ensures IndexOf(s, s[i]) == i
  {
  }

  /** Every letter of `s1` is found at its own index. */
  lemma AccentedIndex()
    ensures forall i | 0 <= i < |Accented| :: IndexOf(Accented, Accented[i]) == i
  {
    AccentedAscending();
    forall i | 0 <= i < |Accented| ensures IndexOf(Accented, Accented[i]) == i {
      IndexOfAscending(Accented, i);
    }
  }

  /**
   * One step of the loop: a letter of `s1` becomes `s0[s1.index(c)]`, which
   * raises IndexError if `s0` is too short; any other character is kept.
   * The tables have the same length, so the step always succeeds.
   */
  function Lookup(c: char): (r: Result<char>)
    ensures r.Ok?
  {
    if c in Accented then
      var i := IndexOf(Accented, c);
      TableSizes();
      if i < |Plain| then Ok(Plain[i]) else Err(IndexError)
    else Ok(c)
  }

  /**
   * The letter at index `i` of `s1` becomes the letter at index `i` of
   * `s0`, every other character is kept, and no letter of `s1` comes out.
   */
  lemma LookupMeaning(c: char)
    ensures c !in Accented ==> Lookup(c).value == c
    ensures forall i | 0 <= i < |Accented| && Accented[i] == c :: Lookup(c).value == Plain[i]
    ensures Lookup(c).value !in Accented
  {
    TablesApart();
    AccentedIndex();
    if c in Accented {
      assert Lookup(c).value in Plain;
    }
  }

  /** The loop `for c in input_str`, appending one character per step; the first exception ends it. */
  function Translate(s: string): (r: Result<string>)
    ensures r.Ok?
    ensures |r.value| == |s|
    ensures forall k | 0 <= k < |s| :: r.value[k] == Lookup(s[k]).value
    decreases |s|
  {
    if |s| == 0 then Ok("")
    else
      match Translate(s[..|s| - 1])
      case Err(e) => Err(e)
      case Ok(t) =>
        match Lookup(s[|s| - 1])
        case Err(e) => Err(e)
        case Ok(c) =>
          TranslateSnoc(s, t, c);
          Ok(t + [c])
  }

  /** Appending the lookup of the last character extends a translation of all the others. */
  lemma TranslateSnoc(s: string, t: string, c: char)
    requires |s| > 0 && |t| == |s| - 1 && c == Lookup(s[|s| - 1]).value
    requires forall k | 0 <= k < |s| - 1 :: t[k] == Lookup(s[..|s| - 1][k]).value
    ensures forall k | 0 <= k < |s| :: (t + [c])[k] == Lookup(s[k]).value
  {
    forall k | 0 <= k < |s| ensures (t + [c])[k] == Lookup(s[k]).value {
      if k < |s| - 1 {
        assert s[..|s| - 1][k] == s[k];
      }
    }
  }

  /**
   * `remove_accents`: the translated string, or " " when the loop raised.
   * The result has the input's length, maps each letter of `s1` to the
   * letter of `s0` at the same index, keeps every other character, and
   * holds no letter of `s1`.
   */
  function RemoveAccents(s: string): (r: string)
    ensures |r| == |s|
    ensures forall k | 0 <= k < |s| && s[k] !in Accented :: r[k] == s[k]
    ensures forall k, i | 0 <= k < |s| && 0 <= i < |Accented| && s[k] == Accented[i] :: r[k] == Plain[i]
    ensures forall k | 0 <= k < |r| :: r[k] !in Accented
  {
    var t := Translate(s);
    forall k | 0 <= k < |s| {
      LookupMeaning(s[k]);
    }
    if t.Ok? then t.value else " "
  }

  /** The Python loop itself, building the string one character at a time. */
  method RemoveAccentsLoop(input: string) returns (s: string)
    ensures s == RemoveAccents(input)
  {
    TableSizes();
    s := "";
    for i := 0 to |input|
      invariant Translate(input[..i]) == Ok(s)
    {
      var c := input[i];
      if c in Accented {
        var j := IndexOf(Accented, c);
        s := s + [Plain[j]];
      } else {
        s := s + [c];
      }
      assert input[..i + 1][..i] == input[..i];
    }
    assert input[..|input|] == input;
  }

  /** Removing accents twice is removing them once. */
  lemma RemoveAccentsIdempotent(s: string)
    ensures RemoveAccents(RemoveAccents(s)) == RemoveAccents(s)
  {
    var r := RemoveAccents(s);
    assert forall k | 0 <= k < |r| :: r[k] !in Accented;
  }

  /** The letter `c` at place `k` of chunk `j` of `s1` becomes the letter `p` at the same place of `s0`. */
  lemma LookupIn(j: nat, k: nat, c: char, p: char)
    requires j < 9 && k < |AccentedChunks[j]|
    requires AccentedChunks[j][k] == c && k < |PlainChunks[j]| && PlainChunks[j][k] == p
    ensures Lookup(c) == Ok(p)
  {
    TablesAt(j, k);
    LookupMeaning(c);
  }

  /** A character below U+00C0 is kept. */
  lemma LookupAscii(c: char)
    requires c < 'À'
    ensures Lookup(c) == Ok(c)
  {
    TablesApart();
    LookupMeaning(c);
  }

  /** Each character of the result is the lookup of the input character at the same place. */
  lemma RemoveAccentsAt(s: string)
    ensures forall k | 0 <= k < |s| :: RemoveAccents(s)[k] == Lookup(s[k]).value
  {
  }

  /** 'Đ', the crossed D, becomes 'D'. */
  lemma RemoveAccentsExampleStroke()
    ensures RemoveAccents("Đ") == "D"
  {
    LookupIn(2, 2, 'Đ', 'D');
    RemoveAccentsAt("Đ");
  }

  /** 'ư', u with a horn, becomes 'u'. */
  lemma RemoveAccentsExampleHorn()
    ensures RemoveAccents("ư") == "u"
  {
    LookupIn(2, 11, 'ư', 'u');
    RemoveAccentsAt("ư");
  }

  /** 'Ố', capital O with circumflex and acute, becomes 'O'. */
  lemma RemoveAccentsExampleStacked()
    ensures RemoveAccents("Ố") == "O"
  {
    LookupIn(5, 12, 'Ố', 'O');
    RemoveAccentsAt("Ố");
  }

  // ---------------------------------------------------------------------
  // The phrase test
  // ---------------------------------------------------------------------

  /** The twelve phrases of the `or` chain, in the order the chain evaluates them. */
  const Phrases: seq<string> := [
    "chung minh nhan dan", "can cuoc cong dan", "can cuoc cong", "can cuoc",
    "cancuocongidan", "identity card", "canguociconidan", "canicuocicongidan",
    "cong dan", "chung minh nhan", "chung minh", "citizen"]

  /** The eight phrases the others reduce to. */
  const CorePhrases: seq<string> := [
    "chung minh", "can cuoc", "cong dan", "identity card", "citizen",
    "cancuocongidan", "canguociconidan", "canicuocicongidan"]

  /** `ps[0] in t or ps[1] in t or ...`, evaluated left to right. */
  function AnyContained(t: string, ps: seq<string>): (r: bool)
    ensures r <==> exists i | 0 <= i < |ps| :: Contains(t, ps[i])
    decreases |ps|
  {
    if |ps| == 0 then false
    else
      var rest := AnyContained(t, ps[1..]);
      assert forall i | 1 <= i < |ps| :: ps[i] == ps[1..][i - 1];
      Contains(t, ps[0]) || rest
  }

  /** `check_valid_predicted`: accents removed, lower-cased, and one of the twelve phrases found. */
  function CheckValidPredicted(straighten: string): (r: bool)
    ensures r <==> exists i | 0 <= i < |Phrases| :: Contains(Lower(RemoveAccents(straighten)), Phrases[i])
  {
    AnyContained(Lower(RemoveAccents(straighten)), Phrases)
  }

  /** Each of the twelve phrases starts with one of the eight: the other four add nothing. */
  lemma PhrasesReduce()
    ensures forall i | 0 <= i < |Phrases| :: exists j | 0 <= j < |CorePhrases| :: CorePhrases[j] <= Phrases[i]
    ensures forall j | 0 <= j < |CorePhrases| :: CorePhrases[j] in Phrases
  {
    assert CorePhrases[0] <= Phrases[0] && CorePhrases[1] <= Phrases[1];
    assert CorePhrases[1] <= Phrases[2] && CorePhrases[1] <= Phrases[3];
    assert CorePhrases[5] <= Phrases[4] && CorePhrases[3] <= Phrases[5];
    assert CorePhrases[6] <= Phrases[6] && CorePhrases[7] <= Phrases[7];
    assert CorePhrases[2] <= Phrases[8] && CorePhrases[0] <= Phrases[9];
    assert CorePhrases[0] <= Phrases[10] && CorePhrases[4] <= Phrases[11];
    assert CorePhrases[0] == Phrases[10] && CorePhrases[1] == Phrases[3] && CorePhrases[2] == Phrases[8];
    assert CorePhrases[3] == Phrases[5] && CorePhrases[4] == Phrases[11] && CorePhrases[5] == Phrases[4];
    assert CorePhrases[6] == Phrases[6] && CorePhrases[7] == Phrases[7];
  }

  /** The test accepts exactly the texts that contain one of the eight core phrases. */
  lemma CheckValidCore(straighten: string)
    ensures CheckValidPredicted(straighten) <==>
      exists j | 0 <= j < |CorePhrases| :: Contains(Lower(RemoveAccents(straighten)), CorePhrases[j])
  {
    PhraseListsAgree(Lower(RemoveAccents(straighten)));
  }

  /** A text contains one of the twelve phrases exactly when it contains one of the eight. */
  lemma PhraseListsAgree(t: string)
    ensures (exists i | 0 <= i < |Phrases| :: Contains(t, Phrases[i])) <==>
            (exists j | 0 <= j < |CorePhrases| :: Contains(t, CorePhrases[j]))
  {
    PhrasesReduce();
    if exists i | 0 <= i < |Phrases| :: Contains(t, Phrases[i]) {
      var i :| 0 <= i < |Phrases| && Contains(t, Phrases[i]);
      var j :| 0 <= j < |CorePhrases| && CorePhrases[j] <= Phrases[i];
      ContainsPrefix(t, Phrases[i], CorePhrases[j]);
    }
    if exists j | 0 <= j < |CorePhrases| :: Contains(t, CorePhrases[j]) {
      var j :| 0 <= j < |CorePhrases| && Contains(t, CorePhrases[j]);
      var i :| 0 <= i < |Phrases| && Phrases[i] == CorePhrases[j];
    }
  }

  /** A text made only of ASCII characters has no accents to remove. */
  lemma AsciiUnchanged(s: string)
    requires forall k | 0 <= k < |s| :: s[k] < 'À'
    ensures RemoveAccents(s) == s
  {
    TablesApart();
    forall k | 0 <= k < |s| ensures s[k] !in Accented {
    }
  }

  /** A text that reads as one of the phrases once accents are removed and letters lower-cased is accepted. */
  lemma AcceptsPhrase(s: string, i: nat)
    requires i < |Phrases| && Lower(RemoveAccents(s)) == Phrases[i]
    ensures CheckValidPredicted(s)
  {
    assert Phrases[i] <= Phrases[i];
  }

  /** A text whose accent-free, lower-cased form is empty is rejected. */
  lemma RejectsEmpty(s: string)
    requires Lower(RemoveAccents(s)) == ""
    ensures !CheckValidPredicted(s)
  {
    forall i | 0 <= i < |Phrases| ensures !Contains("", Phrases[i]) {
      EmptyContainsNothing(Phrases[i]);
    }
  }

  /** Each character of `s` is sent by `f` to the character of `r` at the same place. */
  predicate LooksUpAs(f: char -> Result<char>, s: string, r: string)
    decreases |s|
  {
    |s| == |r| && (|s| == 0 || (f(s[0]) == Ok(r[0]) && LooksUpAs(f, s[1..], r[1..])))
  }

  /** Character-by-character lookups determine the whole result. */
  lemma {:induction false} LooksUpAsRemoveAccents(s: string, r: string)
    requires LooksUpAs(Lookup, s, r)
    ensures RemoveAccents(s) == r
    decreases |s|
  {
    if |s| > 0 {
      LooksUpAsRemoveAccents(s[1..], r[1..]);
      RemoveAccentsAt(s);
      RemoveAccentsAt(s[1..]);
      var t := RemoveAccents(s);
      forall k | 0 <= k < |s| ensures t[k] == r[k] {
        if k > 0 {
          assert s[1..][k - 1] == s[k];
        }
      }
    }
  }

  /** One more character in front. */
  lemma LooksUpAsCons(f: char -> Result<char>, c: char, p: char, s: string, r: string)
    requires f(c) == Ok(p) && LooksUpAs(f, s, r)
    ensures LooksUpAs(f, [c] + s, [p] + r)
  {
    assert ([c] + s)[1..] == s && ([p] + r)[1..] == r;
  }

  /** Lookups of two strings side by side are the lookups of their concatenation. */
  lemma {:induction false} LooksUpAsConcat(f: char -> Result<char>, s1: string, r1: string, s2: string, r2: string)
    requires LooksUpAs(f, s1, r1) && LooksUpAs(f, s2, r2)
    ensures LooksUpAs(f, s1 + s2, r1 + r2)
    decreases |s1|
  {
    if |s1| == 0 {
      assert s1 + s2 == s2 && r1 + r2 == r2;
    } else {
      LooksUpAsConcat(f, s1[1..], r1[1..], s2, r2);
      assert (s1 + s2)[0] == s1[0] && (s1 + s2)[1..] == s1[1..] + s2;
      assert (r1 + r2)[0] == r1[0] && (r1 + r2)[1..] == r1[1..] + r2;
    }
  }

  /** The heading printed on the card, word by word. */
  const Heading: string := "CĂN " + "CƯỚC " + "CÔNG " + "DÂN"

  /** The heading without its accents. */
  const HeadingPlain: string := "CAN " + "CUOC " + "CONG " + "DAN"

  /** Any lookup that sends the heading's letters to the plain ones sends the heading to its plain form. */
  lemma HeadingLooksUp(f: char -> Result<char>)
    requires f('Ă') == Ok('A') && f('Ư') == Ok('U') && f('Ớ') == Ok('O') && f('Ô') == Ok('O') && f('Â') == Ok('A')
    requires f('C') == Ok('C') && f('N') == Ok('N') && f(' ') == Ok(' ') && f('G') == Ok('G') && f('D') == Ok('D')
    ensures LooksUpAs(f, Heading, HeadingPlain)
  {
    LooksUpAsCons(f, ' ', ' ', "", "");
    LooksUpAsCons(f, 'N', 'N', " ", " ");
    LooksUpAsCons(f, 'Ă', 'A', "N ", "N ");
    LooksUpAsCons(f, 'C', 'C', "ĂN ", "AN ");
    LooksUpAsCons(f, ' ', ' ', "", "");
    LooksUpAsCons(f, 'C', 'C', " ", " ");
    LooksUpAsCons(f, 'Ớ', 'O', "C ", "C ");
    LooksUpAsCons(f, 'Ư', 'U', "ỚC ", "OC ");
    LooksUpAsCons(f, 'C', 'C', "ƯỚC ", "UOC ");
    LooksUpAsCons(f, ' ', ' ', "", "");
    LooksUpAsCons(f, 'G', 'G', " ", " ");
    LooksUpAsCons(f, 'N', 'N', "G ", "G ");
    LooksUpAsCons(f, 'Ô', 'O', "NG ", "NG ");
    LooksUpAsCons(f, 'C', 'C', "ÔNG ", "ONG ");
    LooksUpAsCons(f, 'N', 'N', "", "");
    LooksUpAsCons(f, 'Â', 'A', "N", "N");
    LooksUpAsCons(f, 'D', 'D', "ÂN", "AN");
    LooksUpAsConcat(f, "CĂN ", "CAN ", "CƯỚC ", "CUOC ");
    LooksUpAsConcat(f, "CĂN " + "CƯỚC ", "CAN " + "CUOC ", "CÔNG ", "CONG ");
    LooksUpAsConcat(f, "CĂN " + "CƯỚC " + "CÔNG ", "CAN " + "CUOC " + "CONG ", "DÂN", "DAN");
  }

  /** 'Ă', A with breve, becomes 'A'. */
  lemma LookupABreve()
    ensures Lookup('Ă') == Ok('A')
  {
    LookupIn(2, 0, 'Ă', 'A');
  }

  /** 'Ư', U with horn, becomes 'U'. */
  lemma LookupUHorn()
    ensures Lookup('Ư') == Ok('U')
  {
    LookupIn(2, 10, 'Ư', 'U');
  }

  /** 'Ớ', O with horn and acute, becomes 'O'. */
  lemma LookupOHornAcute()
    ensures Lookup('Ớ') == Ok('O')
  {
    LookupIn(6, 6, 'Ớ', 'O');
  }

  /** 'Ô', O with circumflex, becomes 'O'. */
  lemma LookupOCircumflex()
    ensures Lookup('Ô') == Ok('O')
  {
    LookupIn(0, 11, 'Ô', 'O');
  }

  /** 'Â', A with circumflex, becomes 'A'. */
  lemma LookupACircumflex()
    ensures Lookup('Â') == Ok('A')
  {
    LookupIn(0, 2, 'Â', 'A');
  }

  /** The unaccented letters of the heading. */
  lemma HeadingPlainLetters()
    ensures Lookup('C') == Ok('C') && Lookup('N') == Ok('N') && Lookup(' ') == Ok(' ') && Lookup('G') == Ok('G') && Lookup('D') == Ok('D')
  {
    LookupAscii('C');
    LookupAscii('N');
    LookupAscii(' ');
    LookupAscii('G');
    LookupAscii('D');
  }

  /** The printed heading loses its accents letter by letter. */
  lemma HeadingWithoutAccents()
    ensures RemoveAccents(Heading) == HeadingPlain
  {
    LookupABreve();
    LookupUHorn();
    LookupOHornAcute();
    LookupOCircumflex();
    LookupACircumflex();
    HeadingPlainLetters();
    HeadingLooksUp(Lookup);
    LooksUpAsRemoveAccents(Heading, HeadingPlain);
  }

  lemma HeadingLower()
    ensures Lower(HeadingPlain) == "can cuoc cong dan"
  {
    assert HeadingPlain == "CAN CUOC CONG DAN";
  }

  lemma CaptionUnchanged()
    ensures RemoveAccents("Identity Card") == "Identity Card"
  {
    AsciiUnchanged("Identity Card");
  }

  lemma CaptionLower()
    ensures Lower("Identity Card") == "identity card"
  {
  }

  /** The printed heading is accepted: without accents and lower-cased, it is "can cuoc cong dan". */
  lemma CheckValidHeading()
    ensures CheckValidPredicted(Heading)
  {
    HeadingWithoutAccents();
    HeadingLower();
    assert Phrases[1] == "can cuoc cong dan";
    AcceptsPhrase(Heading, 1);
  }

  /** The English caption "Identity Card" is accepted. */
  lemma CheckValidCaption()
    ensures CheckValidPredicted("Identity Card")
  {
    CaptionUnchanged();
    CaptionLower();
    AcceptsPhrase("Identity Card", 5);
  }

  /** The empty text is rejected. */
  lemma CheckValidEmpty()
    ensures !CheckValidPredicted("")
  {
    assert |Lower(RemoveAccents(""))| == 0;
    RejectsEmpty("");
  }
}
