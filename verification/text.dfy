/**
 * The Python `str` operations the pipeline relies on: `split(sep)`,
 * `sep.join(parts)`, `strip(chars)`, substring `in`, and `lower()`
 * restricted to ASCII letters.
 */
module Text {

  /** `sep` occurs in `s` starting at index `i`. */
  ghost predicate OccursAt(s: string, sep: string, i: int) {
    0 <= i && i + |sep| <= |s| && s[i..i + |sep|] == sep
  }

  /** Python's `s.split(sep)` for a non-empty separator: cut at every non-overlapping occurrence, scanning left to right. */
  function Split(s: string, sep: string): (r: seq<string>)
    requires |sep| > 0
    ensures |r| > 0
    ensures forall k | 0 <= k < |r| :: |r[k]| <= |s|
    decreases |s|
  {
    if |s| < |sep| then [s]
    else if s[..|sep|] == sep then [""] + Split(s[|sep|..], sep)
    else
      var rest := Split(s[1..], sep);
      [[s[0]] + rest[0]] + rest[1..]
  }

  /** Python's `sep.join(parts)`. */
  function Join(parts: seq<string>, sep: string): string
    decreases |parts|
  {
    if |parts| == 0 then ""
    else if |parts| == 1 then parts[0]
    else parts[0] + sep + Join(parts[1..], sep)
  }

  /** Joining the pieces of a split with the same separator gives the original string back. */
  lemma {:induction false} JoinSplit(s: string, sep: string)
    requires |sep| > 0
    ensures Join(Split(s, sep), sep) == s
    decreases |s|
  {
    if |s| < |sep| {
    } else if s[..|sep|] == sep {
      var rest := Split(s[|sep|..], sep);
      JoinSplit(s[|sep|..], sep);
      JoinEmptyHead(rest, sep);
      assert s == sep + s[|sep|..];
    } else {
      var rest := Split(s[1..], sep);
      JoinSplit(s[1..], sep);
      JoinConsHead(s[0], rest, sep);
      assert s == [s[0]] + s[1..];
    }
  }

  /** An empty first piece contributes only the separator. */
  lemma JoinEmptyHead(rest: seq<string>, sep: string)
    requires |rest| > 0
    ensures Join([""] + rest, sep) == sep + Join(rest, sep)
  {
    assert ([""] + rest)[1..] == rest;
  }

  /** A character put in front of the first piece is put in front of the joined string. */
  lemma JoinConsHead(c: char, rest: seq<string>, sep: string)
    requires |rest| > 0
    ensures Join([[c] + rest[0]] + rest[1..], sep) == [c] + Join(rest, sep)
  {
    var parts := [[c] + rest[0]] + rest[1..];
    if |rest| > 1 {
      assert parts[1..] == rest[1..];
    }
  }


  /** Extending the last piece extends the joined string by the same text. */
  lemma {:induction false} JoinExtendLast(parts: seq<string>, longer: seq<string>, sep: string, z: string)
    requires |parts| == |longer| > 0
    requires forall k | 0 <= k < |parts| - 1 :: longer[k] == parts[k]
    requires longer[|parts| - 1] == parts[|parts| - 1] + z
    ensures Join(longer, sep) == Join(parts, sep) + z
    decreases |parts|
  {
    if |parts| > 1 {
      JoinExtendLast(parts[1..], longer[1..], sep, z);
    }
  }

  /** A character in no piece and not in the separator is not in the joined string. */
  lemma {:induction false} JoinAvoids(parts: seq<string>, sep: string, c: char)
    requires c !in sep && forall k | 0 <= k < |parts| :: c !in parts[k]
    ensures c !in Join(parts, sep)
    decreases |parts|
  {
    if |parts| > 1 {
      JoinAvoids(parts[1..], sep, c);
    }
  }

  /** Splitting `p + sep + x`, where `p` does not contain the first character of `sep`, cuts after `p`. */
  lemma {:induction false} SplitAfterPiece(p: string, sep: string, x: string)
    requires |sep| > 0
    requires sep[0] !in p
    ensures Split(p + sep + x, sep) == [p] + Split(x, sep)
    decreases |p|
  {
    if |p| == 0 {
      assert p + sep + x == sep + x;
      assert (sep + x)[..|sep|] == sep;
      assert (sep + x)[|sep|..] == x;
    } else {
      var s := p + sep + x;
      assert s[0] == p[0] && s[0] != sep[0];
      assert s[..|sep|] != sep;
      assert s[1..] == p[1..] + sep + x;
      SplitAfterPiece(p[1..], sep, x);
      assert [p[0]] + p[1..] == p;
    }
  }

  /** When no piece contains the first character of `sep`, splitting undoes joining. */
  lemma {:induction false} SplitJoin(parts: seq<string>, sep: string)
    requires |sep| > 0 && |parts| > 0
    requires forall k | 0 <= k < |parts| :: sep[0] !in parts[k]
    ensures Split(Join(parts, sep), sep) == parts
    decreases |parts|
  {
    if |parts| == 1 {
      SplitNoSeparator(parts[0], sep);
    } else {
      SplitJoin(parts[1..], sep);
      SplitAfterPiece(parts[0], sep, Join(parts[1..], sep));
      assert parts == [parts[0]] + parts[1..];
    }
  }

  /**
   * Splitting undoes joining when no piece but the last contains the first
   * character of `sep` and the last piece alone splits into itself.
   */
  lemma {:induction false} SplitJoinLast(parts: seq<string>, sep: string)
    requires |sep| > 0 && |parts| > 0
    requires forall k | 0 <= k < |parts| - 1 :: sep[0] !in parts[k]
    requires Split(parts[|parts| - 1], sep) == [parts[|parts| - 1]]
    ensures Split(Join(parts, sep), sep) == parts
    decreases |parts|
  {
    if |parts| == 1 {
      assert parts == [parts[0]];
    } else {
      var tail := parts[1..];
      forall k | 0 <= k < |tail| - 1 ensures sep[0] !in tail[k] {
        assert tail[k] == parts[k + 1];
      }
      assert tail[|tail| - 1] == parts[|parts| - 1];
      SplitJoinLast(tail, sep);
      assert Join(parts, sep) == parts[0] + sep + Join(tail, sep);
      SplitAfterPiece(parts[0], sep, Join(tail, sep));
      assert parts == [parts[0]] + tail;
    }
  }

  /**
   * For a two-character `sep`: a string without `sep`'s first character,
   * followed by that character and one other than `sep`'s second, splits
   * into itself alone.
   */
  lemma {:induction false} SplitEndAbsent(p: string, sep: string, c: char)
    requires |sep| == 2 && sep[0] !in p && c != sep[1]
    ensures Split(p + [sep[0], c], sep) == [p + [sep[0], c]]
    decreases |p|
  {
    var s := p + [sep[0], c];
    if |p| == 0 {
      assert s[..2] != sep;
      assert s[1..] == [c];
      assert Split([c], sep) == [[c]];
      assert [s[0]] + [c] == s;
    } else {
      assert s[0] == p[0] && s[..2][0] == p[0];
      assert s[1..] == p[1..] + [sep[0], c];
      assert forall d | d in p[1..] :: d in p;
      SplitEndAbsent(p[1..], sep, c);
      assert [s[0]] + s[1..] == s;
    }
  }

  /** A string without the first character of `sep` splits into itself alone. */
  lemma {:induction false} SplitNoSeparator(s: string, sep: string)
    requires |sep| > 0 && sep[0] !in s
    ensures Split(s, sep) == [s]
    decreases |s|
  {
    if |s| >= |sep| {
      assert s[0] in s;
      assert s[..|sep|][0] == s[0];
      assert s[1..] == s[1..];
      assert forall c | c in s[1..] :: c in s;
      SplitNoSeparator(s[1..], sep);
      assert [s[0]] + s[1..] == s;
    }
  }

  /** Splitting `p + sep + x` cuts after `p` when no occurrence of `sep` starts inside `p`. */
  lemma {:induction false} SplitAtFirst(p: string, sep: string, x: string)
    requires |sep| > 0
    requires forall i | 0 <= i < |p| :: !OccursAt(p + sep + x, sep, i)
    ensures Split(p + sep + x, sep) == [p] + Split(x, sep)
    decreases |p|
  {
    var s := p + sep + x;
    if |p| == 0 {
      assert s == sep + x;
      assert s[..|sep|] == sep;
      assert s[|sep|..] == x;
    } else {
      assert !OccursAt(s, sep, 0);
      assert s[..|sep|] != sep;
      assert s[1..] == p[1..] + sep + x;
      forall i | 0 <= i < |p[1..]| ensures !OccursAt(p[1..] + sep + x, sep, i) {
        assert !OccursAt(s, sep, i + 1);
        assert s[i + 1..i + 1 + |sep|] == s[1..][i..i + |sep|];
      }
      SplitAtFirst(p[1..], sep, x);
      assert [p[0]] + p[1..] == p;
    }
  }

  /**
   * For a two-character `sep`: no occurrence starts inside `p` when `p`
   * lacks `sep`'s second character and does not end with its first.
   */
  lemma NoOccurrenceInside(p: string, sep: string, x: string)
    requires |sep| == 2 && sep[1] !in p && (|p| > 0 ==> p[|p| - 1] != sep[0])
    ensures forall i | 0 <= i < |p| :: !OccursAt(p + sep + x, sep, i)
  {
  }

  /**
   * For a two-character `sep`, splitting undoes joining when no piece
   * contains `sep`'s second character or ends with its first.
   */
  lemma {:induction false} SplitJoinPair(parts: seq<string>, sep: string)
    requires |sep| == 2 && |parts| > 0
    requires forall k | 0 <= k < |parts| :: sep[1] !in parts[k]
    requires forall k | 0 <= k < |parts| :: |parts[k]| > 0 ==> parts[k][|parts[k]| - 1] != sep[0]
    ensures Split(Join(parts, sep), sep) == parts
    decreases |parts|
  {
    if |parts| == 1 {
      SplitLastAbsent(parts[0], sep);
    } else {
      SplitJoinPair(parts[1..], sep);
      NoOccurrenceInside(parts[0], sep, Join(parts[1..], sep));
      SplitAtFirst(parts[0], sep, Join(parts[1..], sep));
      assert parts == [parts[0]] + parts[1..];
    }
  }

  /** A string without the last character of `sep` splits into itself alone. */
  lemma {:induction false} SplitLastAbsent(s: string, sep: string)
    requires |sep| > 0 && sep[|sep| - 1] !in s
    ensures Split(s, sep) == [s]
    decreases |s|
  {
    if |s| >= |sep| {
      assert s[|sep| - 1] in s;
      assert s[..|sep|][|sep| - 1] == s[|sep| - 1];
      assert forall c | c in s[1..] :: c in s;
      SplitLastAbsent(s[1..], sep);
      assert [s[0]] + s[1..] == s;
    }
  }

  /**
   * `s.split(sep)[-1]` for a one-character `sep` is what follows the last
   * separator: a suffix of `s` without it, which is either all of `s` or
   * preceded by the separator.
   */
  lemma {:induction false} LastPiece(s: string, sep: string)
    requires |sep| == 1
    ensures SuffixAfter(s, Last(Split(s, sep)), sep[0])
    decreases |s|
  {
    if |s| >= 1 {
      LastPiece(s[1..], sep);
      if s[..1] == sep || |Split(s[1..], sep)| > 1 {
        LastPieceRecurse(s, sep);
      } else {
        LastPieceWhole(s, sep);
      }
    }
  }

  /** `t` is a suffix of `s` without `c`, and either all of `s` or preceded by `c`. */
  ghost predicate SuffixAfter(s: string, t: string, c: char) {
    && c !in t && |t| <= |s| && s[|s| - |t|..] == t
    && (|t| < |s| ==> s[|s| - |t| - 1] == c)
  }

  lemma LastPieceRecurse(s: string, sep: string)
    requires |sep| == 1 && |s| >= 1
    requires s[..1] == sep || |Split(s[1..], sep)| > 1
    requires SuffixAfter(s[1..], Last(Split(s[1..], sep)), sep[0])
    ensures SuffixAfter(s, Last(Split(s, sep)), sep[0])
  {
    var t := Last(Split(s[1..], sep));
    LastPieceAfter(s, sep);
    SuffixOfTail(s, t);
    if |t| == |s| - 1 {
      assert t == s[1..];
      SplitNoSeparator(s[1..], sep);
      assert s[0] == s[..1][0];
    } else {
      assert s[|s| - |t| - 1] == s[1..][|s| - 1 - |t| - 1];
    }
  }

  lemma LastPieceWhole(s: string, sep: string)
    requires |sep| == 1 && |s| >= 1
    requires s[..1] != sep && |Split(s[1..], sep)| == 1
    requires SuffixAfter(s[1..], Last(Split(s[1..], sep)), sep[0])
    ensures SuffixAfter(s, Last(Split(s, sep)), sep[0])
  {
    SplitSingle(s[1..], sep);
    assert Split(s, sep) == [[s[0]] + s[1..]];
    assert s == [s[0]] + s[1..];
  }

  lemma SuffixOfTail(s: string, t: string)
    requires |s| >= 1 && |t| <= |s| - 1 && s[1..][|s| - 1 - |t|..] == t
    ensures s[|s| - |t|..] == t
  {
    assert s[1..][|s| - 1 - |t|..] == s[|s| - |t|..];
  }

  /** Unless `s` is a single piece, its last piece is the last piece of `s[1..]`. */
  lemma LastPieceAfter(s: string, sep: string)
    requires |sep| == 1 && |s| >= 1
    requires s[..1] == sep || |Split(s[1..], sep)| > 1
    ensures Last(Split(s, sep)) == Last(Split(s[1..], sep))
  {
  }

  /** A split with a single piece returns the whole string. */
  lemma SplitSingle(s: string, sep: string)
    requires |sep| > 0 && |Split(s, sep)| == 1
    ensures Split(s, sep)[0] == s
  {
    JoinSplit(s, sep);
  }

  /** Stripping `chars` from `a + b + c` leaves `b` when `a` and `c` consist of `chars` and `b` starts and ends outside them. */
  lemma StripPadded(a: string, b: string, c: string, chars: string)
    requires forall k | 0 <= k < |a| :: a[k] in chars
    requires forall k | 0 <= k < |c| :: c[k] in chars
    requires |b| > 0 && b[0] !in chars && b[|b| - 1] !in chars
    ensures Strip(a + b + c, chars) == b
  {
    LStripPadded(a, b + c, chars);
    assert a + b + c == a + (b + c);
    RStripPadded(b, c, chars);
  }

  lemma {:induction false} LStripPadded(a: string, b: string, chars: string)
    requires forall k | 0 <= k < |a| :: a[k] in chars
    requires |b| > 0 && b[0] !in chars
    ensures LStrip(a + b, chars) == b
    decreases |a|
  {
    if |a| == 0 {
      assert a + b == b;
    } else {
      assert (a + b)[1..] == a[1..] + b;
      LStripPadded(a[1..], b, chars);
    }
  }

  lemma {:induction false} RStripPadded(b: string, c: string, chars: string)
    requires forall k | 0 <= k < |c| :: c[k] in chars
    requires |b| > 0 && b[|b| - 1] !in chars
    ensures RStrip(b + c, chars) == b
    decreases |c|
  {
    if |c| == 0 {
      assert b + c == b;
    } else {
      assert (b + c)[..|b + c| - 1] == b + c[..|c| - 1];
      RStripPadded(b, c[..|c| - 1], chars);
    }
  }

  /** The last element of a non-empty sequence (Python's `xs[-1]`). */
  function Last<T>(xs: seq<T>): T
    requires |xs| > 0
  {
    xs[|xs| - 1]
  }

  /** Python's `s.lstrip(chars)`. */
  function LStrip(s: string, chars: string): (r: string)
    ensures |r| <= |s| && r == s[|s| - |r|..]
    ensures forall k | 0 <= k < |s| - |r| :: s[k] in chars
    ensures |r| > 0 ==> r[0] !in chars
    decreases |s|
  {
    if |s| > 0 && s[0] in chars then LStrip(s[1..], chars) else s
  }

  /** Python's `s.rstrip(chars)`. */
  function RStrip(s: string, chars: string): (r: string)
    ensures |r| <= |s| && r == s[..|r|]
    ensures forall k | |r| <= k < |s| :: s[k] in chars
    ensures |r| > 0 ==> r[|r| - 1] !in chars
    decreases |s|
  {
    if |s| > 0 && s[|s| - 1] in chars then RStrip(s[..|s| - 1], chars) else s
  }

  /**
   * Python's `s.strip(chars)`: the longest middle slice of `s` whose first and
   * last characters are outside `chars`, everything cut off being in `chars`.
   */
  function Strip(s: string, chars: string): (r: string)
    ensures exists i, j | 0 <= i <= j <= |s| :: r == s[i..j]
                && (forall k | 0 <= k < i :: s[k] in chars)
                && (forall k | j <= k < |s| :: s[k] in chars)
    ensures |r| > 0 ==> r[0] !in chars && r[|r| - 1] !in chars
  {
    var l := LStrip(s, chars);
    var r := RStrip(l, chars);
    var i := |s| - |l|;
    var j := i + |r|;
    StripSlice(s, chars, l, r);
    assert 0 <= i <= j <= |s| && r == s[i..j];
    assert |r| > 0 ==> r[0] == l[0];
    r
  }

  /** A prefix `r` of a suffix `l` of `s` is a middle slice of `s`, and what follows `r` in `l` follows it in `s`. */
  lemma StripSlice(s: string, chars: string, l: string, r: string)
    requires |l| <= |s| && l == s[|s| - |l|..]
    requires |r| <= |l| && r == l[..|r|]
    requires forall k | |r| <= k < |l| :: l[k] in chars
    ensures var i := |s| - |l|;
      && r == s[i..i + |r|]
      && (forall k | i + |r| <= k < |s| :: s[k] in chars)
  {
    var i := |s| - |l|;
    forall k | i + |r| <= k < |s| ensures s[k] in chars {
      assert s[k] == l[k - i];
    }
  }

  /** Stripping a string whose first and last characters are outside `chars` leaves it unchanged. */
  lemma StripNoop(s: string, chars: string)
    requires |s| > 0 ==> s[0] !in chars && s[|s| - 1] !in chars
    ensures Strip(s, chars) == s
  {
  }

  /** Python's `p in s` for strings: `p` occurs somewhere in `s`. */
  predicate Contains(s: string, p: string)
    decreases |s|
  {
    p <= s || (|s| > 0 && Contains(s[1..], p))
  }

  /** `Contains` is substring occurrence. */
  lemma {:induction false} ContainsIff(s: string, p: string)
    ensures Contains(s, p) <==> exists i :: OccursAt(s, p, i)
    decreases |s|
  {
    assert p <= s <==> OccursAt(s, p, 0);
    if |s| > 0 {
      ContainsIff(s[1..], p);
      if exists i :: OccursAt(s[1..], p, i) {
        var i :| OccursAt(s[1..], p, i);
        OccursShift(s, p, i + 1);
      }
      if exists i :: OccursAt(s, p, i) {
        var i :| OccursAt(s, p, i);
        if i > 0 {
          OccursShift(s, p, i);
        }
      }
    }
  }

  /** An occurrence past the first character is an occurrence in the tail, one place earlier. */
  lemma OccursShift(s: string, p: string, i: int)
    requires |s| > 0 && i > 0
    ensures OccursAt(s, p, i) <==> OccursAt(s[1..], p, i - 1)
  {
    if i + |p| <= |s| {
      assert s[1..][i - 1..i - 1 + |p|] == s[i..i + |p|];
    }
  }

  /** A string that contains `q` contains every prefix of `q`. */
  lemma {:induction false} ContainsPrefix(s: string, q: string, p: string)
    requires p <= q && Contains(s, q)
    ensures Contains(s, p)
    decreases |s|
  {
    if !(q <= s) {
      ContainsPrefix(s[1..], q, p);
    }
  }

  /** Nothing non-empty occurs in the empty string. */
  lemma EmptyContainsNothing(p: string)
    requires |p| > 0
    ensures !Contains("", p)
  {
  }

  /** ASCII case folding of one character. */
  function LowerChar(c: char): (r: char)
    ensures 'A' <= c <= 'Z' ==> r as int == c as int + 32
    ensures !('A' <= c <= 'Z') ==> r == c
  {
    if 'A' <= c <= 'Z' then (c as int + 32) as char else c
  }

  /** `lower()` restricted to ASCII letters. */
  function Lower(s: string): (r: string)
    ensures |r| == |s|
    ensures forall k | 0 <= k < |s| :: r[k] == LowerChar(s[k])
  {
    seq(|s|, k requires 0 <= k < |s| => LowerChar(s[k]))
  }
}
