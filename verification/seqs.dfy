/**
 * Generic sequence facts shared by the corner search and the OCR ordering:
 * a stable insertion sort, first-maximum / first-minimum selection,
 * order-preserving subsequences and flattening.
 */
module Seqs {

  /** `s` is in ascending `key` order (ties allowed). */
  ghost predicate SortedBy<T>(s: seq<T>, key: T -> int) {
    forall i, j | 0 <= i < j < |s| :: key(s[i]) <= key(s[j])
  }

  /** `s` is in strictly ascending `key` order. */
  ghost predicate StrictlySortedBy<T>(s: seq<T>, key: T -> int) {
    forall i, j | 0 <= i < j < |s| :: key(s[i]) < key(s[j])
  }

  /** Every element occurs once in `m` and distinct elements have distinct keys. */
  ghost predicate KeysDistinct<T>(m: multiset<T>, key: T -> int) {
    && (forall x | x in m :: m[x] == 1)
    && (forall x, y | x in m && y in m && x != y :: key(x) != key(y))
  }

  /** Inserts `x` into the sorted `s` after every element whose key is at most `key(x)`. */
  function Insert<T>(x: T, s: seq<T>, key: T -> int): (r: seq<T>)
    requires SortedBy(s, key)
    ensures |r| == |s| + 1
    ensures multiset(r) == multiset(s) + multiset{x}
    ensures forall i | 0 <= i < |r| :: r[i] == x || r[i] in s
    ensures SortedBy(r, key)
    decreases |s|
  {
    if |s| == 0 || key(s[|s| - 1]) <= key(x) then
      AppendSorted(s, x, key);
      s + [x]
    else
      var init := s[..|s| - 1];
      SplitLast(s, init, key);
      var r' := Insert(x, init, key);
      InsertBelowLast(x, init, s[|s| - 1], r', r' + [s[|s| - 1]], key);
      r' + [s[|s| - 1]]
  }

  /** Appending an element with the largest key keeps a sequence sorted. */
  lemma AppendSorted<T>(s: seq<T>, x: T, key: T -> int)
    requires SortedBy(s, key)
    requires |s| == 0 || key(s[|s| - 1]) <= key(x)
    ensures SortedBy(s + [x], key)
  {
  }

  /** A sorted sequence is its sorted front and its last element, which has the largest key. */
  lemma SplitLast<T>(s: seq<T>, init: seq<T>, key: T -> int)
    requires SortedBy(s, key) && |s| > 0 && init == s[..|s| - 1]
    ensures s == init + [s[|s| - 1]]
    ensures SortedBy(init, key)
    ensures forall i | 0 <= i < |init| :: key(init[i]) <= key(s[|s| - 1])
  {
  }

  /** The recursive case of Insert: `last` goes after the insertion into the front. */
  lemma InsertBelowLast<T>(x: T, init: seq<T>, last: T, r: seq<T>, t: seq<T>, key: T -> int)
    requires key(x) < key(last)
    requires forall i | 0 <= i < |init| :: key(init[i]) <= key(last)
    requires |r| == |init| + 1
    requires multiset(r) == multiset(init) + multiset{x}
    requires forall i | 0 <= i < |r| :: r[i] == x || r[i] in init
    requires SortedBy(r, key)
    requires t == r + [last]
    ensures multiset(t) == multiset(init + [last]) + multiset{x}
    ensures forall i | 0 <= i < |t| :: t[i] == x || t[i] in init + [last]
    ensures SortedBy(t, key)
  {
    forall i | 0 <= i < |r| ensures key(r[i]) <= key(last) {
      if r[i] != x {
        var j :| 0 <= j < |init| && init[j] == r[i];
      }
    }
  }

  /**
   * Stable sort by an integer key: insertion sort that places each element
   * after the equal-keyed elements that precede it in the input.
   */
  function SortBy<T>(s: seq<T>, key: T -> int): (r: seq<T>)
    ensures |r| == |s|
    ensures multiset(r) == multiset(s)
    ensures SortedBy(r, key)
    decreases |s|
  {
    if |s| == 0 then []
    else
      var init := s[..|s| - 1];
      assert s == init + [s[|s| - 1]];
      Insert(s[|s| - 1], SortBy(init, key), key)
  }

  /** The elements of `s` whose key is `k`, in their order in `s`. */
  function WithKey<T>(s: seq<T>, key: T -> int, k: int): seq<T>
    decreases |s|
  {
    if |s| == 0 then []
    else WithKey(s[..|s| - 1], key, k) + (if key(s[|s| - 1]) == k then [s[|s| - 1]] else [])
  }

  lemma {:induction false} WithKeyAppend<T>(a: seq<T>, b: seq<T>, key: T -> int, k: int)
    ensures WithKey(a + b, key, k) == WithKey(a, key, k) + WithKey(b, key, k)
    decreases |b|
  {
    if |b| == 0 {
      assert a + b == a;
    } else {
      var b' := b[..|b| - 1];
      assert (a + b)[..|a + b| - 1] == a + b';
      WithKeyAppend(a, b', key, k);
    }
  }

  /** Filtering a prefix of `s` by key gives a prefix of the filtered `s`. */
  lemma WithKeyPrefix<T>(s: seq<T>, n: nat, key: T -> int, k: int)
    requires n <= |s|
    ensures WithKey(s[..n], key, k) <= WithKey(s, key, k)
  {
    assert s == s[..n] + s[n..];
    WithKeyAppend(s[..n], s[n..], key, k);
  }

  lemma {:induction false} InsertStable<T>(x: T, s: seq<T>, key: T -> int, k: int)
    requires SortedBy(s, key)
    ensures WithKey(Insert(x, s, key), key, k)
         == WithKey(s, key, k) + (if key(x) == k then [x] else [])
    decreases |s|
  {
    if |s| == 0 || key(s[|s| - 1]) <= key(x) {
      InsertStableAtEnd(x, s, key, k);
    } else {
      InsertBeforeLast(x, s, key);
      InsertStable(x, s[..|s| - 1], key, k);
      InsertStableBeforeLast(x, s, key, k);
    }
  }

  /** InsertStable when `x` goes last. */
  lemma InsertStableAtEnd<T>(x: T, s: seq<T>, key: T -> int, k: int)
    requires SortedBy(s, key)
    requires |s| == 0 || key(s[|s| - 1]) <= key(x)
    ensures WithKey(Insert(x, s, key), key, k)
         == WithKey(s, key, k) + (if key(x) == k then [x] else [])
  {
    InsertAtEnd(x, s, key);
    WithKeyAppend(s, [x], key, k);
    WithKeySingle(x, key, k);
  }

  /** InsertStable when `x` goes before the last element, given the claim for the others. */
  lemma InsertStableBeforeLast<T>(x: T, s: seq<T>, key: T -> int, k: int)
    requires SortedBy(s, key)
    requires |s| > 0 && key(x) < key(s[|s| - 1])
    requires WithKey(Insert(x, s[..|s| - 1], key), key, k)
          == WithKey(s[..|s| - 1], key, k) + (if key(x) == k then [x] else [])
    ensures WithKey(Insert(x, s, key), key, k)
         == WithKey(s, key, k) + (if key(x) == k then [x] else [])
  {
    var init := s[..|s| - 1];
    var last := s[|s| - 1];
    InsertBeforeLast(x, s, key);
    assert s == init + [last];
    InsertStableStep(x, init, last, Insert(x, init, key), key, k);
  }

  lemma InsertAtEnd<T>(x: T, s: seq<T>, key: T -> int)
    requires SortedBy(s, key)
    requires |s| == 0 || key(s[|s| - 1]) <= key(x)
    ensures Insert(x, s, key) == s + [x]
  {
  }

  lemma InsertBeforeLast<T>(x: T, s: seq<T>, key: T -> int)
    requires SortedBy(s, key)
    requires |s| > 0 && key(x) < key(s[|s| - 1])
    ensures SortedBy(s[..|s| - 1], key)
    ensures Insert(x, s, key) == Insert(x, s[..|s| - 1], key) + [s[|s| - 1]]
  {
    SplitLast(s, s[..|s| - 1], key);
  }

  /** The step of InsertStable past a last element whose key exceeds `x`'s. */
  lemma InsertStableStep<T>(x: T, init: seq<T>, last: T, r: seq<T>, key: T -> int, k: int)
    requires key(x) < key(last)
    requires WithKey(r, key, k) == WithKey(init, key, k) + (if key(x) == k then [x] else [])
    ensures WithKey(r + [last], key, k)
         == WithKey(init + [last], key, k) + (if key(x) == k then [x] else [])
  {
    WithKeyAppend(r, [last], key, k);
    WithKeyAppend(init, [last], key, k);
    WithKeySingle(last, key, k);
    if key(x) == k {
      assert WithKey([last], key, k) == [];
    }
  }

  lemma WithKeySingle<T>(y: T, key: T -> int, k: int)
    ensures WithKey([y], key, k) == if key(y) == k then [y] else []
  {
    assert [y][..0] == [];
  }

  /** SortBy is stable: for every key value, the elements carrying it keep their input order. */
  lemma {:induction false} SortByStable<T>(s: seq<T>, key: T -> int, k: int)
    ensures WithKey(SortBy(s, key), key, k) == WithKey(s, key, k)
    decreases |s|
  {
    if |s| > 0 {
      var init := s[..|s| - 1];
      SortByStable(init, key, k);
      InsertStable(s[|s| - 1], SortBy(init, key), key, k);
    }
  }

  lemma {:induction false} MultisetCountTwo<T>(s: seq<T>, i: nat, j: nat)
    requires i < j < |s| && s[i] == s[j]
    ensures multiset(s)[s[i]] >= 2
  {
    assert s == s[..j] + [s[j]] + s[j + 1..];
    assert s[i] in s[..j];
    assert multiset(s[..j])[s[i]] >= 1;
  }

  /** A sorted sequence whose elements have distinct keys is strictly sorted. */
  lemma SortedDistinctIsStrict<T>(s: seq<T>, key: T -> int)
    requires SortedBy(s, key)
    requires KeysDistinct(multiset(s), key)
    ensures StrictlySortedBy(s, key)
  {
    forall i, j | 0 <= i < j < |s| ensures key(s[i]) < key(s[j]) {
      if s[i] == s[j] {
        MultisetCountTwo(s, i, j);
      }
    }
  }

  lemma MultisetTail<T>(a: seq<T>)
    requires |a| > 0
    ensures multiset(a[1..]) == multiset(a) - multiset{a[0]}
  {
    assert a == [a[0]] + a[1..];
  }

  lemma StrictlySortedHeads<T>(a: seq<T>, b: seq<T>, key: T -> int)
    requires |a| > 0 && |b| > 0
    requires multiset(a) == multiset(b)
    requires StrictlySortedBy(a, key) && StrictlySortedBy(b, key)
    ensures a[0] == b[0]
  {
    assert a[0] in multiset(b);
    var j :| 0 <= j < |b| && b[j] == a[0];
    assert b[0] in multiset(a);
    var i :| 0 <= i < |a| && a[i] == b[0];
  }

  /** Two strictly sorted arrangements of the same multiset are the same sequence. */
  lemma {:induction false} StrictlySortedUnique<T>(a: seq<T>, b: seq<T>, key: T -> int)
    requires multiset(a) == multiset(b)
    requires StrictlySortedBy(a, key) && StrictlySortedBy(b, key)
    ensures a == b
    decreases |a|
  {
    assert |a| == |multiset(a)| == |multiset(b)| == |b|;
    if |a| > 0 {
      StrictlySortedHeads(a, b, key);
      MultisetTail(a);
      MultisetTail(b);
      StrictlySortedTail(a, key);
      StrictlySortedTail(b, key);
      StrictlySortedUnique(a[1..], b[1..], key);
      SameHeadTail(a, b);
    }
  }

  lemma SameHeadTail<T>(a: seq<T>, b: seq<T>)
    requires |a| > 0 && |b| > 0 && a[0] == b[0] && a[1..] == b[1..]
    ensures a == b
  {
    assert a == [a[0]] + a[1..] && b == [b[0]] + b[1..];
  }

  lemma StrictlySortedTail<T>(a: seq<T>, key: T -> int)
    requires |a| > 0 && StrictlySortedBy(a, key)
    ensures StrictlySortedBy(a[1..], key)
  {
    forall i, j | 0 <= i < j < |a[1..]| ensures key(a[1..][i]) < key(a[1..][j]) {
      assert a[1..][i] == a[i + 1] && a[1..][j] == a[j + 1];
    }
  }

  /** With pairwise distinct keys the sorted result depends only on the multiset of the input. */
  lemma SortByDeterminedByMultiset<T>(a: seq<T>, b: seq<T>, key: T -> int)
    requires multiset(a) == multiset(b)
    requires KeysDistinct(multiset(a), key)
    ensures SortBy(a, key) == SortBy(b, key)
  {
    SortedDistinctIsStrict(SortBy(a, key), key);
    SortedDistinctIsStrict(SortBy(b, key), key);
    StrictlySortedUnique(SortBy(a, key), SortBy(b, key), key);
  }

  /** Pairwise distinct keys, stated on positions, give KeysDistinct on the multiset. */
  lemma {:induction false} DistinctKeysAt<T>(s: seq<T>, key: T -> int)
    requires forall i, j | 0 <= i < j < |s| :: key(s[i]) != key(s[j])
    ensures KeysDistinct(multiset(s), key)
    decreases |s|
  {
    if |s| > 0 {
      var init := s[..|s| - 1];
      var last := s[|s| - 1];
      assert s == init + [last];
      DistinctKeysAt(init, key);
      if last in multiset(init) {
        assert false;
      }
      forall x, y | x in multiset(s) && y in multiset(s) && x != y ensures key(x) != key(y) {
        if x == last && y in multiset(init) {
          var i :| 0 <= i < |init| && init[i] == y;
          assert key(s[i]) != key(s[|s| - 1]);
        } else if y == last && x in multiset(init) {
          var i :| 0 <= i < |init| && init[i] == x;
          assert key(s[i]) != key(s[|s| - 1]);
        }
      }
    }
  }

  /** Sorting two elements: swapped exactly when the second has the smaller key. */
  lemma SortTwo<T>(a: T, b: T, key: T -> int)
    ensures SortBy([a, b], key) == if key(b) < key(a) then [b, a] else [a, b]
  {
    assert [a, b][..1] == [a];
    assert [a][..0] == [];
  }

  /** `sorted([a, b], key=...)` as a pair: swapped exactly when `b` has the smaller key. */
  function SortedPair<T>(a: T, b: T, key: T -> int): (r: (T, T))
    ensures [r.0, r.1] == SortBy([a, b], key)
    ensures if key(b) < key(a) then r == (b, a) else r == (a, b)
  {
    SortTwo(a, b, key);
    var ends := SortBy([a, b], key);
    (ends[0], ends[1])
  }

  /** Index of the first element with the greatest key: Python's `max(s, key=...)`. */
  function ArgMaxFirst<T>(s: seq<T>, key: T -> int): (i: nat)
    requires |s| > 0
    ensures i < |s|
    ensures forall j | 0 <= j < |s| :: key(s[j]) <= key(s[i])
    ensures forall j | 0 <= j < i :: key(s[j]) < key(s[i])
    decreases |s|
  {
    if |s| == 1 then 0
    else
      var i := ArgMaxFirst(s[..|s| - 1], key);
      if key(s[|s| - 1]) > key(s[i]) then |s| - 1 else i
  }

  /**
   * Index of the first element with the least key: the head of a stable
   * ascending sort, as in `sorted(s, key=...)[0]`.
   */
  function ArgMinFirst<T>(s: seq<T>, key: T -> real): (i: nat)
    requires |s| > 0
    ensures i < |s|
    ensures forall j | 0 <= j < |s| :: key(s[i]) <= key(s[j])
    ensures forall j | 0 <= j < i :: key(s[i]) < key(s[j])
    decreases |s|
  {
    if |s| == 1 then 0
    else
      var i := ArgMinFirst(s[..|s| - 1], key);
      if key(s[|s| - 1]) < key(s[i]) then |s| - 1 else i
  }

  /** `a` is `b` with some elements removed, the rest kept in order. */
  ghost predicate IsSubseq<T>(a: seq<T>, b: seq<T>)
    decreases |b|
  {
    |a| == 0
    || (|b| > 0
        && ((a[|a| - 1] == b[|b| - 1] && IsSubseq(a[..|a| - 1], b[..|b| - 1]))
            || IsSubseq(a, b[..|b| - 1])))
  }

  /** Concatenation of a sequence of sequences. */
  function Flatten<T>(ss: seq<seq<T>>): seq<T>
    decreases |ss|
  {
    if |ss| == 0 then [] else Flatten(ss[..|ss| - 1]) + ss[|ss| - 1]
  }

  function Min(a: int, b: int): int { if a <= b then a else b }

  function Max(a: int, b: int): int { if a >= b then a else b }
}
