/** `QuadraticTime`: the three in-place quadratic sorts (bubble, selection, insertion) and
    brute-force substring search. Each sort is proved to leave the array ascending and a
    rearrangement of what it held, through the invariant of its outer loop. */
module QuadraticTime {
  import opened Seqs
  import opened Arrays
  import Java

  // ---------------------------------------------------------------------------
  // Shapes of a partly sorted sequence

  /** Positions [lo, hi) are in ascending order. */
  predicate AscendingOn(s: seq<int>, lo: int, hi: int) {
    forall x, y :: 0 <= lo <= x < y < hi <= |s| ==> s[x] <= s[y]
  }

  /** Nothing before position k is greater than anything from k on. */
  predicate Separated(s: seq<int>, k: int) {
    forall x, y :: 0 <= x < k <= y < |s| ==> s[x] <= s[y]
  }

  /** Ascending up to k, and every element before k at most every element after it: the
      first k positions hold the k smallest elements in their final order. */
  predicate SettledPrefix(s: seq<int>, k: int) {
    0 <= k <= |s| && AscendingOn(s, 0, k) && Separated(s, k)
  }

  /** The last |s| - k positions hold the largest elements in their final order. */
  predicate SettledSuffix(s: seq<int>, k: int) {
    0 <= k <= |s| && AscendingOn(s, k, |s|) && Separated(s, k)
  }

  lemma SettledPrefixSorted(s: seq<int>, k: int)
    requires SettledPrefix(s, k) && |s| - 1 <= k
    ensures Sorted(s)
  {
  }

  lemma SettledSuffixSorted(s: seq<int>, k: int)
    requires SettledSuffix(s, k) && k <= 1
    ensures Sorted(s)
  {
  }

  // ---------------------------------------------------------------------------
  // Bubble sort

  /** After i passes: a rearrangement of s0 whose last i positions are settled. */
  predicate BubbleOuter(s0: seq<int>, s: seq<int>, i: int) {
    && |s| == |s0| && multiset(s) == multiset(s0)
    && 0 <= i <= |s| && SettledSuffix(s, |s| - i)
  }

  /** Inside pass i, j comparisons in: s[j] is the largest of the first j + 1 elements. */
  predicate BubbleInner(s0: seq<int>, s: seq<int>, i: int, j: int) {
    && BubbleOuter(s0, s, i)
    && 0 <= j < |s| - i
    && forall x :: 0 <= x < j ==> s[x] <= s[j]
  }

  /** One comparison: an adjacent pair out of order is exchanged, which carries the
      largest element seen so far one place to the right. */
  lemma BubbleCompare(s0: seq<int>, s: seq<int>, t: seq<int>, i: int, j: int)
    requires BubbleInner(s0, s, i, j) && j < |s| - i - 1
    requires t == if s[j] > s[j + 1] then Swapped(s, j, j + 1) else s
    ensures BubbleInner(s0, t, i, j + 1)
  {
    if s[j] > s[j + 1] {
      SwappedMultiset(s, j, j + 1);
    }
  }

  /** At the end of a pass the largest unsettled element has reached its place. */
  lemma BubblePassDone(s0: seq<int>, s: seq<int>, i: int)
    requires BubbleInner(s0, s, i, |s| - i - 1)
    ensures BubbleOuter(s0, s, i + 1)
  {
  }

  /** The inner loop of `bubbleSort`: pass i over the unsettled prefix. */
  method BubblePass(a: array<int>, i: int, ghost s0: seq<int>)
    requires BubbleOuter(s0, a[..], i) && i < a.Length - 1
    modifies a
    ensures BubbleOuter(s0, a[..], i + 1)
    ensures a[a.Length - i..] == old(a[a.Length - i..])
  {
    ghost var s := a[..];
    var j := 0;
    while j < a.Length - i - 1
      invariant a[..] == s && BubbleInner(s0, s, i, j)
      invariant a[a.Length - i..] == old(a[a.Length - i..])
    {
      if a[j] > a[j + 1] {
        Swap(a, j, j + 1);
      }
      BubbleCompare(s0, s, a[..], i, j);
      s := a[..];
      j := j + 1;
    }
    BubblePassDone(s0, s, i);
  }

  /** `bubbleSort(array)`: ascending and a rearrangement of the input. An array of fewer
      than two elements is not touched. */
  method BubbleSort(a: array<int>)
    modifies a
    ensures Sorted(a[..]) && multiset(a[..]) == multiset(old(a[..]))
    ensures a.Length < 2 ==> a[..] == old(a[..])
  {
    ghost var s0 := a[..];
    var n := a.Length;
    var i := 0;
    while i < n - 1
      invariant i <= n || n == 0
      invariant BubbleOuter(s0, a[..], i)
      invariant n < 2 ==> a[..] == s0
    {
      BubblePass(a, i, s0);
      i := i + 1;
    }
    SettledSuffixSorted(a[..], n - i);
  }

  // ---------------------------------------------------------------------------
  // Selection sort

  /** After i iterations: a rearrangement of s0 whose first i positions are settled. */
  predicate SelectionOuter(s0: seq<int>, s: seq<int>, i: int) {
    && |s| == |s0| && multiset(s) == multiset(s0)
    && SettledPrefix(s, i)
  }

  /** The inner loop of `selectionSort`: the index of the first smallest element of
      a[from..]. */
  method MinIndexFrom(a: array<int>, from: int) returns (m: int)
    requires 0 <= from < a.Length
    ensures from <= m < a.Length
    ensures forall k :: from <= k < a.Length ==> a[m] <= a[k]
    ensures forall k :: from <= k < m ==> a[m] < a[k]
  {
    m := from;
    for j := from + 1 to a.Length
      invariant from <= m < j
      invariant forall k :: from <= k < j ==> a[m] <= a[k]
      invariant forall k :: from <= k < m ==> a[m] < a[k]
    {
      if a[j] < a[m] {
        m := j;
      }
    }
  }

  /** Exchanging the smallest unsettled element into position i settles one more. */
  lemma SelectionStep(s0: seq<int>, s: seq<int>, t: seq<int>, i: int, m: int)
    requires SelectionOuter(s0, s, i) && i <= m < |s|
    requires forall k :: i <= k < |s| ==> s[m] <= s[k]
    requires t == Swapped(s, i, m)
    ensures SelectionOuter(s0, t, i + 1)
  {
    SwappedMultiset(s, i, m);
  }

  /** `selectionSort(array)`: ascending and a rearrangement of the input. */
  method SelectionSort(a: array<int>)
    modifies a
    ensures Sorted(a[..]) && multiset(a[..]) == multiset(old(a[..]))
  {
    ghost var s0 := a[..];
    var n := a.Length;
    var i := 0;
    while i < n - 1
      invariant i <= n || n == 0
      invariant SelectionOuter(s0, a[..], i)
    {
      var minIndex := MinIndexFrom(a, i);
      ghost var s := a[..];
      Swap(a, i, minIndex);
      SelectionStep(s0, s, a[..], i, minIndex);
      i := i + 1;
    }
    SettledPrefixSorted(a[..], i);
  }

  // ---------------------------------------------------------------------------
  // Insertion sort

  /** At the head of iteration i: a rearrangement of s0 with [0, i) ascending. */
  predicate InsertionOuter(s0: seq<int>, s: seq<int>, i: int) {
    && |s| == |s0| && multiset(s) == multiset(s0)
    && 0 <= i <= |s| && AscendingOn(s, 0, i)
  }

  /** The shifting loop of iteration i over s, with `key` (the old s[i]) lifted out and j
      the next position to compare: [0, j] as in s, (j + 1, i] holding s's [j + 1, i) one
      place to the right, and every element moved so far greater than the key. */
  predicate Shifting(s: seq<int>, t: seq<int>, i: int, j: int, key: int) {
    && |t| == |s| && 0 <= i < |s| && -1 <= j < i && key == s[i]
    && (forall k :: 0 <= k <= j ==> t[k] == s[k])
    && (forall k :: j + 2 <= k <= i ==> t[k] == s[k - 1])
    && (forall k :: i < k < |s| ==> t[k] == s[k])
    && (forall k :: j + 1 <= k < i ==> key < s[k])
  }

  /** A greater element moves one place right, and the hole with it. */
  lemma ShiftOne(s: seq<int>, t: seq<int>, t': seq<int>, i: int, j: int, key: int)
    requires Shifting(s, t, i, j, key) && 0 <= j && t[j] > key
    requires t' == t[j + 1 := t[j]]
    ensures Shifting(s, t', i, j - 1, key)
  {
  }

  /** Dropping the key into the hole gives s with s[i] moved down to position j + 1 and
      [0, i + 1) ascending. */
  lemma ShiftingDone(s0: seq<int>, s: seq<int>, t: seq<int>, u: seq<int>, i: int, j: int, key: int)
    requires InsertionOuter(s0, s, i) && Shifting(s, t, i, j, key) && (j < 0 || t[j] <= key)
    requires u == t[j + 1 := key]
    ensures InsertionOuter(s0, u, i + 1)
  {
    KeyInPlace(s, t, u, i, j, key);
    KeyMovedDown(s, t, u, i, j, key);
  }

  /** The order half of `ShiftingDone`. */
  lemma KeyInPlace(s: seq<int>, t: seq<int>, u: seq<int>, i: int, j: int, key: int)
    requires AscendingOn(s, 0, i) && Shifting(s, t, i, j, key) && (j < 0 || t[j] <= key)
    requires u == t[j + 1 := key]
    ensures AscendingOn(u, 0, i + 1)
  {
    forall x, y | 0 <= x < y < i + 1 ensures u[x] <= u[y] {
      if y <= j {
        assert u[x] == s[x] && u[y] == s[y];
      } else if y == j + 1 {
        assert u[x] == s[x] && s[x] <= s[j];
      } else if x <= j {
        assert u[x] == s[x] && u[y] == s[y - 1];
      } else if x == j + 1 {
        assert u[y] == s[y - 1];
      } else {
        assert u[x] == s[x - 1] && u[y] == s[y - 1];
      }
    }
  }

  /** The contents half of `ShiftingDone`: outside [j + 1, i] nothing moved, and inside
      it s[i] went from the back to the front. */
  lemma KeyMovedDown(s: seq<int>, t: seq<int>, u: seq<int>, i: int, j: int, key: int)
    requires Shifting(s, t, i, j, key) && u == t[j + 1 := key]
    ensures multiset(u) == multiset(s)
  {
    assert u[..j + 1] == s[..j + 1];
    assert u[i + 1..] == s[i + 1..];
    assert u[j + 1..i + 1] == [s[i]] + s[j + 1..i];
    RotatedMultiset(s, u, j + 1, i);
  }

  /** Rotating [lo, hi] by one place, last element first, rearranges the sequence. */
  lemma RotatedMultiset(s: seq<int>, u: seq<int>, lo: int, hi: int)
    requires |u| == |s| && 0 <= lo <= hi < |s|
    requires u[..lo] == s[..lo] && u[hi + 1..] == s[hi + 1..]
    requires u[lo..hi + 1] == [s[hi]] + s[lo..hi]
    ensures multiset(u) == multiset(s)
  {
    Pieces(u, lo, hi);
    Pieces(s, lo, hi);
    assert s[lo..hi + 1] == s[lo..hi] + [s[hi]];
  }

  /** Two sequences with the same values and a common suffix from m on have the same
      values before m. */
  lemma PrefixMultiset(a: seq<int>, b: seq<int>, m: int)
    requires 0 <= m <= |a| == |b| && a[m..] == b[m..] && multiset(a) == multiset(b)
    ensures multiset(a[..m]) == multiset(b[..m])
  {
    assert a == a[..m] + a[m..] && b == b[..m] + b[m..];
    forall x ensures multiset(a[..m])[x] == multiset(b[..m])[x] {
      assert multiset(a)[x] == multiset(a[..m])[x] + multiset(a[m..])[x];
      assert multiset(b)[x] == multiset(b[..m])[x] + multiset(b[m..])[x];
    }
  }

  /** Dropping the key in changes nothing after position i, so positions [0, i] keep
      their values between them. */
  lemma InsertedInPrefix(s: seq<int>, t: seq<int>, u: seq<int>, i: int, j: int, key: int)
    requires Shifting(s, t, i, j, key) && u == t[j + 1 := key] && multiset(u) == multiset(s)
    ensures u[i + 1..] == s[i + 1..]
    ensures multiset(u[..i + 1]) == multiset(s[..i + 1])
  {
    assert u[i + 1..] == s[i + 1..];
    PrefixMultiset(u, s, i + 1);
  }

  /** The body of `insertionSort`'s outer loop: shift the elements of [0, i) greater than
      a[i] one place right and drop a[i] into the gap. */
  method InsertNext(a: array<int>, i: int, ghost s0: seq<int>)
    requires InsertionOuter(s0, a[..], i) && i < a.Length
    modifies a
    ensures InsertionOuter(s0, a[..], i + 1)
    ensures a[i + 1..] == old(a[i + 1..])
    ensures multiset(a[..i + 1]) == multiset(old(a[..i + 1]))
  {
    ghost var s := a[..];
    var key := a[i];
    var j := i - 1;
    ghost var t := s;
    while j >= 0 && a[j] > key
      invariant a[..] == t && Shifting(s, t, i, j, key)
      decreases j
    {
      a[j + 1] := a[j];
      ShiftOne(s, t, a[..], i, j, key);
      t := a[..];
      j := j - 1;
    }
    a[j + 1] := key;
    ShiftingDone(s0, s, t, a[..], i, j, key);
    InsertedInPrefix(s, t, a[..], i, j, key);
  }

  /** `insertionSort(array)`: ascending and a rearrangement of the input. */
  method InsertionSort(a: array<int>)
    modifies a
    ensures Sorted(a[..]) && multiset(a[..]) == multiset(old(a[..]))
  {
    ghost var s0 := a[..];
    var n := a.Length;
    var i := 1;
    while i < n
      invariant 1 <= i && (i <= n || n == 0)
      invariant InsertionOuter(s0, a[..], if n == 0 then 0 else i)
    {
      InsertNext(a, i, s0);
      i := i + 1;
    }
  }

  // ---------------------------------------------------------------------------
  // Brute-force string matching

  /** `pattern` occurs in `text` starting at position i. */
  predicate MatchesAt(text: Java.JavaString, pattern: Java.JavaString, i: int) {
    0 <= i && i + |pattern| <= |text| && text[i..i + |pattern|] == pattern
  }

  /** `bruteForceStringMatch(text, pattern)`: the first position where the pattern occurs,
      or -1 when it occurs nowhere. Positions and lengths count UTF-16 code units, as
      `length()` and `charAt` do. Every code unit read is inside both strings. */
  method BruteForceStringMatch(text: Java.JavaString, pattern: Java.JavaString) returns (r: int)
    ensures r == -1 || MatchesAt(text, pattern, r)
    ensures forall i :: 0 <= i && (r == -1 || i < r) ==> !MatchesAt(text, pattern, i)
    ensures pattern == [] ==> r == 0
    ensures |pattern| > |text| ==> r == -1
  {
    var n := |text|;
    var m := |pattern|;
    var i := 0;
    while i <= n - m
      invariant 0 <= i && (i <= n - m + 1 || m > n)
      invariant m == 0 ==> i == 0
      invariant forall k :: 0 <= k < i ==> !MatchesAt(text, pattern, k)
    {
      var j := 0;
      while j < m && text[i + j] == pattern[j]
        invariant 0 <= j <= m
        invariant forall k :: 0 <= k < j ==> text[i + k] == pattern[k]
      {
        j := j + 1;
      }
      if j == m {
        assert text[i..i + m] == pattern;
        return i;
      }
      assert text[i..i + m][j] != pattern[j];
      i := i + 1;
    }
    return -1;
  }
}
