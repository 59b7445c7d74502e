/** Vocabulary shared by the models of the algorithm catalogue: ascending order,
    distinctness and the identity arrangement 0..n-1, with the counting facts that
    the sorting and enumeration proofs rest on. */
module Seqs {

  /** Ascending (non-decreasing) order, the order every sort in the catalogue produces. */
  predicate Sorted(s: seq<int>) {
    forall i, j :: 0 <= i < j < |s| ==> s[i] <= s[j]
  }

  /** Non-increasing order: the last arrangement in lexicographic order. */
  predicate NonIncreasing(s: seq<int>) {
    forall i, j :: 0 <= i < j < |s| ==> s[i] >= s[j]
  }

  /** No value occurs twice. */
  predicate Distinct<T(==)>(s: seq<T>) {
    forall i, j :: 0 <= i < j < |s| ==> s[i] != s[j]
  }

  /** The elements of a sequence, as a set. */
  function Elems<T(==)>(s: seq<T>): set<T> {
    set x | x in s
  }

  /** The identity arrangement [0, 1, ..., n-1]. */
  function Range(n: nat): (r: seq<int>)
    ensures |r| == n
    ensures forall i :: 0 <= i < n ==> r[i] == i
  {
    seq(n, i => i)
  }

  /** s arranges exactly the values 0..n-1, each once. */
  predicate IsArrangement(s: seq<int>, n: nat) {
    multiset(s) == multiset(Range(n))
  }

  // ---------------------------------------------------------------------------
  // Counting

  lemma {:induction false} DistinctCard<T>(s: seq<T>)
    requires Distinct(s)
    ensures |Elems(s)| == |s|
  {
    if s != [] {
      DistinctCard(s[1..]);
      assert Elems(s) == {s[0]} + Elems(s[1..]);
      assert s[0] !in Elems(s[1..]);
    }
  }

  /** In a distinct sequence every value occurs once or not at all. */
  lemma {:induction false} DistinctMultiplicity<T>(s: seq<T>, x: T)
    requires Distinct(s)
    ensures multiset(s)[x] == if x in s then 1 else 0
  {
    if s != [] {
      DistinctMultiplicity(s[1..], x);
      assert s == [s[0]] + s[1..];
      assert s[0] !in s[1..];
    }
  }

  /** A value that occurs at two positions has multiplicity at least two. */
  lemma TwiceMultiplicity<T>(s: seq<T>, i: int, j: int)
    requires 0 <= i < j < |s| && s[i] == s[j]
    ensures multiset(s)[s[i]] >= 2
  {
    assert s == s[..i] + [s[i]] + s[i + 1..j] + [s[j]] + s[j + 1..];
  }

  /** Two distinct sequences over the same values hold the same multiset. */
  lemma SameElemsSameMultiset<T>(s: seq<T>, t: seq<T>)
    requires Distinct(s) && Distinct(t) && Elems(s) == Elems(t)
    ensures multiset(s) == multiset(t)
  {
    forall x ensures multiset(s)[x] == multiset(t)[x] {
      assert x in s <==> x in Elems(s);
      assert x in t <==> x in Elems(t);
      DistinctMultiplicity(s, x);
      DistinctMultiplicity(t, x);
    }
  }

  /** Two distinct sequences with no value in common concatenate to a distinct sequence. */
  lemma DistinctConcat<T>(a: seq<T>, b: seq<T>)
    requires Distinct(a) && Distinct(b)
    requires forall i, j :: 0 <= i < |a| && 0 <= j < |b| ==> a[i] != b[j]
    ensures Distinct(a + b)
  {
    var c := a + b;
    forall i, j | 0 <= i < j < |c| ensures c[i] != c[j] {
      if j < |a| {
        assert c[i] == a[i] && c[j] == a[j];
      } else if i >= |a| {
        assert c[i] == b[i - |a|] && c[j] == b[j - |a|];
      } else {
        assert c[i] == a[i] && c[j] == b[j - |a|];
      }
    }
  }

  lemma RangeDistinct(n: nat)
    ensures Distinct(Range(n))
  {
  }

  /** The values of s all lie in 0..n-1. */
  lemma ElemsWithinRange(s: seq<int>, n: nat)
    requires forall k :: 0 <= k < |s| ==> 0 <= s[k] < n
    ensures Elems(s) <= Elems(Range(n))
  {
    forall x | x in Elems(s) ensures x in Elems(Range(n)) {
      var k :| 0 <= k < |s| && s[k] == x;
      assert Range(n)[x] == x;
    }
  }

  /** A subset is no larger than its superset. */
  lemma SubsetCard<T>(a: set<T>, b: set<T>)
    requires a <= b
    ensures |a| <= |b|
  {
    var rest := b - a;
    assert b == a + rest && a !! rest;
  }

  /** A subset as large as its superset is the whole superset. */
  lemma SubsetSameCard<T>(a: set<T>, b: set<T>)
    requires a <= b && |a| == |b|
    ensures a == b
  {
    var rest := b - a;
    assert b == a + rest && a !! rest;
    assert |rest| == 0;
  }

  /** Pigeonhole: n distinct values drawn from 0..n-1 are an arrangement of 0..n-1. */
  lemma DistinctInRangeIsArrangement(s: seq<int>, n: nat)
    requires |s| == n && Distinct(s)
    requires forall k :: 0 <= k < |s| ==> 0 <= s[k] < n
    ensures IsArrangement(s, n)
  {
    RangeDistinct(n);
    DistinctCard(s);
    DistinctCard(Range(n));
    ElemsWithinRange(s, n);
    SubsetSameCard(Elems(s), Elems(Range(n)));
    SameElemsSameMultiset(s, Range(n));
  }

  /** The converse: an arrangement of 0..n-1 has n distinct values in 0..n-1. */
  lemma ArrangementIsDistinctInRange(s: seq<int>, n: nat)
    requires IsArrangement(s, n)
    ensures |s| == n && Distinct(s)
    ensures forall k :: 0 <= k < |s| ==> 0 <= s[k] < n
  {
    assert |s| == |multiset(s)| == |multiset(Range(n))| == n;
    assert Distinct(Range(n));
    forall k | 0 <= k < |s| ensures 0 <= s[k] < n {
      assert s[k] in multiset(Range(n));
    }
    forall i, j | 0 <= i < j < |s| ensures s[i] != s[j] {
      if s[i] == s[j] {
        TwiceMultiplicity(s, i, j);
        DistinctMultiplicity(Range(n), s[i]);
        assert false;
      }
    }
  }

  // ---------------------------------------------------------------------------
  // Sorted arrangements

  /** `after` is `before` with the range [lo, hi] sorted in place: the range is ascending
      and holds the same elements as before, and nothing outside it changed. */
  predicate SortedRange(before: seq<int>, after: seq<int>, lo: int, hi: int) {
    && 0 <= lo <= hi + 1 <= |before| == |after|
    && after[..lo] == before[..lo]
    && after[hi + 1..] == before[hi + 1..]
    && Sorted(after[lo..hi + 1])
    && multiset(after[lo..hi + 1]) == multiset(before[lo..hi + 1])
  }

  /** The head of an ascending sequence is its least element. */
  lemma SortedHeadLeast(s: seq<int>, x: int)
    requires Sorted(s) && x in multiset(s)
    ensures s != [] && s[0] <= x
  {
    var k :| 0 <= k < |s| && s[k] == x;
  }

  lemma TailMultiset(s: seq<int>)
    requires s != []
    ensures multiset(s[1..]) == multiset(s) - multiset{s[0]}
  {
    assert s == [s[0]] + s[1..];
  }

  lemma SortedTail(s: seq<int>)
    requires Sorted(s) && s != []
    ensures Sorted(s[1..])
  {
  }

  lemma ConsEqual(s: seq<int>, t: seq<int>)
    requires s != [] && t != [] && s[0] == t[0] && s[1..] == t[1..]
    ensures s == t
  {
    assert s == [s[0]] + s[1..] && t == [t[0]] + t[1..];
  }

  /** A sorted sequence is determined by its multiset: "sorted and a permutation
      of the input" pins the output of a sort down completely. */
  lemma {:induction false} SortedUnique(s: seq<int>, t: seq<int>)
    requires Sorted(s) && Sorted(t) && multiset(s) == multiset(t)
    ensures s == t
    decreases |s|
  {
    assert |s| == |multiset(s)| == |multiset(t)| == |t|;
    if s != [] {
      assert s[0] in multiset(t) && t[0] in multiset(s);
      SortedHeadLeast(t, s[0]);
      SortedHeadLeast(s, t[0]);
      TailMultiset(s);
      TailMultiset(t);
      SortedTail(s);
      SortedTail(t);
      SortedUnique(s[1..], t[1..]);
      ConsEqual(s, t);
    }
  }

  // ---------------------------------------------------------------------------
  // Rearranging a range in place

  /** s with the values at positions x and y exchanged. */
  function Swapped(s: seq<int>, x: int, y: int): (r: seq<int>)
    requires 0 <= x < |s| && 0 <= y < |s|
    ensures |r| == |s| && r[x] == s[y] && r[y] == s[x]
    ensures forall k :: 0 <= k < |s| && k != x && k != y ==> r[k] == s[k]
  {
    s[x := s[y]][y := s[x]]
  }

  /** `after` is `before` rearranged within [lo, hi]: the same elements overall, and
      nothing outside the range changed. */
  predicate PermutedRange(before: seq<int>, after: seq<int>, lo: int, hi: int) {
    && 0 <= lo <= hi + 1 <= |before| == |after|
    && multiset(after) == multiset(before)
    && forall k :: 0 <= k < |after| && !(lo <= k <= hi) ==> after[k] == before[k]
  }

  lemma PermutedRangeRefl(s: seq<int>, lo: int, hi: int)
    requires 0 <= lo <= hi + 1 <= |s|
    ensures PermutedRange(s, s, lo, hi)
  {
  }

  /** The three pieces of a sequence around the range [lo, hi]. */
  lemma Pieces(s: seq<int>, lo: int, hi: int)
    requires 0 <= lo <= hi + 1 <= |s|
    ensures s == s[..lo] + s[lo..hi + 1] + s[hi + 1..]
    ensures multiset(s) == multiset(s[..lo]) + multiset(s[lo..hi + 1]) + multiset(s[hi + 1..])
  {
    assert s == s[..lo] + s[lo..hi + 1] + s[hi + 1..];
  }

  /** A rearrangement of a range, seen as slices: the range itself holds the same
      elements and the parts before and after it are untouched. */
  lemma PermutedRangeSlices(before: seq<int>, after: seq<int>, lo: int, hi: int)
    requires PermutedRange(before, after, lo, hi)
    ensures after[..lo] == before[..lo] && after[hi + 1..] == before[hi + 1..]
    ensures multiset(after[lo..hi + 1]) == multiset(before[lo..hi + 1])
  {
    assert after[..lo] == before[..lo];
    assert after[hi + 1..] == before[hi + 1..];
    Pieces(before, lo, hi);
    Pieces(after, lo, hi);
    var outside := multiset(before[..lo]) + multiset(before[hi + 1..]);
    assert multiset(after[lo..hi + 1]) == multiset(after) - outside;
    assert multiset(before[lo..hi + 1]) == multiset(before) - outside;
  }

  /** The converse: equal slices around a range with the same elements make a rearrangement. */
  lemma SlicesPermutedRange(before: seq<int>, after: seq<int>, lo: int, hi: int)
    requires 0 <= lo <= hi + 1 <= |before| == |after|
    requires after[..lo] == before[..lo] && after[hi + 1..] == before[hi + 1..]
    requires multiset(after[lo..hi + 1]) == multiset(before[lo..hi + 1])
    ensures PermutedRange(before, after, lo, hi)
  {
    Pieces(before, lo, hi);
    Pieces(after, lo, hi);
    forall k | 0 <= k < |after| && !(lo <= k <= hi) ensures after[k] == before[k] {
      if k < lo {
        assert after[k] == after[..lo][k];
      } else {
        assert after[k] == after[hi + 1..][k - hi - 1];
      }
    }
  }

  /** Exchanging two positions inside the range keeps it a rearrangement. */
  lemma SwappedPermutedRange(s0: seq<int>, s: seq<int>, lo: int, hi: int, x: int, y: int)
    requires PermutedRange(s0, s, lo, hi) && lo <= x <= hi && lo <= y <= hi
    ensures PermutedRange(s0, Swapped(s, x, y), lo, hi)
  {
    SwappedMultiset(s, x, y);
  }

  lemma SwappedMultiset(s: seq<int>, x: int, y: int)
    requires 0 <= x < |s| && 0 <= y < |s|
    ensures multiset(Swapped(s, x, y)) == multiset(s)
  {
    if x != y {
      var t := s[x := s[y]];
      assert multiset(t) == multiset(s) - multiset{s[x]} + multiset{s[y]};
      assert multiset(t[y := s[x]]) == multiset(t) - multiset{t[y]} + multiset{s[x]};
    }
  }

  /** Rearrangements compose. */
  lemma PermutedRangeTrans(s0: seq<int>, s1: seq<int>, s2: seq<int>, lo: int, hi: int)
    requires PermutedRange(s0, s1, lo, hi) && PermutedRange(s1, s2, lo, hi)
    ensures PermutedRange(s0, s2, lo, hi)
  {
  }

  /** A sorted range is a sorted rearrangement. */
  lemma SortedRangeIsPermuted(before: seq<int>, after: seq<int>, lo: int, hi: int)
    requires SortedRange(before, after, lo, hi)
    ensures PermutedRange(before, after, lo, hi) && Sorted(after[lo..hi + 1])
  {
    SlicesPermutedRange(before, after, lo, hi);
  }

  /** A rearrangement of a range is one of any range around it. */
  lemma PermutedRangeWiden(before: seq<int>, after: seq<int>, lo: int, hi: int, lo': int, hi': int)
    requires PermutedRange(before, after, lo, hi)
    requires 0 <= lo' <= lo && hi <= hi' < |before|
    ensures PermutedRange(before, after, lo', hi')
  {
  }

  /** A range of at most one element is sorted by doing nothing. */
  lemma ShortRangeSorted(s: seq<int>, lo: int, hi: int)
    requires 0 <= lo <= hi + 1 <= |s| && hi <= lo
    ensures SortedRange(s, s, lo, hi)
  {
  }

  /** Every element lies below v. */
  predicate Below(s: seq<int>, v: int) {
    forall k :: 0 <= k < |s| ==> s[k] < v
  }

  /** Every element is at least v. */
  predicate NotBelow(s: seq<int>, v: int) {
    forall k :: 0 <= k < |s| ==> v <= s[k]
  }

  /** A bound on every element depends on the elements only, not on their order. */
  lemma BoundsCarry(a: seq<int>, b: seq<int>, v: int)
    requires multiset(a) == multiset(b)
    ensures Below(b, v) ==> Below(a, v)
    ensures NotBelow(b, v) ==> NotBelow(a, v)
  {
    forall k | 0 <= k < |a| ensures exists t :: 0 <= t < |b| && b[t] == a[k] {
      assert a[k] in multiset(b);
    }
  }

  /** Two sorted pieces either side of a value that separates them form a sorted sequence. */
  lemma SortedAround(l: seq<int>, x: int, r: seq<int>)
    requires Sorted(l) && Sorted(r) && Below(l, x) && NotBelow(r, x)
    ensures Sorted(l + [x] + r)
  {
  }
}
