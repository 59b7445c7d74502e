/** `LogarithmicTime`: binary search, Euclid's algorithm and a range-based merge sort
    that merges through two temporary arrays. */
module LogarithmicTime {
  import opened Seqs
  import opened Merging
  import opened ArrayMerge
  import Java

  /** `binarySearch`: an index holding `key`, or -1. The array is meant to be ascending;
      the method does not check it. A non-negative answer always holds `key`; on an
      ascending array -1 means `key` is absent. */
  method BinarySearch(a: array<int>, key: int) returns (r: int)
    ensures -1 <= r < a.Length
    ensures 0 <= r ==> a[r] == key
    ensures r == -1 && Sorted(a[..]) ==> key !in a[..]
  {
    var left, right := 0, a.Length - 1;
    while left <= right
      invariant 0 <= left <= right + 1 <= a.Length
      invariant Sorted(a[..]) ==> forall k :: 0 <= k < left ==> a[k] < key
      invariant Sorted(a[..]) ==> forall k :: right < k < a.Length ==> key < a[k]
      decreases right - left
    {
      // right - left >= 0 here, so Java's truncating `/` agrees with Dafny's, and mid
      // stays between left and right: no index can leave the array or overflow.
      var mid := left + (right - left) / 2;
      assert left <= mid <= right;
      if a[mid] == key {
        return mid;
      }
      if a[mid] < key {
        left := mid + 1;
      } else {
        right := mid - 1;
      }
    }
    return -1;
  }

  /** `findGCD`: Euclid's algorithm with Java's `%`. It terminates because the second
      argument shrinks in absolute value at every call. */
  function FindGCD(a: int, b: int): (r: int)
    ensures a >= 0 && b >= 0 ==> r >= 0
    decreases Java.Abs(b)
  {
    if b == 0 then a else FindGCD(b, Java.Rem(a, b))
  }

  /** d divides x. */
  ghost predicate Divides(d: int, x: int) {
    exists k :: x == d * k
  }

  lemma DividesCombination(d: int, x: int, y: int, q: int)
    requires Divides(d, x) && Divides(d, y)
    ensures Divides(d, q * x + y)
  {
    var kx :| x == d * kx;
    var ky :| y == d * ky;
    assert q * x == d * (q * kx);
    assert q * x + y == d * (q * kx + ky);
  }

  /** The result divides both arguments (for every sign of the arguments). */
  lemma {:induction false} FindGCDDividesBoth(a: int, b: int)
    ensures Divides(FindGCD(a, b), a) && Divides(FindGCD(a, b), b)
    decreases Java.Abs(b)
  {
    var g := FindGCD(a, b);
    if b == 0 {
      assert a == g * 1 && b == g * 0;
    } else {
      var r := Java.Rem(a, b);
      FindGCDDividesBoth(b, r);
      Java.QuotRem(a, b);
      DividesCombination(g, b, r, Java.Quot(a, b));
    }
  }

  /** Every common divisor of the arguments divides the result. */
  lemma {:induction false} CommonDivisorDividesFindGCD(a: int, b: int, d: int)
    requires Divides(d, a) && Divides(d, b)
    ensures Divides(d, FindGCD(a, b))
    decreases Java.Abs(b)
  {
    if b != 0 {
      var r := Java.Rem(a, b);
      Java.QuotRem(a, b);
      DividesCombination(d, b, a, -Java.Quot(a, b));
      assert r == -Java.Quot(a, b) * b + a;
      CommonDivisorDividesFindGCD(b, r, d);
    }
  }

  /** Only 0 is a multiple of 0. */
  lemma ZeroDivides(x: int)
    requires Divides(0, x)
    ensures x == 0
  {
    var k :| x == 0 * k;
  }

  /** A positive divisor of a positive number does not exceed it. */
  lemma DivisorAtMost(d: int, x: int)
    requires d > 0 && x > 0 && Divides(d, x)
    ensures d <= x
  {
    var k :| x == d * k;
    assert d * k == d + d * (k - 1);
  }

  /** For non-negative arguments, not both zero, the result is the greatest common
      divisor: a positive common divisor that no common divisor exceeds. */
  lemma FindGCDIsGreatest(a: int, b: int, d: int)
    requires a >= 0 && b >= 0 && (a != 0 || b != 0)
    requires Divides(d, a) && Divides(d, b)
    ensures FindGCD(a, b) > 0
    ensures d <= FindGCD(a, b)
  {
    var g := FindGCD(a, b);
    FindGCDDividesBoth(a, b);
    if g == 0 {
      ZeroDivides(a);
      ZeroDivides(b);
    }
    CommonDivisorDividesFindGCD(a, b, d);
    if d > 0 {
      DivisorAtMost(d, g);
    }
  }

  /** `merge(array, left, mid, right)`: copies the two halves `array[left..mid]` and
      `array[mid+1..right]` into temporary arrays, then merges them back from `left` on,
      taking the left element on ties (`<=`). Nothing outside [left, right] changes. */
  method Merge(a: array<int>, left: int, mid: int, right: int)
    requires 0 <= left <= mid + 1 <= right + 1 <= a.Length
    modifies a
    ensures Overwritten(a[..], old(a[..]), left, Merged(old(a[left..mid + 1]), old(a[mid + 1..right + 1]), true))
  {
    var n1 := mid - left + 1;
    var n2 := right - mid;
    var leftArray := CopyOut(a, left, n1);
    var rightArray := CopyOut(a, mid + 1, n2);
    var xs, ys := leftArray[..], rightArray[..];
    ghost var s0 := a[..];
    ghost var m := Merged(xs, ys, true);
    var i, j := MergeRuns(a, xs, ys, left, true);
    CopyRemaining(a, xs, i, left + i + j, left, s0, m[..i + j]);
    CopyRemaining(a, ys, j, left + n1 + j, left, s0, m[..i + j] + xs[i..]);
    MergeAssembled(xs, ys, m, i, j, true);
  }

  /** `mergeSort(array, left, right)`: sorts the range [left, right] in place and leaves
      the rest of the array alone; when left >= right it does nothing at all (and then
      touches no index, so the bounds matter only when left < right). */
  method MergeSort(a: array<int>, left: int, right: int)
    requires left < right ==> 0 <= left && right < a.Length
    modifies a
    ensures left < right ==> SortedRange(old(a[..]), a[..], left, right)
    ensures left >= right ==> a[..] == old(a[..])
    decreases right - left
  {
    if left < right {
      var mid := left + (right - left) / 2;
      ghost var s0 := a[..];
      MergeSort(a, left, mid);
      ghost var s1 := a[..];
      MergeSort(a, mid + 1, right);
      ghost var s2 := a[..];
      Merge(a, left, mid, right);
      MergeSortStep(s0, s1, s2, a[..], left, mid, right);
    }
  }

  /** After sorting [left, mid] and then [mid+1, right], both halves are ascending and
      together hold what the whole range held at the start. */
  lemma SortedHalves(s0: seq<int>, s1: seq<int>, s2: seq<int>, left: int, mid: int, right: int)
    requires left <= mid < right
    requires SortedRange(s0, s1, left, mid) && SortedRange(s1, s2, mid + 1, right)
    ensures s2[..left] == s0[..left] && s2[right + 1..] == s0[right + 1..]
    ensures Sorted(s2[left..mid + 1]) && Sorted(s2[mid + 1..right + 1])
    ensures multiset(s2[left..mid + 1]) + multiset(s2[mid + 1..right + 1]) == multiset(s0[left..right + 1])
  {
    assert s2[left..mid + 1] == s2[..mid + 1][left..] == s1[..mid + 1][left..] == s1[left..mid + 1];
    assert s1[mid + 1..right + 1] == s1[mid + 1..][..right - mid] == s0[mid + 1..][..right - mid] == s0[mid + 1..right + 1];
    assert s0[left..right + 1] == s0[left..mid + 1] + s0[mid + 1..right + 1];
    assert s2[..left] == s2[..mid + 1][..left] == s1[..mid + 1][..left] == s1[..left];
    assert s1[right + 1..] == s1[mid + 1..][right - mid..] == s0[mid + 1..][right - mid..] == s0[right + 1..];
  }

  /** One level of the recursion: sorting [left, mid], then [mid+1, right], then merging
      the two halves sorts [left, right]. */
  lemma MergeSortStep(s0: seq<int>, s1: seq<int>, s2: seq<int>, s3: seq<int>, left: int, mid: int, right: int)
    requires left <= mid < right
    requires SortedRange(s0, s1, left, mid) && SortedRange(s1, s2, mid + 1, right)
    requires Overwritten(s3, s2, left, Merged(s2[left..mid + 1], s2[mid + 1..right + 1], true))
    ensures SortedRange(s0, s3, left, right)
  {
    SortedHalves(s0, s1, s2, left, mid, right);
    MergedLength(s2[left..mid + 1], s2[mid + 1..right + 1], true);
    OverwrittenSlices(s3, s2, left, Merged(s2[left..mid + 1], s2[mid + 1..right + 1], true));
    MergeSortedHalves(s0, s2, s3, left, mid, right);
  }

  /** Merging the two sorted halves sorts the whole range. */
  lemma MergeSortedHalves(s0: seq<int>, s2: seq<int>, s3: seq<int>, left: int, mid: int, right: int)
    requires 0 <= left <= mid < right < |s0| == |s2|
    requires s2[..left] == s0[..left] && s2[right + 1..] == s0[right + 1..]
    requires Sorted(s2[left..mid + 1]) && Sorted(s2[mid + 1..right + 1])
    requires multiset(s2[left..mid + 1]) + multiset(s2[mid + 1..right + 1]) == multiset(s0[left..right + 1])
    requires |s3| == |s2| && s3[left..right + 1] == Merged(s2[left..mid + 1], s2[mid + 1..right + 1], true)
    requires s3[..left] == s2[..left] && s3[right + 1..] == s2[right + 1..]
    ensures SortedRange(s0, s3, left, right)
  {
    MergedSorted(s2[left..mid + 1], s2[mid + 1..right + 1], true);
    MergedPermutes(s2[left..mid + 1], s2[mid + 1..right + 1], true);
  }
}
