/** `LinearithmicTime`: a merge sort that copies each half into a new array, and a
    quicksort over Lomuto's partition scheme. */
module LinearithmicTime {
  import opened Seqs
  import opened Merging
  import opened ArrayMerge
  import opened Arrays

  // ---------------------------------------------------------------------------
  // Merge sort

  /** `mergeSort(array)`: ascending and a rearrangement of the input; an array of
      length 0 or 1 is returned untouched. */
  method MergeSort(a: array<int>)
    modifies a
    ensures Sorted(a[..]) && multiset(a[..]) == multiset(old(a[..]))
    ensures a.Length <= 1 ==> a[..] == old(a[..])
    decreases a.Length
  {
    if a.Length <= 1 {
      return;
    }
    var middle := a.Length / 2;
    var left := CopyOut(a, 0, middle);
    var right := CopyOut(a, middle, a.Length - middle);
    ghost var l0, r0 := left[..], right[..];
    assert l0 == old(a[..])[..middle] && r0 == old(a[..])[middle..];
    MergeSort(left);
    MergeSort(right);
    Merge(a, left, right);
    MergeSortStep(old(a[..]), l0, r0, left[..], right[..], a[..], middle);
  }

  /** One level of the recursion: the two copies were sorted on their own and merged back
      over the whole array. */
  lemma MergeSortStep(s0: seq<int>, l0: seq<int>, r0: seq<int>, l1: seq<int>, r1: seq<int>, s: seq<int>, middle: int)
    requires 0 <= middle <= |s0| && l0 == s0[..middle] && r0 == s0[middle..]
    requires Sorted(l1) && multiset(l1) == multiset(l0)
    requires Sorted(r1) && multiset(r1) == multiset(r0)
    requires Overwritten(s, s0, 0, Merged(l1, r1, false))
    ensures Sorted(s) && multiset(s) == multiset(s0)
  {
    var m := Merged(l1, r1, false);
    MergedPermutes(l1, r1, false);
    MergedSorted(l1, r1, false);
    assert |l1| == |l0| && |r1| == |r0| by {
      assert |l1| == |multiset(l1)| && |l0| == |multiset(l0)|;
      assert |r1| == |multiset(r1)| && |r0| == |multiset(r0)|;
    }
    OverwrittenSlices(s, s0, 0, m);
    assert s == m;
    assert s0 == l0 + r0;
  }

  /** `merge(result, left, right)`: writes the merge of `left` and `right` over the front
      of `result`, taking the right element on ties (`<`). With `result.length` equal to
      `left.length + right.length`, as at the one call site, every slot is overwritten. */
  method Merge(result: array<int>, left: array<int>, right: array<int>)
    requires result != left && result != right
    requires left.Length + right.Length <= result.Length
    modifies result
    ensures Overwritten(result[..], old(result[..]), 0, Merged(left[..], right[..], false))
  {
    var xs, ys := left[..], right[..];
    ghost var s0 := result[..];
    ghost var m := Merged(xs, ys, false);
    var i, j := MergeRuns(result, xs, ys, 0, false);
    CopyRemaining(result, xs, i, i + j, 0, s0, m[..i + j]);
    CopyRemaining(result, ys, j, left.Length + j, 0, s0, m[..i + j] + xs[i..]);
    MergeAssembled(xs, ys, m, i, j, false);
  }

  // ---------------------------------------------------------------------------
  // Partition and quicksort

  /** What Lomuto's partition of [low, high] leaves behind: the old last element (the
      pivot) at p, everything before it in the range smaller, everything after it at
      least as large, and the range rearranged with nothing outside it touched. */
  predicate PartitionedAt(s0: seq<int>, s: seq<int>, low: int, p: int, high: int) {
    && 0 <= low <= p <= high < |s0|
    && PermutedRange(s0, s, low, high)
    && s[p] == s0[high]
    && (forall k :: low <= k < p ==> s[k] < s[p])
    && (forall k :: p < k <= high ==> s[p] <= s[k])
  }

  /** The loop invariant of Lomuto's scheme, j positions into [low, high): [low, i] holds
      elements below the pivot, (i, j) elements at least the pivot, and the pivot still
      sits at high. */
  predicate LomutoInv(s0: seq<int>, s: seq<int>, low: int, high: int, i: int, j: int, pivot: int) {
    && 0 <= low <= j <= high < |s0|
    && low - 1 <= i < j
    && |s| == |s0| && multiset(s) == multiset(s0)
    && (forall k :: 0 <= k < |s| && !(low <= k <= high) ==> s[k] == s0[k])
    && s[high] == pivot
    && (forall k :: low <= k <= i ==> s[k] < pivot)
    && (forall k :: i < k < j ==> pivot <= s[k])
  }

  /** A smaller element is swapped to the end of the "below" block. */
  lemma LomutoTake(s0: seq<int>, s: seq<int>, low: int, high: int, i: int, j: int, pivot: int)
    requires LomutoInv(s0, s, low, high, i, j, pivot) && j < high && s[j] < pivot
    ensures LomutoInv(s0, Swapped(s, i + 1, j), low, high, i + 1, j + 1, pivot)
  {
    SwappedMultiset(s, i + 1, j);
  }

  /** An element at least the pivot just extends the "at least" block. */
  lemma LomutoSkip(s0: seq<int>, s: seq<int>, low: int, high: int, i: int, j: int, pivot: int)
    requires LomutoInv(s0, s, low, high, i, j, pivot) && j < high && pivot <= s[j]
    ensures LomutoInv(s0, s, low, high, i, j + 1, pivot)
  {
  }

  /** The closing exchange puts the pivot between the two blocks. */
  lemma LomutoDone(s0: seq<int>, s: seq<int>, t: seq<int>, low: int, high: int, i: int)
    requires 0 <= high < |s0| && LomutoInv(s0, s, low, high, i, high, s0[high])
    requires t == Swapped(s, i + 1, high)
    ensures PartitionedAt(s0, t, low, i + 1, high)
  {
    SwappedMultiset(s, i + 1, high);
  }

  /** One pass of the partition loop: an element below the pivot is exchanged to the end
      of the "below" block, which grows by one; any other element stays where it is. */
  method PartitionStep(a: array<int>, low: int, high: int, pivot: int, i: int, j: int,
                       ghost s0: seq<int>, ghost s: seq<int>) returns (i': int, ghost s': seq<int>)
    requires a[..] == s && LomutoInv(s0, s, low, high, i, j, pivot) && j < high
    modifies a
    ensures a[..] == s' && LomutoInv(s0, s', low, high, i', j + 1, pivot)
  {
    if a[j] < pivot {
      LomutoTake(s0, s, low, high, i, j, pivot);
      i', s' := i + 1, Swapped(s, i + 1, j);
      Swap(a, i + 1, j);
    } else {
      LomutoSkip(s0, s, low, high, i, j, pivot);
      i', s' := i, s;
    }
  }

  /** `partition(array, low, high)`. For low <= high it partitions [low, high] around the
      last element. For low > high the loop does not run and the final exchange swaps
      `array[low]` with `array[high]`; p is then low. Java reads `array[high]` and
      `array[low]` in either case, so both must be indices. */
  method Partition(a: array<int>, low: int, high: int) returns (p: int)
    requires 0 <= low < a.Length && 0 <= high < a.Length
    modifies a
    ensures low <= high ==> PartitionedAt(old(a[..]), a[..], low, p, high)
    ensures low > high ==> p == low && a[..] == Swapped(old(a[..]), low, high)
  {
    var pivot := a[high];
    var i := low - 1;
    if high < low {
      // The loop below does not run; Java goes straight to the closing exchange.
      Swap(a, i + 1, high);
      return i + 1;
    }
    ghost var s0 := a[..];
    ghost var s := s0;
    var j := low;
    while j < high
      invariant a[..] == s
      invariant LomutoInv(s0, s, low, high, i, j, pivot)
    {
      i, s := PartitionStep(a, low, high, pivot, i, j, s0, s);
      j := j + 1;
    }
    assert j == high && pivot == s0[high];
    Swap(a, i + 1, high);
    LomutoDone(s0, s, a[..], low, high, i);
    p := i + 1;
  }

  /** How a call ends on the JVM: it returns, or it throws because an index fell outside
      the array, or because the call stack ran out. */
  datatype Outcome = Returned | OutOfBounds | StackOverflow

  /** `quickSort(array, low, high)` as written: it partitions first and then recurses, with
      no test that the range holds two elements or more. `depth` is the stack that is left;
      a call with none left overflows. The call never returns normally, so the second
      recursive call (on the range right of the pivot) is never reached and is not modelled:
      the outcome of the first call is the outcome of the whole. From low 0, the entry every
      caller uses, it always ends out of bounds once the stack is deep enough: the leftmost
      recursion reaches `quickSort(array, 0, -1)`, which reads `array[-1]`. */
  method QuickSortAsWritten(a: array<int>, low: int, high: int, depth: nat) returns (o: Outcome)
    modifies a
    ensures o != Returned
    ensures low == 0 && -1 <= high < a.Length && depth > high + 1 ==> o == OutOfBounds
    decreases depth
  {
    if depth == 0 {
      return StackOverflow;
    }
    if !(0 <= low < a.Length && 0 <= high < a.Length) {
      return OutOfBounds;
    }
    var p := Partition(a, low, high);
    o := QuickSortAsWritten(a, low, p - 1, depth - 1);
  }

  /** Quicksort with the base case its own documentation describes: a range of fewer than
      two elements is left as it is; a longer one is partitioned and both sides sorted. */
  method QuickSort(a: array<int>, low: int, high: int)
    requires low < high ==> 0 <= low && high < a.Length
    modifies a
    ensures low < high ==> SortedRange(old(a[..]), a[..], low, high)
    ensures low >= high ==> a[..] == old(a[..])
    decreases high - low
  {
    if low < high {
      var p := Partition(a, low, high);
      ghost var s1 := a[..];
      QuickSort(a, low, p - 1);
      ghost var s2 := a[..];
      QuickSort(a, p + 1, high);
      QuickSortStep(old(a[..]), s1, s2, a[..], low, p, high);
    }
  }

  /** One level of the recursion: partitioned around p, then both sides sorted, the whole
      range is sorted. */
  lemma QuickSortStep(s0: seq<int>, s1: seq<int>, s2: seq<int>, s3: seq<int>, low: int, p: int, high: int)
    requires PartitionedAt(s0, s1, low, p, high)
    requires low < p - 1 ==> SortedRange(s1, s2, low, p - 1)
    requires low >= p - 1 ==> s2 == s1
    requires p + 1 < high ==> SortedRange(s2, s3, p + 1, high)
    requires p + 1 >= high ==> s3 == s2
    ensures SortedRange(s0, s3, low, high)
  {
    if low >= p - 1 {
      ShortRangeSorted(s1, low, p - 1);
    }
    if p + 1 >= high {
      ShortRangeSorted(s2, p + 1, high);
    }
    SortedRangeIsPermuted(s1, s2, low, p - 1);
    SortedRangeIsPermuted(s2, s3, p + 1, high);
    PermutedRangeWiden(s1, s2, low, p - 1, low, high);
    PermutedRangeWiden(s2, s3, p + 1, high, low, high);
    PermutedRangeTrans(s0, s1, s2, low, high);
    PermutedRangeTrans(s0, s2, s3, low, high);
    PermutedRangeSlices(s0, s3, low, high);
    SidesSorted(s1, s2, s3, low, p, high);
  }

  /** The order half of `QuickSortStep`. */
  lemma SidesSorted(s1: seq<int>, s2: seq<int>, s3: seq<int>, low: int, p: int, high: int)
    requires 0 <= low <= p <= high < |s1|
    requires forall k :: low <= k < p ==> s1[k] < s1[p]
    requires forall k :: p < k <= high ==> s1[p] <= s1[k]
    requires SortedRange(s1, s2, low, p - 1) && SortedRange(s2, s3, p + 1, high)
    ensures Sorted(s3[low..high + 1])
  {
    var pivot := s1[p];
    assert Below(s1[low..p], pivot);
    BoundsCarry(s2[low..p], s1[low..p], pivot);
    assert NotBelow(s2[p + 1..high + 1], pivot) by {
      assert s2[p + 1..high + 1] == s1[p + 1..high + 1];
    }
    BoundsCarry(s3[p + 1..high + 1], s2[p + 1..high + 1], pivot);
    assert s3[low..p] == s2[low..p] && s3[p] == pivot by {
      assert s3[..p + 1] == s2[..p + 1];
      assert s2[p..] == s1[p..];
      assert s3[p] == s3[..p + 1][p] && s2[p] == s2[p..][0];
    }
    SortedAround(s3[low..p], pivot, s3[p + 1..high + 1]);
    assert s3[low..high + 1] == s3[low..p] + [pivot] + s3[p + 1..high + 1];
  }
}
