/** The array side of the two merge routines: the merge loop that writes the smaller
    head back into the array, and the loops that copy what is left of either run. Each
    step is specified against `Merging.Merged`, so a caller learns that the array now
    holds the merge of the two runs, written over a block, and that nothing else moved. */
module ArrayMerge {
  import opened Merging

  /** s is s0 with the block w written over it from position start on. */
  predicate Overwritten(s: seq<int>, s0: seq<int>, start: int, w: seq<int>) {
    && |s| == |s0| && 0 <= start && start + |w| <= |s0|
    && forall t :: 0 <= t < |s| ==> s[t] == if start <= t < start + |w| then w[t - start] else s0[t]
  }

  /** An overwrite seen as slices: the block sits at [start, start + |w|) and the rest is unchanged. */
  lemma OverwrittenSlices(s: seq<int>, s0: seq<int>, start: int, w: seq<int>)
    requires Overwritten(s, s0, start, w)
    ensures s[start..start + |w|] == w
    ensures s[..start] == s0[..start] && s[start + |w|..] == s0[start + |w|..]
  {
  }

  lemma SuffixStep(m: seq<int>, p: int, x: int, rest: seq<int>)
    requires 0 <= p <= |m| && m[p..] == [x] + rest
    ensures p < |m| && m[p] == x && m[p + 1..] == rest
  {
    assert m[p..][0] == x;
    assert m[p + 1..] == m[p..][1..];
  }

  /** A merge under way, with i + j elements already written: taking the left head writes
      the next element of the whole merge. */
  lemma LeftStep(m: seq<int>, xs: seq<int>, ys: seq<int>, leftOnTies: bool, i: int, j: int)
    requires 0 <= i < |xs| && 0 <= j <= |ys| && i + j <= |m| && m[i + j..] == Merged(xs[i..], ys[j..], leftOnTies)
    requires j == |ys| || xs[i] < ys[j] || (leftOnTies && xs[i] == ys[j])
    ensures i + j < |m| && m[i + j] == xs[i] && m[i + j + 1..] == Merged(xs[i + 1..], ys[j..], leftOnTies)
  {
    MergedTakesLeft(xs, ys, leftOnTies, i, j);
    SuffixStep(m, i + j, xs[i], Merged(xs[i + 1..], ys[j..], leftOnTies));
  }

  lemma RightStep(m: seq<int>, xs: seq<int>, ys: seq<int>, leftOnTies: bool, i: int, j: int)
    requires 0 <= i <= |xs| && 0 <= j < |ys| && i + j <= |m| && m[i + j..] == Merged(xs[i..], ys[j..], leftOnTies)
    requires i == |xs| || !(xs[i] < ys[j] || (leftOnTies && xs[i] == ys[j]))
    ensures i + j < |m| && m[i + j] == ys[j] && m[i + j + 1..] == Merged(xs[i..], ys[j + 1..], leftOnTies)
  {
    MergedTakesRight(xs, ys, leftOnTies, i, j);
    SuffixStep(m, i + j, ys[j], Merged(xs[i..], ys[j + 1..], leftOnTies));
  }

  lemma MergedLength(xs: seq<int>, ys: seq<int>, leftOnTies: bool)
    ensures |Merged(xs, ys, leftOnTies)| == |xs| + |ys|
  {
    MergedPermutes(xs, ys, leftOnTies);
  }

  /** The copy loops that fill a temporary array: a fresh array holding a[from..from + n]. */
  method CopyOut(a: array<int>, from: int, n: int) returns (b: array<int>)
    requires 0 <= from && 0 <= n && from + n <= a.Length
    ensures fresh(b) && b[..] == a[from..from + n]
  {
    b := new int[n];
    for t := 0 to n
      invariant forall s :: 0 <= s < t ==> b[s] == a[from + s]
    {
      b[t] := a[from + t];
    }
  }

  /** One pass of the merge loop: compare the heads xs[i] and ys[j] and write the one that
      comes first (the left one on a tie when `leftOnTies`) at position start + i + j. */
  method TakeNext(a: array<int>, xs: seq<int>, ys: seq<int>, start: int, leftOnTies: bool,
                  i: int, j: int, ghost s0: seq<int>, ghost m: seq<int>) returns (i': int, j': int)
    requires 0 <= i < |xs| && 0 <= j < |ys| && 0 <= start && start + |m| <= a.Length
    requires i + j <= |m| && m[i + j..] == Merged(xs[i..], ys[j..], leftOnTies)
    requires Overwritten(a[..], s0, start, m[..i + j])
    modifies a
    ensures i' + j' == i + j + 1 && i <= i' <= |xs| && j <= j' <= |ys|
    ensures i' + j' <= |m| && m[i' + j'..] == Merged(xs[i'..], ys[j'..], leftOnTies)
    ensures Overwritten(a[..], s0, start, m[..i' + j'])
  {
    if xs[i] < ys[j] || (leftOnTies && xs[i] == ys[j]) {
      LeftStep(m, xs, ys, leftOnTies, i, j);
      a[start + i + j] := xs[i];
      i', j' := i + 1, j;
    } else {
      RightStep(m, xs, ys, leftOnTies, i, j);
      a[start + i + j] := ys[j];
      i', j' := i, j + 1;
    }
  }

  /** The merge loop proper: runs while both runs have elements left and stops when one is
      used up, having written the first i + j elements of the merge from position start. */
  method MergeRuns(a: array<int>, xs: seq<int>, ys: seq<int>, start: int, leftOnTies: bool) returns (i: int, j: int)
    requires 0 <= start && start + |xs| + |ys| <= a.Length
    modifies a
    ensures 0 <= i <= |xs| && 0 <= j <= |ys| && (i == |xs| || j == |ys|)
    ensures |Merged(xs, ys, leftOnTies)| == |xs| + |ys|
    ensures Merged(xs, ys, leftOnTies)[i + j..] == Merged(xs[i..], ys[j..], leftOnTies)
    ensures Overwritten(a[..], old(a[..]), start, Merged(xs, ys, leftOnTies)[..i + j])
  {
    ghost var m := Merged(xs, ys, leftOnTies);
    ghost var s0 := a[..];
    MergedLength(xs, ys, leftOnTies);
    i, j := 0, 0;
    while i < |xs| && j < |ys|
      invariant 0 <= i <= |xs| && 0 <= j <= |ys|
      invariant m[i + j..] == Merged(xs[i..], ys[j..], leftOnTies)
      invariant Overwritten(a[..], s0, start, m[..i + j])
      decreases |xs| + |ys| - i - j
    {
      i, j := TakeNext(a, xs, ys, start, leftOnTies, i, j, s0, m);
    }
  }

  /** A tail loop: copies src[from..] into a from position k, right behind the block
      `done` already written at start. */
  method CopyRemaining(a: array<int>, src: seq<int>, from: int, k: int,
                       ghost start: int, ghost s0: seq<int>, ghost done: seq<int>)
    requires 0 <= from <= |src| && k == start + |done| && k + |src| - from <= a.Length
    requires Overwritten(a[..], s0, start, done)
    modifies a
    ensures Overwritten(a[..], s0, start, done + src[from..])
  {
    var i, p := from, k;
    while i < |src|
      invariant from <= i <= |src| && p == k + i - from
      invariant forall t :: 0 <= t < a.Length ==>
        a[t] == if start <= t < k then done[t - start] else if k <= t < p then src[from + t - k] else s0[t]
    {
      a[p] := src[i];
      i := i + 1;
      p := p + 1;
    }
  }

  /** Once one run is used up, the merged prefix followed by what is left of both runs
      (one of the two leftovers is empty) is the whole merge. */
  lemma MergeAssembled(xs: seq<int>, ys: seq<int>, m: seq<int>, i: int, j: int, leftOnTies: bool)
    requires 0 <= i <= |xs| && 0 <= j <= |ys| && (i == |xs| || j == |ys|)
    requires i + j <= |m| && m[i + j..] == Merged(xs[i..], ys[j..], leftOnTies)
    ensures m[..i + j] + xs[i..] + ys[j..] == m
  {
    if i == |xs| {
      assert xs[i..] == [];
    } else {
      assert ys[j..] == [];
    }
    assert m == m[..i + j] + m[i + j..];
  }
}
