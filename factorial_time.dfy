/** `FactorialTime`: every ordering of an array by recursive extension, and the
    travelling-salesman problem by walking through every ordering of the cities in
    lexicographic order with `nextPermutation`. */
module FactorialTime {
  import opened Seqs
  import opened Numbers
  import opened Lex
  import opened Tours
  import opened Arrays
  import Java

  // ---------------------------------------------------------------------------
  // Generating all permutations

  /** What `generatePermutationsRecursive` emits for the partial ordering `current`: the
      ordering itself once it is as long as nums, and otherwise what each branch emits,
      one branch per element of nums, in order, that `current` does not contain yet. */
  function Completions(nums: seq<int>, current: seq<int>): seq<seq<int>>
    requires |current| <= |nums|
    decreases |nums| - |current|, 1, 0
  {
    if |current| == |nums| then [current] else Branches(nums, current, 0)
  }

  /** The branches for nums[k..], in order. */
  function Branches(nums: seq<int>, current: seq<int>, k: int): seq<seq<int>>
    requires |current| < |nums| && 0 <= k <= |nums|
    decreases |nums| - |current|, 0, |nums| - k
  {
    if k == |nums| then []
    else (if nums[k] in current then [] else Completions(nums, current + [nums[k]])) + Branches(nums, current, k + 1)
  }

  /** `generatePermutationsRecursive(nums, current, permutations)`: appends every ordering
      that extends `current` to `permutations`, and leaves `current` as it found it. */
  method GeneratePermutationsRecursive(nums: array<int>, current: Java.ArrayList<int>,
                                       permutations: Java.ArrayList<seq<int>>)
    requires |current.elems| <= nums.Length
    modifies current, permutations
    ensures current.elems == old(current.elems)
    ensures permutations.elems == old(permutations.elems) + Completions(nums[..], old(current.elems))
    decreases nums.Length - |current.elems|
  {
    if current.Size() == nums.Length {
      permutations.Add(current.elems);
      return;
    }
    ghost var c0, p0 := current.elems, permutations.elems;
    for k := 0 to nums.Length
      invariant current.elems == c0
      invariant permutations.elems + Branches(nums[..], c0, k) == p0 + Branches(nums[..], c0, 0)
    {
      var num := nums[k];
      ghost var before := permutations.elems;
      if !current.Contains(num) {
        current.Add(num);
        GeneratePermutationsRecursive(nums, current, permutations);
        current.RemoveLast();
        assert current.elems == c0;
      }
      assert permutations.elems + Branches(nums[..], c0, k + 1) == before + Branches(nums[..], c0, k);
    }
  }

  /** `generatePermutations(nums)`: every ordering, starting from the empty one. */
  method GeneratePermutations(nums: array<int>) returns (permutations: Java.ArrayList<seq<int>>)
    ensures permutations.elems == Completions(nums[..], [])
  {
    permutations := new Java.ArrayList<seq<int>>();
    var current := new Java.ArrayList<int>();
    GeneratePermutationsRecursive(nums, current, permutations);
  }

  /** p is a full ordering that extends `current`: as long as nums, starting with
      `current`, no value twice, and every value after `current` taken from nums. */
  predicate Extends(nums: seq<int>, current: seq<int>, p: seq<int>) {
    && |current| <= |p| == |nums|
    && p[..|current|] == current
    && Distinct(p)
    && forall k :: |current| <= k < |p| ==> p[k] in nums
  }

  /** Every emitted ordering extends `current`. */
  lemma {:induction false} CompletionsExtend(nums: seq<int>, current: seq<int>)
    requires |current| <= |nums| && Distinct(current)
    ensures forall p :: p in Completions(nums, current) ==> Extends(nums, current, p)
    decreases |nums| - |current|, 1, 0
  {
    if |current| < |nums| {
      BranchesExtend(nums, current, 0);
    }
  }

  /** ... and the branches for nums[k..] emit orderings whose next value comes from nums[k..]. */
  lemma {:induction false} BranchesExtend(nums: seq<int>, current: seq<int>, k: int)
    requires |current| < |nums| && 0 <= k <= |nums| && Distinct(current)
    ensures forall p :: p in Branches(nums, current, k) ==> Extends(nums, current, p) && p[|current|] in nums[k..]
    decreases |nums| - |current|, 0, |nums| - k
  {
    if k < |nums| {
      BranchesExtend(nums, current, k + 1);
      var x := nums[k];
      if x !in current {
        var next := current + [x];
        CompletionsExtend(nums, next);
        forall p | p in Completions(nums, next)
          ensures Extends(nums, current, p) && p[|current|] in nums[k..]
        {
          ExtendsShorter(nums, current, x, p);
          assert nums[k..][0] == x;
        }
      }
      forall p | p in Branches(nums, current, k + 1) ensures p[|current|] in nums[k..] {
        assert nums[k + 1..] == nums[k..][1..];
      }
    }
  }

  lemma ExtendsShorter(nums: seq<int>, current: seq<int>, x: int, p: seq<int>)
    requires Extends(nums, current + [x], p) && x in nums
    ensures Extends(nums, current, p) && p[|current|] == x
  {
    var c := |current|;
    assert p[..c] == p[..c + 1][..c];
    assert p[c] == p[..c + 1][c];
  }

  /** Counting values: a sequence has at most as many values as positions, and fewer
      when some value repeats. */
  lemma {:induction false} ElemsCard(s: seq<int>)
    ensures |Elems(s)| <= |s|
    ensures !Distinct(s) ==> |Elems(s)| < |s|
    decreases |s|
  {
    if s != [] {
      ElemsCard(s[1..]);
      assert Elems(s) == {s[0]} + Elems(s[1..]);
      if !Distinct(s) && Distinct(s[1..]) {
        var i, j :| 0 <= i < j < |s| && s[i] == s[j];
        assert i == 0 && s[0] == s[1..][j - 1];
      }
    }
  }

  /** With a repeated value nothing is emitted: `contains` refuses the second copy, so no
      partial ordering ever grows to the full length. */
  lemma RepeatsGiveNothing(nums: seq<int>)
    requires !Distinct(nums)
    ensures Completions(nums, []) == []
  {
    CompletionsExtend(nums, []);
    if Completions(nums, []) != [] {
      var p := Completions(nums, [])[0];
      assert Extends(nums, [], p);
      DistinctCard(p);
      ElemsCard(nums);
      SubsetCard(Elems(p), Elems(nums));
    }
  }

  /** Every emitted ordering rearranges nums. */
  lemma EachIsRearrangement(nums: seq<int>)
    ensures forall p :: p in Completions(nums, []) ==> multiset(p) == multiset(nums)
  {
    if !Distinct(nums) {
      RepeatsGiveNothing(nums);
    } else {
      CompletionsExtend(nums, []);
      forall p | p in Completions(nums, []) ensures multiset(p) == multiset(nums) {
        assert Extends(nums, [], p);
        DistinctCard(p);
        DistinctCard(nums);
        assert Elems(p) <= Elems(nums);
        SubsetSameCard(Elems(p), Elems(nums));
        SameElemsSameMultiset(p, nums);
      }
    }
  }

  /** Every full ordering that extends `current` is emitted. */
  lemma {:induction false} CompletionsContain(nums: seq<int>, current: seq<int>, q: seq<int>)
    requires |current| <= |nums| && Extends(nums, current, q)
    ensures q in Completions(nums, current)
    decreases |nums| - |current|
  {
    var c := |current|;
    if c == |nums| {
      assert q == q[..c];
    } else {
      var x := q[c];
      var j :| 0 <= j < |nums| && nums[j] == x;
      assert x !in current by {
        forall i | 0 <= i < c ensures current[i] != x {
          assert current[i] == q[i];
        }
      }
      var next := current + [x];
      assert q[..c + 1] == q[..c] + [x];
      CompletionsContain(nums, next, q);
      BranchesContain(nums, current, 0, j, q);
    }
  }

  lemma {:induction false} BranchesContain(nums: seq<int>, current: seq<int>, k: int, j: int, q: seq<int>)
    requires |current| < |nums| && 0 <= k <= j < |nums| && nums[j] !in current
    requires q in Completions(nums, current + [nums[j]])
    ensures q in Branches(nums, current, k)
    decreases j - k
  {
    if k < j {
      BranchesContain(nums, current, k + 1, j, q);
    }
  }

  /** When the values of nums are distinct, every rearrangement of nums is emitted. */
  lemma AllRearrangementsAppear(nums: seq<int>)
    requires Distinct(nums)
    ensures forall q :: multiset(q) == multiset(nums) ==> q in Completions(nums, [])
  {
    forall q | multiset(q) == multiset(nums) ensures q in Completions(nums, []) {
      assert |q| == |multiset(q)| == |multiset(nums)| == |nums|;
      forall k | 0 <= k < |q| ensures q[k] in nums {
        assert q[k] in multiset(nums);
      }
      forall i, j | 0 <= i < j < |q| ensures q[i] != q[j] {
        if q[i] == q[j] {
          TwiceMultiplicity(q, i, j);
          DistinctMultiplicity(nums, q[i]);
        }
      }
      CompletionsContain(nums, [], q);
    }
  }

  /** When the values of nums are distinct, no ordering is emitted twice. */
  lemma {:induction false} CompletionsDistinct(nums: seq<int>, current: seq<int>)
    requires |current| <= |nums| && Distinct(current) && Distinct(nums)
    ensures Distinct(Completions(nums, current))
    decreases |nums| - |current|, 1, 0
  {
    if |current| < |nums| {
      BranchesDistinct(nums, current, 0);
    }
  }

  lemma {:induction false} BranchesDistinct(nums: seq<int>, current: seq<int>, k: int)
    requires |current| < |nums| && 0 <= k <= |nums| && Distinct(current) && Distinct(nums)
    ensures Distinct(Branches(nums, current, k))
    decreases |nums| - |current|, 0, |nums| - k
  {
    if k < |nums| {
      BranchesDistinct(nums, current, k + 1);
      var x := nums[k];
      var b := Branches(nums, current, k + 1);
      if x !in current {
        var next := current + [x];
        var a := Completions(nums, next);
        CompletionsDistinct(nums, next);
        CompletionsExtend(nums, next);
        BranchesExtend(nums, current, k + 1);
        forall i, j | 0 <= i < |a| && 0 <= j < |b| ensures a[i] != b[j] {
          assert a[i] in a && b[j] in b;
          ExtendsShorter(nums, current, x, a[i]);
          var t :| 0 <= t < |nums[k + 1..]| && nums[k + 1..][t] == b[j][|current|];
          assert nums[k + 1 + t] != nums[k];
        }
        DistinctConcat(a, b);
      } else {
        assert Branches(nums, current, k) == b;
      }
    }
  }

  /** How many of nums[k..] the ordering `current` does not contain yet. */
  function Fresh(nums: seq<int>, current: seq<int>, k: int): nat
    requires 0 <= k <= |nums|
    decreases |nums| - k
  {
    if k == |nums| then 0 else (if nums[k] in current then 0 else 1) + Fresh(nums, current, k + 1)
  }

  /** For distinct nums: the values of nums[k..] missing from `current`, counted. */
  lemma {:induction false} FreshIsMissing(nums: seq<int>, current: seq<int>, k: int)
    requires 0 <= k <= |nums| && Distinct(nums)
    ensures Fresh(nums, current, k) == |Elems(nums[k..]) - Elems(current)|
    decreases |nums| - k
  {
    if k < |nums| {
      FreshIsMissing(nums, current, k + 1);
      var x := nums[k];
      var rest := Elems(nums[k + 1..]) - Elems(current);
      ElemsSplit(nums, k);
      assert x in current <==> x in Elems(current);
      if x in current {
        assert Elems(nums[k..]) - Elems(current) == rest;
      } else {
        assert Elems(nums[k..]) - Elems(current) == {x} + rest;
        assert x !in rest;
      }
    }
  }

  lemma ElemsSplit(nums: seq<int>, k: int)
    requires 0 <= k < |nums| && Distinct(nums)
    ensures Elems(nums[k..]) == {nums[k]} + Elems(nums[k + 1..])
    ensures nums[k] !in Elems(nums[k + 1..])
  {
    assert nums[k..] == [nums[k]] + nums[k + 1..];
    var later := nums[k + 1..];
    forall t | 0 <= t < |later| ensures later[t] != nums[k] {
      assert later[t] == nums[k + 1 + t];
    }
  }

  /** A partial ordering of distinct values of nums leaves |nums| - |current| of them to place. */
  lemma FreshCount(nums: seq<int>, current: seq<int>)
    requires Distinct(nums) && Distinct(current) && forall x :: x in current ==> x in nums
    ensures Fresh(nums, current, 0) == |nums| - |current|
  {
    FreshIsMissing(nums, current, 0);
    assert nums[0..] == nums;
    DistinctCard(nums);
    DistinctCard(current);
    var missing := Elems(nums) - Elems(current);
    assert Elems(nums) == missing + Elems(current) && missing !! Elems(current);
  }

  /** For distinct nums, a partial ordering of k of its values has (n - k)! completions. */
  lemma {:induction false} CompletionsCount(nums: seq<int>, current: seq<int>)
    requires |current| <= |nums| && Distinct(current) && Distinct(nums)
    requires forall x :: x in current ==> x in nums
    ensures |Completions(nums, current)| == Factorial(|nums| - |current|)
    decreases |nums| - |current|, 1, 0
  {
    if |current| < |nums| {
      BranchesCount(nums, current, 0);
      FreshCount(nums, current);
    }
  }

  lemma {:induction false} BranchesCount(nums: seq<int>, current: seq<int>, k: int)
    requires |current| < |nums| && 0 <= k <= |nums| && Distinct(current) && Distinct(nums)
    requires forall x :: x in current ==> x in nums
    ensures |Branches(nums, current, k)| == Fresh(nums, current, k) * Factorial(|nums| - |current| - 1)
    decreases |nums| - |current|, 0, |nums| - k
  {
    if k < |nums| {
      BranchesCount(nums, current, k + 1);
      var x := nums[k];
      var f := Factorial(|nums| - |current| - 1);
      var later := Fresh(nums, current, k + 1);
      var here := if x in current then [] else Completions(nums, current + [x]);
      assert Branches(nums, current, k) == here + Branches(nums, current, k + 1);
      if x !in current {
        var next := current + [x];
        assert Distinct(next);
        CompletionsCount(nums, next);
        assert |here| == f;
        OneMore(later, f);
      }
    }
  }

  lemma OneMore(later: int, f: int)
    ensures f + later * f == (1 + later) * f
  {
  }

  /** `generatePermutations` on n distinct values: n! orderings, no two alike. */
  lemma PermutationCount(nums: seq<int>)
    requires Distinct(nums)
    ensures |Completions(nums, [])| == Factorial(|nums|)
    ensures Distinct(Completions(nums, []))
  {
    CompletionsCount(nums, []);
    CompletionsDistinct(nums, []);
  }

  // ---------------------------------------------------------------------------
  // The cost of a round trip

  /** `calculateTourCost(graph, path)`: the cost of the steps path[0] -> path[1] -> ...
      -> path[n - 1], then back to path[0]. */
  method CalculateTourCost(graph: seq<seq<int>>, path: array<int>) returns (cost: int)
    requires path.Length >= 1 && Walk(graph, path[..] + [path[0]])
    ensures cost == TourCost(graph, path[..])
  {
    ghost var w := path[..] + [path[0]];
    var n := path.Length;
    cost := 0;
    for i := 0 to n - 1
      invariant Walk(graph, w[..i + 1]) && cost == PathCost(graph, w[..i + 1])
    {
      WalkPrefix(graph, w, i + 2);
      assert Edge(graph, w[i], w[i + 1]);
      assert w[..i + 2][..i + 1] == w[..i + 1];
      assert w[i] == path[i] && w[i + 1] == path[i + 1];
      cost := cost + graph[path[i]][path[i + 1]];
    }
    assert Edge(graph, w[n - 1], w[n]);
    assert w[..n + 1] == w && w[..n + 1][..n] == w[..n];
    cost := cost + graph[path[n - 1]][path[0]];
  }

  // ---------------------------------------------------------------------------
  // The next arrangement in lexicographic order

  /** s does not rise from position k to position k + 1. */
  predicate DescentAt(s: seq<int>, k: int)
    requires 0 <= k < |s| - 1
  {
    s[k] >= s[k + 1]
  }

  /** The last ascent of s at or before position i: the largest p <= i with
      s[p] < s[p + 1], or -1 when there is none. */
  function LastAscent(s: seq<int>, i: int): (p: int)
    requires i < |s| - 1
    ensures p == -1 || (0 <= p <= i && !DescentAt(s, p))
    ensures forall k :: p < k <= i ==> DescentAt(s, k)
    decreases i + 1
  {
    if i < 0 then -1 else if s[i] < s[i + 1] then i else LastAscent(s, i - 1)
  }

  /** s has a later arrangement: it has an ascent somewhere. */
  predicate HasNext(s: seq<int>) {
    LastAscent(s, |s| - 2) >= 0
  }

  /** The last position after p, up to j, holding a value above s[p]. */
  function LastAbove(s: seq<int>, p: int, j: int): (r: int)
    requires 0 <= p < j < |s| && s[p] < s[p + 1]
    ensures p < r <= j && s[r] > s[p]
    ensures forall k :: r < k <= j ==> s[k] <= s[p]
    decreases j
  {
    if s[j] > s[p] then j else LastAbove(s, p, j - 1)
  }

  /** s backwards. */
  function Reverse(s: seq<int>): seq<int> {
    seq(|s|, k requires 0 <= k < |s| => s[|s| - 1 - k])
  }

  /** The arrangement `nextPermutation` steps to: at the last ascent p, s[p] is exchanged
      with the last later value above it, and everything after p is reversed. */
  function NextArrangement(s: seq<int>): seq<int>
    requires HasNext(s)
  {
    var p := LastAscent(s, |s| - 2);
    var t := Swapped(s, p, LastAbove(s, p, |s| - 1));
    t[..p + 1] + Reverse(t[p + 1..])
  }

  /** `nextPermutation(array)`: when the array has an ascent it is rearranged in place into
      the next arrangement and the answer is true; otherwise it is left alone and the
      answer is false. */
  method NextPermutation(a: array<int>) returns (more: bool)
    modifies a
    ensures more == HasNext(old(a[..]))
    ensures more ==> a[..] == NextArrangement(old(a[..]))
    ensures !more ==> a[..] == old(a[..])
  {
    ghost var s := a[..];
    var i := LastAscentFrom(a);
    if i < 0 {
      return false;
    }
    var j := LastAboveFrom(a, i);
    NextArrangementAt(s, i, j);
    Swap(a, i, j);
    ReverseFrom(a, i + 1);
    return true;
  }

  /** The next arrangement, spelled out with the pivot i and the exchanged position j. */
  lemma NextArrangementAt(s: seq<int>, i: int, j: int)
    requires HasNext(s) && i == LastAscent(s, |s| - 2) && j == LastAbove(s, i, |s| - 1)
    ensures NextArrangement(s) == Swapped(s, i, j)[..i + 1] + Reverse(Swapped(s, i, j)[i + 1..])
  {
  }

  /** The first loop of `nextPermutation`: from the second-to-last position leftwards,
      the first position whose value is below its right neighbour's, or -1 (or -2 for an
      empty array, where the loop does not start). */
  method LastAscentFrom(a: array<int>) returns (i: int)
    ensures i < 0 <==> LastAscent(a[..], a.Length - 2) == -1
    ensures i >= 0 ==> i == LastAscent(a[..], a.Length - 2)
  {
    ghost var s := a[..];
    var n := a.Length;
    i := n - 2;
    while i >= 0 && a[i] >= a[i + 1]
      invariant i <= n - 2 && (i >= -1 || i == n - 2)
      invariant LastAscent(s, i) == LastAscent(s, n - 2)
      decreases i + 2
    {
      i := i - 1;
    }
  }

  /** The second loop of `nextPermutation`: from the last position leftwards, the first
      position whose value is above array[i]. */
  method LastAboveFrom(a: array<int>, i: int) returns (j: int)
    requires 0 <= i < a.Length - 1 && a[i] < a[i + 1]
    ensures j == LastAbove(a[..], i, a.Length - 1)
  {
    ghost var s := a[..];
    var n := a.Length;
    j := n - 1;
    while a[j] <= a[i]
      invariant i < j < n
      invariant LastAbove(s, i, j) == LastAbove(s, i, n - 1)
      decreases j
    {
      j := j - 1;
    }
  }

  /** The closing loop of `nextPermutation`: array[lo..] reversed in place by exchanging
      the two ends and moving inwards. */
  method ReverseFrom(a: array<int>, lo: int)
    requires 0 <= lo <= a.Length
    modifies a
    ensures a[..] == old(a[..])[..lo] + Reverse(old(a[..])[lo..])
  {
    ghost var t := a[..];
    var n := a.Length;
    var left, right := lo, n - 1;
    while left < right
      invariant lo <= left && lo - 1 <= right < n && left + right == lo + n - 1
      invariant forall k :: 0 <= k < lo ==> a[k] == t[k]
      invariant forall k :: lo <= k < left || right < k < n ==> a[k] == t[lo + n - 1 - k]
      invariant forall k :: left <= k <= right ==> a[k] == t[k]
      decreases right - left
    {
      Swap(a, left, right);
      left, right := left + 1, right - 1;
    }
    MirroredIsReversed(t, a[..], lo);
  }

  /** A sequence that keeps t before lo and holds t's suffix from lo mirrored is t with
      that suffix reversed. */
  lemma MirroredIsReversed(t: seq<int>, x: seq<int>, lo: int)
    requires 0 <= lo <= |t| == |x|
    requires forall k :: 0 <= k < lo ==> x[k] == t[k]
    requires forall k :: lo <= k < |t| ==> x[k] == t[lo + |t| - 1 - k]
    ensures x == t[..lo] + Reverse(t[lo..])
  {
    var u := t[..lo] + Reverse(t[lo..]);
    forall k | 0 <= k < |t| ensures x[k] == u[k] {
      if k >= lo {
        assert u[k] == Reverse(t[lo..])[k - lo] == t[lo + |t| - 1 - k];
      }
    }
  }

  /** A run of descents from position lo on is a non-increasing suffix. */
  lemma {:induction false} DescentsNonIncreasing(s: seq<int>, lo: int)
    requires 0 <= lo <= |s|
    requires forall k :: lo <= k < |s| - 1 ==> DescentAt(s, k)
    ensures NonIncreasing(s[lo..])
    decreases |s| - lo
  {
    if lo < |s| - 1 {
      DescentsNonIncreasing(s, lo + 1);
      var u, v := s[lo..], s[lo + 1..];
      assert DescentAt(s, lo);
      forall x, y | 0 <= x < y < |u| ensures u[x] >= u[y] {
        assert u[y] == v[y - 1];
        if x > 0 {
          assert u[x] == v[x - 1];
        } else {
          assert u[0] == s[lo] && v[0] == s[lo + 1];
        }
      }
    }
  }

  /** `nextPermutation` answers false exactly on the last arrangement, the non-increasing one. */
  lemma NoNextIffLast(s: seq<int>)
    ensures !HasNext(s) <==> NonIncreasing(s)
  {
    var p := LastAscent(s, |s| - 2);
    if p == -1 {
      DescentsNonIncreasing(s, 0);
      assert s[0..] == s;
    } else {
      assert s[p] < s[p + 1];
    }
  }

  lemma {:induction false} ReverseMultiset(u: seq<int>)
    ensures multiset(Reverse(u)) == multiset(u)
    decreases |u|
  {
    if u != [] {
      var m := |u| - 1;
      ReverseMultiset(u[..m]);
      assert Reverse(u) == [u[m]] + Reverse(u[..m]);
      assert u == u[..m] + [u[m]];
    }
  }

  /** The next arrangement rearranges the same values. */
  lemma NextRearranges(s: seq<int>)
    requires HasNext(s)
    ensures multiset(NextArrangement(s)) == multiset(s)
  {
    var p := LastAscent(s, |s| - 2);
    var t := Swapped(s, p, LastAbove(s, p, |s| - 1));
    SwappedMultiset(s, p, LastAbove(s, p, |s| - 1));
    ReverseMultiset(t[p + 1..]);
    assert t == t[..p + 1] + t[p + 1..];
  }

  /** Before the pivot p, the last ascent, the next arrangement agrees with s; at p it
      holds the last later value above s[p]. */
  lemma NextPrefix(s: seq<int>)
    requires HasNext(s)
    ensures var p, r := LastAscent(s, |s| - 2), NextArrangement(s);
      && |r| == |s| && r[..p] == s[..p]
      && r[p] == s[LastAbove(s, p, |s| - 1)] > s[p]
  {
    var p := LastAscent(s, |s| - 2);
    var t := Swapped(s, p, LastAbove(s, p, |s| - 1));
    var r := NextArrangement(s);
    var front := t[..p + 1];
    assert r == front + Reverse(t[p + 1..]);
    assert r[..p] == front[..p];
    forall k | 0 <= k < p ensures front[k] == s[k] {
      assert front[k] == t[k];
    }
  }

  /** The last later value above the pivot's is the least of the later values above it,
      since after the pivot s does not rise. */
  lemma LeastAbove(s: seq<int>)
    requires HasNext(s)
    ensures var p := LastAscent(s, |s| - 2);
      forall k :: p < k < |s| && s[k] > s[p] ==> s[k] >= s[LastAbove(s, p, |s| - 1)]
  {
    var p := LastAscent(s, |s| - 2);
    var j := LastAbove(s, p, |s| - 1);
    DescentsNonIncreasing(s, p + 1);
    var v := s[p + 1..];
    forall k | p < k < |s| && s[k] > s[p] ensures s[k] >= s[j] {
      if k != j {
        assert v[k - p - 1] == s[k] && v[j - p - 1] == s[j];
      }
    }
  }

  /** After the pivot the next arrangement ascends: it is the reverse of a non-increasing run. */
  lemma NextSuffixSorted(s: seq<int>)
    requires HasNext(s)
    ensures var p, r := LastAscent(s, |s| - 2), NextArrangement(s);
      p + 1 <= |r| && Sorted(r[p + 1..])
  {
    var n := |s|;
    var p := LastAscent(s, n - 2);
    var j := LastAbove(s, p, n - 1);
    var t := Swapped(s, p, j);
    var r := NextArrangement(s);
    SwappedSuffix(s, p, j);
    ReverseSorted(t[p + 1..]);
    assert r[p + 1..] == Reverse(t[p + 1..]);
  }

  /** Exchanging s[p] with the last later value above it keeps the suffix after p
      non-increasing. */
  lemma SwappedSuffix(s: seq<int>, p: int, j: int)
    requires HasNext(s) && p == LastAscent(s, |s| - 2) && j == LastAbove(s, p, |s| - 1)
    ensures NonIncreasing(Swapped(s, p, j)[p + 1..])
  {
    var t := Swapped(s, p, j);
    DescentsNonIncreasing(s, p + 1);
    var u, v := t[p + 1..], s[p + 1..];
    forall x, y | 0 <= x < y < |u| ensures u[x] >= u[y] {
      var a, b := p + 1 + x, p + 1 + y;
      assert u[x] == t[a] && u[y] == t[b];
      assert v[x] == s[a] && v[y] == s[b];
      if a == j {
        assert t[a] == s[p] >= s[b];
      } else if b == j {
        assert t[a] == s[a] >= s[j] > s[p] == t[b];
      }
    }
  }

  lemma ReverseSorted(u: seq<int>)
    requires NonIncreasing(u)
    ensures Sorted(Reverse(u))
  {
    var r := Reverse(u);
    forall x, y | 0 <= x < y < |r| ensures r[x] <= r[y] {
      assert r[x] == u[|u| - 1 - x] && r[y] == u[|u| - 1 - y];
    }
  }

  /** Two sequences with the same values and a common prefix have the same values after it. */
  lemma SuffixMultiset(a: seq<int>, b: seq<int>, m: int)
    requires 0 <= m <= |a| && m <= |b| && a[..m] == b[..m] && multiset(a) == multiset(b)
    ensures multiset(a[m..]) == multiset(b[m..])
  {
    assert a == a[..m] + a[m..] && b == b[..m] + b[m..];
    assert multiset(a) == multiset(a[..m]) + multiset(a[m..]);
    assert multiset(b) == multiset(b[..m]) + multiset(b[m..]);
    forall x ensures multiset(a[m..])[x] == multiset(b[m..])[x] {
      assert multiset(a)[x] == multiset(a[..m])[x] + multiset(a[m..])[x];
      assert multiset(b)[x] == multiset(b[..m])[x] + multiset(b[m..])[x];
    }
  }

  /** The next arrangement comes strictly later. */
  lemma NextIsLater(s: seq<int>)
    requires HasNext(s)
    ensures LexLess(s, NextArrangement(s))
  {
    NextPrefix(s);
    LexAt(s, NextArrangement(s), LastAscent(s, |s| - 2));
  }

  /** A later rearrangement of s first differs from s no later than the pivot: after the
      pivot s is non-increasing, so nothing can rise there. */
  lemma PivotBound(s: seq<int>, q: seq<int>, d: int)
    requires HasNext(s) && multiset(q) == multiset(s)
    requires 0 <= d < |s| && d < |q| && s[..d] == q[..d] && s[d] < q[d]
    ensures d <= LastAscent(s, |s| - 2)
  {
    var p := LastAscent(s, |s| - 2);
    if d > p {
      DescentsNonIncreasing(s, p + 1);
      NoRiseInSuffix(s, q, p + 1, d);
    }
  }

  /** Where s is non-increasing from lo on, a rearrangement that agrees with s before some
      d >= lo holds at d no more than s does. */
  lemma NoRiseInSuffix(s: seq<int>, q: seq<int>, lo: int, d: int)
    requires 0 <= lo <= d < |s| && d < |q| && NonIncreasing(s[lo..])
    requires s[..d] == q[..d] && multiset(q) == multiset(s)
    ensures q[d] <= s[d]
  {
    var u := s[d..];
    assert u == s[lo..][d - lo..];
    SuffixMultiset(s, q, d);
    assert q[d] == q[d..][0];
    assert q[d] in multiset(u);
    NonIncreasingHeadGreatest(u, q[d]);
  }

  /** No rearrangement of s lies strictly between s and its next arrangement. */
  lemma NextIsImmediate(s: seq<int>, q: seq<int>)
    requires HasNext(s) && multiset(q) == multiset(s) && LexLess(s, q)
    ensures LexLessEq(NextArrangement(s), q)
  {
    var p := LastAscent(s, |s| - 2);
    var r := NextArrangement(s);
    assert |q| == |multiset(q)| == |multiset(s)| == |s|;
    NextPrefix(s);
    var d := LexWitness(s, q);
    PivotBound(s, q, d);
    if d < p {
      assert r[..d] == r[..p][..d] && s[..d] == s[..p][..d];
      assert r[d] == r[..p][d] == s[..p][d] == s[d];
      LexAt(r, q, d);
    } else {
      FirstDifferenceAtPivot(s, q);
    }
  }

  /** The case of a later rearrangement q that first differs from s at the pivot. */
  lemma FirstDifferenceAtPivot(s: seq<int>, q: seq<int>)
    requires HasNext(s) && multiset(q) == multiset(s) && |q| == |s|
    requires var p := LastAscent(s, |s| - 2); s[..p] == q[..p] && s[p] < q[p]
    ensures LexLessEq(NextArrangement(s), q)
  {
    var p := LastAscent(s, |s| - 2);
    var r := NextArrangement(s);
    NextPrefix(s);
    SuffixMultiset(s, q, p);
    assert q[p] == q[p..][0];
    assert q[p] in multiset(s[p..]);
    var k :| 0 <= k < |s[p..]| && s[p..][k] == q[p];
    assert s[p + k] == q[p] && k > 0;
    LeastAbove(s);
    if q[p] > r[p] {
      LexAt(r, q, p);
    } else {
      SameUpToPivot(s, q);
    }
  }

  /** ... and the sub-case where q also holds the least later value above s[p] at the
      pivot: then q agrees with the next arrangement up to the pivot, and after it the next
      arrangement ascends, which puts it first. */
  lemma SameUpToPivot(s: seq<int>, q: seq<int>)
    requires HasNext(s) && multiset(q) == multiset(s) && |q| == |s|
    requires var p, r := LastAscent(s, |s| - 2), NextArrangement(s);
      |r| == |s| && r[..p] == q[..p] && q[p] == r[p]
    ensures LexLessEq(NextArrangement(s), q)
  {
    var p := LastAscent(s, |s| - 2);
    var r := NextArrangement(s);
    assert r[..p + 1] == r[..p] + [r[p]] && q[..p + 1] == q[..p] + [q[p]];
    NextRearranges(s);
    NextSuffixSorted(s);
    SuffixMultiset(r, q, p + 1);
    SortedIsLexLeast(r[p + 1..], q[p + 1..]);
    CommonPrefix(r, q, p + 1);
  }

  /** What lies before the next arrangement of s lies before s, or is s. */
  lemma NothingBetween(s: seq<int>, q: seq<int>)
    requires HasNext(s) && multiset(q) == multiset(s) && LexLess(q, NextArrangement(s))
    ensures LexLessEq(q, s)
  {
    if !LexLessEq(q, s) {
      assert |q| == |multiset(q)| == |multiset(s)| == |s|;
      LexTotal(q, s);
      NextIsImmediate(s, q);
      if NextArrangement(s) == q {
        LexIrreflexive(q);
      } else {
        LexAsymmetric(q, NextArrangement(s));
      }
    }
  }

  // ---------------------------------------------------------------------------
  // The travelling salesman by brute force

  /** Every ordering of 0..n-1 that the permutation generator lists is an arrangement, and
      every arrangement is listed. */
  lemma ArrangementsListed(n: nat)
    ensures forall q :: q in Completions(Range(n), []) <==> IsArrangement(q, n)
  {
    RangeDistinct(n);
    AllRearrangementsAppear(Range(n));
    EachIsRearrangement(Range(n));
  }

  /** The arrangements of 0..n-1 that come after s. */
  ghost function Later(n: nat, s: seq<int>): set<seq<int>> {
    set q | q in Completions(Range(n), []) && LexLess(s, q)
  }

  /** Stepping to a later arrangement leaves fewer arrangements after it. */
  lemma LaterShrinks(n: nat, s: seq<int>, t: seq<int>)
    requires LexLess(s, t) && IsArrangement(t, n)
    ensures |Later(n, t)| < |Later(n, s)|
  {
    ArrangementsListed(n);
    forall q | q in Later(n, t) ensures q in Later(n, s) {
      LexTransitive(s, t, q);
    }
    LexIrreflexive(t);
    assert t in Later(n, s) && t !in Later(n, t);
    SubsetCard(Later(n, t) + {t}, Later(n, s));
  }

  /** minCost is at most the cost of every arrangement before `bound`. */
  ghost predicate Covered(graph: seq<seq<int>>, minCost: int, bound: seq<int>)
    requires Complete(graph) && |graph| >= 1
  {
    forall q :: IsArrangement(q, |graph|) && LexLess(q, bound) ==> minCost <= ArrangementCost(graph, q)
  }

  /** minCost is at most the cost of every arrangement. */
  ghost predicate CoversAll(graph: seq<seq<int>>, minCost: int)
    requires Complete(graph) && |graph| >= 1
  {
    forall q :: IsArrangement(q, |graph|) ==> minCost <= ArrangementCost(graph, q)
  }

  /** minCost is the starting value, or the cost of some arrangement. */
  ghost predicate Attained(graph: seq<seq<int>>, minCost: int)
    requires Complete(graph) && |graph| >= 1
  {
    minCost == Java.IntMax || exists q :: IsArrangement(q, |graph|) && minCost == ArrangementCost(graph, q)
  }

  /** No arrangement comes before 0, 1, ..., n-1. */
  lemma NothingBefore(graph: seq<seq<int>>, minCost: int)
    requires Complete(graph) && |graph| >= 1
    ensures Covered(graph, minCost, Range(|graph|))
  {
    var n := |graph|;
    forall q | IsArrangement(q, n) ensures !LexLess(q, Range(n)) {
      SortedIsLexLeast(Range(n), q);
      if q == Range(n) {
        LexIrreflexive(q);
      } else {
        LexAsymmetric(Range(n), q);
      }
    }
  }

  /** One round of the do-while loop of `solveTSP`: once `before` is priced, everything up to
      its next arrangement is covered, or, when it was the last one, everything is. */
  lemma CoverStep(graph: seq<seq<int>>, m0: int, m: int, before: seq<int>)
    requires Complete(graph) && |graph| >= 1 && IsArrangement(before, |graph|)
    requires Covered(graph, m0, before) && m <= m0 && m <= ArrangementCost(graph, before)
    ensures HasNext(before) ==> Covered(graph, m, NextArrangement(before))
    ensures !HasNext(before) ==> CoversAll(graph, m)
  {
    var n := |graph|;
    if HasNext(before) {
      forall q | IsArrangement(q, n) && LexLess(q, NextArrangement(before))
        ensures m <= ArrangementCost(graph, q)
      {
        NothingBetween(before, q);
      }
    } else {
      NoNextIffLast(before);
      forall q | IsArrangement(q, n) ensures m <= ArrangementCost(graph, q) {
        NonIncreasingIsLexGreatest(before, q);
      }
    }
  }

  /** `solveTSP(graph)`: prices the round trip through every ordering of the cities, from
      0, 1, ..., n-1 on in lexicographic order, and keeps the least cost, starting from
      `Integer.MAX_VALUE`. */
  method SolveTSP(graph: seq<seq<int>>) returns (minCost: int)
    requires |graph| >= 1 && Complete(graph)
    ensures minCost <= Java.IntMax
    ensures forall q :: IsArrangement(q, |graph|) ==> minCost <= ArrangementCost(graph, q)
    ensures minCost == Java.IntMax || exists q :: IsArrangement(q, |graph|) && minCost == ArrangementCost(graph, q)
  {
    var n := |graph|;
    var path := new int[n];
    for i := 0 to n
      invariant forall k :: 0 <= k < i ==> path[k] == k
    {
      path[i] := i;
    }
    assert path[..] == Range(n);
    NothingBefore(graph, Java.IntMax);
    minCost := Java.IntMax;
    var more := true;
    while more
      invariant IsArrangement(path[..], n)
      invariant minCost <= Java.IntMax
      invariant more ==> Covered(graph, minCost, path[..])
      invariant !more ==> CoversAll(graph, minCost)
      invariant Attained(graph, minCost)
      decreases if more then |Later(n, path[..])| + 1 else 0
    {
      ghost var before, m0 := path[..], minCost;
      ArrangementWalks(graph, before);
      var currentCost := CalculateTourCost(graph, path);
      if currentCost < minCost {
        minCost := currentCost;
      }
      assert minCost == m0 || minCost == ArrangementCost(graph, before);
      assert Attained(graph, minCost);
      more := NextPermutation(path);
      CoverStep(graph, m0, minCost, before);
      if more {
        NextRearranges(before);
        NextIsLater(before);
        LaterShrinks(n, before, path[..]);
      }
    }
  }
}
