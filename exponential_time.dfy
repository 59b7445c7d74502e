/** `ExponentialTime`: every subset of an array by include/exclude recursion, and the
    travelling-salesman problem by a depth-first search over unvisited cities. */
module ExponentialTime {
  import opened Seqs
  import opened Numbers
  import opened Tours
  import Java

  // ---------------------------------------------------------------------------
  // Generating all subsets

  /** The lists emitted from position `index` on, with `current` already chosen: first
      every list that takes nums[index], then every list that leaves it out. */
  function Subsets(nums: seq<int>, index: nat, current: seq<int>): seq<seq<int>>
    requires index <= |nums|
    decreases |nums| - index
  {
    if index == |nums| then [current]
    else Subsets(nums, index + 1, current + [nums[index]]) + Subsets(nums, index + 1, current)
  }

  /** The elements of xs whose entry in mask is true, in their order in xs: the subset that
      one sequence of include/exclude choices selects. */
  function Pick(xs: seq<int>, mask: seq<bool>): seq<int>
    requires |mask| == |xs|
  {
    if xs == [] then [] else (if mask[0] then [xs[0]] else []) + Pick(xs[1..], mask[1..])
  }

  /** Where the choices `mask` land in the output: including an element comes before
      excluding it, so the choices are numbered in binary with "include" as digit 0. */
  function Position(mask: seq<bool>): int {
    if mask == [] then 0 else (if mask[0] then 0 else Pow(2, |mask| - 1)) + Position(mask[1..])
  }

  /** `generateSubsetsRecursive`: appends one list per include/exclude choice for
      nums[index..] to `subsets`, and leaves `current` as it found it. */
  method GenerateSubsetsRecursive(nums: array<int>, index: int, current: Java.ArrayList<int>,
                                  subsets: Java.ArrayList<seq<int>>)
    requires 0 <= index <= nums.Length
    modifies current, subsets
    ensures current.elems == old(current.elems)
    ensures subsets.elems == old(subsets.elems) + Subsets(nums[..], index, old(current.elems))
    decreases nums.Length - index
  {
    if index == nums.Length {
      subsets.Add(current.elems);
      return;
    }
    current.Add(nums[index]);
    GenerateSubsetsRecursive(nums, index + 1, current, subsets);
    current.RemoveLast();
    GenerateSubsetsRecursive(nums, index + 1, current, subsets);
  }

  /** `generateSubsets(nums)`: all 2^n subsets, starting from nothing chosen. */
  method GenerateSubsets(nums: array<int>) returns (subsets: Java.ArrayList<seq<int>>)
    ensures subsets.elems == Subsets(nums[..], 0, [])
  {
    subsets := new Java.ArrayList<seq<int>>();
    var current := new Java.ArrayList<int>();
    GenerateSubsetsRecursive(nums, 0, current, subsets);
  }

  lemma PowTwoPositive(e: nat)
    ensures Pow(2, e) >= 1
  {
  }

  /** There are 2^(n - index) lists: one for each sequence of choices. */
  lemma {:induction false} SubsetsCount(nums: seq<int>, index: nat, current: seq<int>)
    requires index <= |nums|
    ensures |Subsets(nums, index, current)| == Pow(2, |nums| - index)
    decreases |nums| - index
  {
    if index < |nums| {
      SubsetsCount(nums, index + 1, current + [nums[index]]);
      SubsetsCount(nums, index + 1, current);
    }
  }

  /** The position of a choice sequence is one of the 2^m places. */
  lemma {:induction false} PositionBounds(mask: seq<bool>)
    ensures 0 <= Position(mask) < Pow(2, |mask|)
    decreases |mask|
  {
    if mask != [] {
      PositionBounds(mask[1..]);
      PowTwoPositive(|mask| - 1);
    }
  }

  lemma PickCons(xs: seq<int>, mask: seq<bool>)
    requires |mask| == |xs| && xs != []
    ensures Pick(xs, mask) == (if mask[0] then [xs[0]] else []) + Pick(xs[1..], mask[1..])
  {
  }

  /** Every choice sequence is emitted, at its position: `current` followed by the elements
      it includes. */
  lemma {:induction false} SubsetAt(nums: seq<int>, index: nat, current: seq<int>, mask: seq<bool>)
    requires index <= |nums| && |mask| == |nums| - index
    ensures 0 <= Position(mask) < |Subsets(nums, index, current)|
    ensures Subsets(nums, index, current)[Position(mask)] == current + Pick(nums[index..], mask)
    decreases |nums| - index
  {
    SubsetsCount(nums, index, current);
    PositionBounds(mask);
    if index < |nums| {
      var x := nums[index];
      var taken := Subsets(nums, index + 1, current + [x]);
      SubsetsCount(nums, index + 1, current + [x]);
      PickCons(nums[index..], mask);
      assert nums[index..][1..] == nums[index + 1..];
      if mask[0] {
        SubsetAt(nums, index + 1, current + [x], mask[1..]);
      } else {
        SubsetAt(nums, index + 1, current, mask[1..]);
        assert Position(mask) == |taken| + Position(mask[1..]);
      }
    }
  }

  /** Conversely every emitted list is `current` followed by the elements that one choice
      sequence includes, and it sits at that sequence's position: positions and choices
      correspond one to one. */
  lemma {:induction false} ChoiceAt(nums: seq<int>, index: nat, current: seq<int>, k: int) returns (mask: seq<bool>)
    requires index <= |nums| && 0 <= k < |Subsets(nums, index, current)|
    ensures |mask| == |nums| - index && Position(mask) == k
    ensures Subsets(nums, index, current)[k] == current + Pick(nums[index..], mask)
    decreases |nums| - index
  {
    if index == |nums| {
      mask := [];
    } else {
      var x := nums[index];
      var taken := Subsets(nums, index + 1, current + [x]);
      SubsetsCount(nums, index + 1, current + [x]);
      var rest;
      if k < |taken| {
        rest := ChoiceAt(nums, index + 1, current + [x], k);
        mask := [true] + rest;
      } else {
        rest := ChoiceAt(nums, index + 1, current, k - |taken|);
        mask := [false] + rest;
      }
      assert mask[1..] == rest;
      PickCons(nums[index..], mask);
      assert nums[index..][1..] == nums[index + 1..];
    }
  }

  /** The first list takes every element and the last takes none. */
  lemma SubsetsEnds(nums: seq<int>)
    ensures |Subsets(nums, 0, [])| >= 1
    ensures Subsets(nums, 0, [])[0] == nums
    ensures Subsets(nums, 0, [])[|Subsets(nums, 0, [])| - 1] == []
  {
    var all := seq(|nums|, _ => true);
    var none := seq(|nums|, _ => false);
    SubsetAt(nums, 0, [], all);
    SubsetAt(nums, 0, [], none);
    SubsetsCount(nums, 0, []);
    PickAll(nums, all);
    PickNone(nums, none);
    PositionFirst(all);
    PositionLast(none);
    assert nums[0..] == nums;
  }

  lemma {:induction false} PickAll(xs: seq<int>, mask: seq<bool>)
    requires |mask| == |xs| && forall k :: 0 <= k < |mask| ==> mask[k]
    ensures Pick(xs, mask) == xs
    decreases |xs|
  {
    if xs != [] {
      PickAll(xs[1..], mask[1..]);
    }
  }

  lemma {:induction false} PickNone(xs: seq<int>, mask: seq<bool>)
    requires |mask| == |xs| && forall k :: 0 <= k < |mask| ==> !mask[k]
    ensures Pick(xs, mask) == []
    decreases |xs|
  {
    if xs != [] {
      PickNone(xs[1..], mask[1..]);
    }
  }

  lemma {:induction false} PositionFirst(mask: seq<bool>)
    requires forall k :: 0 <= k < |mask| ==> mask[k]
    ensures Position(mask) == 0
    decreases |mask|
  {
    if mask != [] {
      PositionFirst(mask[1..]);
    }
  }

  lemma {:induction false} PositionLast(mask: seq<bool>)
    requires forall k :: 0 <= k < |mask| ==> !mask[k]
    ensures Position(mask) == Pow(2, |mask|) - 1
    decreases |mask|
  {
    if mask != [] {
      PositionLast(mask[1..]);
    }
  }

  /** The choices land on the last position exactly when they include nothing. */
  lemma {:induction false} LastIffNone(mask: seq<bool>)
    ensures Position(mask) == Pow(2, |mask|) - 1 <==> forall i :: 0 <= i < |mask| ==> !mask[i]
    decreases |mask|
  {
    if mask != [] {
      var rest := mask[1..];
      LastIffNone(rest);
      PositionBounds(rest);
      assert forall i :: 1 <= i < |mask| ==> mask[i] == rest[i - 1];
      assert (forall i :: 0 <= i < |mask| ==> !mask[i]) <==> !mask[0] && forall i :: 0 <= i < |rest| ==> !rest[i];
    }
  }

  /** The choices select nothing exactly when they include nothing. */
  lemma {:induction false} PickEmptyIffNone(xs: seq<int>, mask: seq<bool>)
    requires |mask| == |xs|
    ensures Pick(xs, mask) == [] <==> forall i :: 0 <= i < |mask| ==> !mask[i]
    decreases |xs|
  {
    if xs != [] {
      var rest := mask[1..];
      PickEmptyIffNone(xs[1..], rest);
      assert forall i :: 1 <= i < |mask| ==> mask[i] == rest[i - 1];
      assert (forall i :: 0 <= i < |mask| ==> !mask[i]) <==> !mask[0] && forall i :: 0 <= i < |rest| ==> !rest[i];
    }
  }

  /** The empty list is emitted once only: every list before the last one includes
      something. */
  lemma EmptyOnlyLast(nums: seq<int>)
    ensures forall k :: 0 <= k < |Subsets(nums, 0, [])| - 1 ==> Subsets(nums, 0, [])[k] != []
  {
    SubsetsCount(nums, 0, []);
    forall k | 0 <= k < |Subsets(nums, 0, [])| - 1 ensures Subsets(nums, 0, [])[k] != [] {
      var mask := ChoiceAt(nums, 0, [], k);
      assert nums[0..] == nums;
      LastIffNone(mask);
      PickEmptyIffNone(nums, mask);
    }
  }

  /** What the choices select comes from xs. */
  lemma {:induction false} PickWithin(xs: seq<int>, mask: seq<bool>)
    requires |mask| == |xs|
    ensures forall y :: y in Pick(xs, mask) ==> y in xs
    decreases |xs|
  {
    if xs != [] {
      PickWithin(xs[1..], mask[1..]);
    }
  }

  /** Over distinct values, different choices select different lists. */
  lemma {:induction false} PickInjective(xs: seq<int>, m1: seq<bool>, m2: seq<bool>)
    requires Distinct(xs) && |m1| == |xs| && |m2| == |xs|
    ensures Pick(xs, m1) == Pick(xs, m2) ==> m1 == m2
    decreases |xs|
  {
    if xs != [] {
      var x, rest := xs[0], xs[1..];
      var a, b := Pick(rest, m1[1..]), Pick(rest, m2[1..]);
      assert Distinct(rest);
      PickInjective(rest, m1[1..], m2[1..]);
      PickWithin(rest, m1[1..]);
      PickWithin(rest, m2[1..]);
      assert x !in rest by {
        forall i | 0 <= i < |rest| ensures rest[i] != x {
          assert rest[i] == xs[i + 1];
        }
      }
      if m1[0] == m2[0] {
        assert m1 == [m1[0]] + m1[1..] && m2 == [m2[0]] + m2[1..];
        if m1[0] {
          assert Pick(xs, m1) == [x] + a && Pick(xs, m2) == [x] + b;
          assert ([x] + a)[1..] == a && ([x] + b)[1..] == b;
        } else {
          assert Pick(xs, m1) == a && Pick(xs, m2) == b;
        }
      } else if m1[0] {
        assert Pick(xs, m1) == [x] + a && Pick(xs, m2) == b;
        assert b == [] || b[0] in b;
      } else {
        assert Pick(xs, m1) == a && Pick(xs, m2) == [x] + b;
        assert a == [] || a[0] in a;
      }
    }
  }

  /** Over distinct values, no list is emitted twice. */
  lemma SubsetsDistinct(nums: seq<int>)
    requires Distinct(nums)
    ensures Distinct(Subsets(nums, 0, []))
  {
    var all := Subsets(nums, 0, []);
    assert nums[0..] == nums;
    forall j, k | 0 <= j < k < |all| ensures all[j] != all[k] {
      var mj := ChoiceAt(nums, 0, [], j);
      var mk := ChoiceAt(nums, 0, [], k);
      assert all[j] == Pick(nums, mj) && all[k] == Pick(nums, mk);
      PickInjective(nums, mj, mk);
    }
  }

  // ---------------------------------------------------------------------------
  // Travelling salesman by depth-first search

  /** ext finishes the partial round trip that stands at `current` with `count` cities
      counted as visited: it brings the count to n, names no city twice and none marked
      visited, and every step, the last one back to city 0 included, follows a road. */
  predicate Completes(graph: seq<seq<int>>, visited: seq<int>, current: int, count: int, n: int, ext: seq<int>) {
    && |ext| == n - count
    && Distinct(ext)
    && (forall k :: 0 <= k < |ext| ==> 0 <= ext[k] < |visited| && visited[ext[k]] == 0)
    && RoadWalk(graph, [current] + ext + [0])
  }

  lemma RoadWalkWalks(graph: seq<seq<int>>, p: seq<int>)
    requires RoadWalk(graph, p)
    ensures Walk(graph, p)
  {
  }

  /** The cost of finishing the round trip along ext. */
  function RestCost(graph: seq<seq<int>>, current: int, ext: seq<int>): int
    requires RoadWalk(graph, [current] + ext + [0])
  {
    RoadWalkWalks(graph, [current] + ext + [0]);
    PathCost(graph, [current] + ext + [0])
  }

  /** A road walk back to city 0 is a first road followed by a road walk back to city 0,
      and costs that road more. */
  lemma RestCostSplit(graph: seq<seq<int>>, current: int, ext: seq<int>)
    requires ext != [] && RoadWalk(graph, [current] + ext + [0])
    ensures Road(graph, current, ext[0]) && RoadWalk(graph, [ext[0]] + ext[1..] + [0])
    ensures RestCost(graph, current, ext) == graph[current][ext[0]] + RestCost(graph, ext[0], ext[1..])
  {
    var w := [current] + ext + [0];
    var tail := [ext[0]] + ext[1..] + [0];
    assert w == [current] + tail;
    assert w[0] == current && w[1] == ext[0];
    forall k | 0 < k < |tail| ensures Road(graph, tail[k - 1], tail[k]) {
      assert tail[k - 1] == w[k] && tail[k] == w[k + 1];
    }
    RoadWalkWalks(graph, w);
    PathCostCons(graph, current, tail);
  }

  /** A completion is a first road to an unvisited city followed by a completion from it. */
  lemma CompletesSplit(graph: seq<seq<int>>, visited: seq<int>, current: int, count: int, n: int, ext: seq<int>)
    requires ext != [] && Completes(graph, visited, current, count, n, ext)
    ensures 0 <= ext[0] < |visited| && visited[ext[0]] == 0 && Road(graph, current, ext[0])
    ensures Completes(graph, visited[ext[0] := 1], ext[0], count + 1, n, ext[1..])
    ensures RestCost(graph, current, ext) == graph[current][ext[0]] + RestCost(graph, ext[0], ext[1..])
  {
    RestCostSplit(graph, current, ext);
    var x, rest := ext[0], ext[1..];
    forall k | 0 <= k < |rest| ensures 0 <= rest[k] < |visited| && visited[x := 1][rest[k]] == 0 {
      assert rest[k] == ext[k + 1] && ext[k + 1] != ext[0];
    }
    forall i, j | 0 <= i < j < |rest| ensures rest[i] != rest[j] {
      assert rest[i] == ext[i + 1] && rest[j] == ext[j + 1];
    }
  }

  /** The empty completion: the trip already counts n cities and a road leads back to 0. */
  lemma CompletesNone(graph: seq<seq<int>>, visited: seq<int>, current: int, count: int, n: int)
    ensures Completes(graph, visited, current, count, n, []) <==> count == n && Road(graph, current, 0)
    ensures Road(graph, current, 0) ==> RestCost(graph, current, []) == graph[current][0]
  {
    var w := [current] + [] + [0];
    assert w == [current, 0] && w[..1] == [current] && w[0] == current && w[1] == 0;
    assert RoadWalk(graph, w) <==> Road(graph, w[0], w[1]);
    if Road(graph, current, 0) {
      assert PathCost(graph, w) == PathCost(graph, [current]) + graph[current][0];
    }
  }

  /** Conversely, a road to an unvisited city and a completion from there make a completion. */
  lemma CompletesJoin(graph: seq<seq<int>>, visited: seq<int>, current: int, count: int, n: int, x: int, ext: seq<int>)
    requires 0 <= x < |visited| && visited[x] == 0 && Road(graph, current, x)
    requires Completes(graph, visited[x := 1], x, count + 1, n, ext)
    ensures Completes(graph, visited, current, count, n, [x] + ext)
  {
    var e := [x] + ext;
    var w := [current] + e + [0];
    var tail := [x] + ext + [0];
    assert w == [current] + tail;
    forall k | 0 < k < |w| ensures Road(graph, w[k - 1], w[k]) {
      if k > 1 {
        assert w[k - 1] == tail[k - 2] && w[k] == tail[k - 1];
      }
    }
    forall k | 0 <= k < |e| ensures 0 <= e[k] < |visited| && visited[e[k]] == 0 {
      if k > 0 {
        assert e[k] == ext[k - 1];
      }
    }
  }

  /** `minCost` is no dearer than any completion whose first city lies below `bound`. */
  ghost predicate BelowAll(graph: seq<seq<int>>, visited: seq<int>, current: int, count: int, n: int,
                     cost: int, minCost: int, bound: int) {
    forall ext :: Completes(graph, visited, current, count, n, ext) && ext != [] && ext[0] < bound ==>
      minCost <= cost + RestCost(graph, current, ext)
  }

  /** `minCost` is `Integer.MAX_VALUE` or the price of some completion. */
  ghost predicate Attained(graph: seq<seq<int>>, visited: seq<int>, current: int, count: int, n: int,
                     cost: int, minCost: int) {
    minCost == Java.IntMax ||
    exists ext :: Completes(graph, visited, current, count, n, ext) && minCost == cost + RestCost(graph, current, ext)
  }

  /** `TSPRecursive(graph, visited, current, count, n, cost)`: `cost` plus the cheapest way
      to finish the round trip from `current`, never above `Integer.MAX_VALUE` unless the
      trip is already complete, and `Integer.MAX_VALUE` when it cannot be finished. The
      marks it sets in `visited` are all cleared again. */
  method TSPRecursive(graph: seq<seq<int>>, visited: array<int>, current: int, count: int, n: int, cost: int)
    returns (minCost: int)
    requires Complete(graph) && n == |graph| == visited.Length
    requires 0 <= current < n && visited[current] != 0 && visited[0] != 0
    requires current == 0 ==> count == 1
    modifies visited
    ensures visited[..] == old(visited[..])
    ensures forall ext :: Completes(graph, old(visited[..]), current, count, n, ext) ==>
      minCost <= cost + RestCost(graph, current, ext)
    ensures minCost == Java.IntMax || exists ext :: (Completes(graph, old(visited[..]), current, count, n, ext) &&
      minCost == cost + RestCost(graph, current, ext))
    ensures !(count == n && Road(graph, current, 0)) ==> minCost <= Java.IntMax
    decreases multiset(visited[..])[0], 1
  {
    assert Edge(graph, current, 0) || count != n;
    CompletesNone(graph, visited[..], current, count, n);
    if count == n && graph[current][0] > 0 {
      return cost + graph[current][0];
    }
    ghost var v0 := visited[..];
    minCost := Java.IntMax;
    for i := 0 to n
      invariant visited[..] == v0
      invariant minCost <= Java.IntMax
      invariant BelowAll(graph, v0, current, count, n, cost, minCost, i)
      invariant Attained(graph, v0, current, count, n, cost, minCost)
    {
      minCost := Explore(graph, visited, current, count, n, cost, i, minCost);
    }
    AllExplored(graph, v0, current, count, n, cost, minCost);
  }

  /** One turn of the loop over the next city i: when i is unvisited and a road leads
      there, mark it, search on from it, keep the smaller cost and clear the mark. */
  method Explore(graph: seq<seq<int>>, visited: array<int>, current: int, count: int, n: int, cost: int,
                 i: int, minCost: int) returns (m: int)
    requires Complete(graph) && n == |graph| == visited.Length
    requires 0 <= current < n && visited[current] != 0 && visited[0] != 0
    requires 0 <= i < n && minCost <= Java.IntMax
    requires BelowAll(graph, visited[..], current, count, n, cost, minCost, i)
    requires Attained(graph, visited[..], current, count, n, cost, minCost)
    modifies visited
    ensures visited[..] == old(visited[..]) && m <= Java.IntMax
    ensures BelowAll(graph, visited[..], current, count, n, cost, m, i + 1)
    ensures Attained(graph, visited[..], current, count, n, cost, m)
    decreases multiset(visited[..])[0], 0
  {
    ghost var v0 := visited[..];
    m := minCost;
    assert visited[i] == 0 ==> Edge(graph, current, i);
    if visited[i] == 0 && graph[current][i] > 0 {
      visited[i] := 1;
      var newCost := TSPRecursive(graph, visited, i, count + 1, n, cost + graph[current][i]);
      TakeBranch(graph, v0, current, count, n, cost, i, minCost, newCost);
      if newCost < m {
        m := newCost;
      }
      visited[i] := 0;
      assert visited[..] == v0;
    } else {
      SkipBranch(graph, v0, current, count, n, cost, i, minCost);
    }
  }

  /** A branch that is taken: the completions that start with the road to i are the
      completions from i, each dearer by that road, so the smaller of the two costs bounds
      one more first city and is still attained. */
  lemma TakeBranch(graph: seq<seq<int>>, v0: seq<int>, current: int, count: int, n: int, cost: int,
                   i: int, minCost: int, newCost: int)
    requires 0 <= i < |v0| && v0[i] == 0 && Road(graph, current, i)
    requires forall ext :: Completes(graph, v0[i := 1], i, count + 1, n, ext) ==>
      newCost <= cost + graph[current][i] + RestCost(graph, i, ext)
    requires newCost == Java.IntMax || exists ext :: (Completes(graph, v0[i := 1], i, count + 1, n, ext) &&
      newCost == cost + graph[current][i] + RestCost(graph, i, ext))
    requires BelowAll(graph, v0, current, count, n, cost, minCost, i)
    requires Attained(graph, v0, current, count, n, cost, minCost)
    ensures BelowAll(graph, v0, current, count, n, cost, if newCost < minCost then newCost else minCost, i + 1)
    ensures Attained(graph, v0, current, count, n, cost, if newCost < minCost then newCost else minCost)
  {
    var m := if newCost < minCost then newCost else minCost;
    forall ext | Completes(graph, v0, current, count, n, ext) && ext != [] && ext[0] < i + 1
      ensures m <= cost + RestCost(graph, current, ext)
    {
      if ext[0] == i {
        CompletesSplit(graph, v0, current, count, n, ext);
      }
    }
    if newCost < minCost && newCost != Java.IntMax {
      var rest :| Completes(graph, v0[i := 1], i, count + 1, n, rest) &&
        newCost == cost + graph[current][i] + RestCost(graph, i, rest);
      CompletesJoin(graph, v0, current, count, n, i, rest);
      var ext := [i] + rest;
      assert ext[1..] == rest;
      CompletesSplit(graph, v0, current, count, n, ext);
    }
  }

  /** A branch that is skipped: no completion starts with a visited city or a missing road. */
  lemma SkipBranch(graph: seq<seq<int>>, v0: seq<int>, current: int, count: int, n: int, cost: int,
                   i: int, minCost: int)
    requires 0 <= i < |v0| && !(v0[i] == 0 && Road(graph, current, i))
    requires BelowAll(graph, v0, current, count, n, cost, minCost, i)
    ensures BelowAll(graph, v0, current, count, n, cost, minCost, i + 1)
  {
    forall ext | Completes(graph, v0, current, count, n, ext) && ext != [] && ext[0] < i + 1
      ensures minCost <= cost + RestCost(graph, current, ext)
    {
      CompletesSplit(graph, v0, current, count, n, ext);
    }
  }

  /** After the last city every completion has been bounded: none is empty, since the trip
      was not complete, and every first city lies below n. */
  lemma AllExplored(graph: seq<seq<int>>, v0: seq<int>, current: int, count: int, n: int, cost: int, minCost: int)
    requires !(count == n && Road(graph, current, 0)) && n == |v0|
    requires BelowAll(graph, v0, current, count, n, cost, minCost, n)
    ensures forall ext :: Completes(graph, v0, current, count, n, ext) ==>
      minCost <= cost + RestCost(graph, current, ext)
  {
    CompletesNone(graph, v0, current, count, n);
    forall ext | Completes(graph, v0, current, count, n, ext) && ext != [] ensures ext[0] < n {
      CompletesSplit(graph, v0, current, count, n, ext);
    }
  }

  /** The marks `solveTSP` starts from: city 0 visited, every other city not. */
  function StartMarks(n: nat): (r: seq<int>)
    ensures |r| == n && forall c :: 0 <= c < n ==> (r[c] == 0 <==> c != 0)
  {
    seq(n, c => if c == 0 then 1 else 0)
  }

  /** The completions of the start state are exactly the Hamiltonian cycles through city 0
      along roads, with the start left off, at the same cost. */
  lemma TourIffCompletes(graph: seq<seq<int>>, ext: seq<int>)
    requires |graph| >= 1
    ensures Completes(graph, StartMarks(|graph|), 0, 1, |graph|, ext) <==> IsTour(graph, [0] + ext)
    ensures IsTour(graph, [0] + ext) ==> TourCost(graph, [0] + ext) == RestCost(graph, 0, ext)
  {
    var n := |graph|;
    var t := [0] + ext;
    assert t + [t[0]] == [0] + ext + [0];
    if Completes(graph, StartMarks(n), 0, 1, n, ext) {
      forall i, j | 0 <= i < j < |t| ensures t[i] != t[j] {
        if i > 0 {
          assert t[i] == ext[i - 1];
        }
        assert t[j] == ext[j - 1];
      }
      forall k | 0 <= k < |t| ensures 0 <= t[k] < n {
        if k > 0 {
          assert t[k] == ext[k - 1];
        }
      }
      DistinctInRangeIsArrangement(t, n);
    }
    if IsTour(graph, t) {
      ArrangementIsDistinctInRange(t, n);
      forall k | 0 <= k < |ext| ensures 0 <= ext[k] < n && StartMarks(n)[ext[k]] == 0 {
        assert ext[k] == t[k + 1] && t[k + 1] != t[0];
      }
      forall i, j | 0 <= i < j < |ext| ensures ext[i] != ext[j] {
        assert ext[i] == t[i + 1] && ext[j] == t[j + 1];
      }
    }
  }

  /** `solveTSP(graph)`: the cost of the cheapest Hamiltonian cycle through city 0 that
      uses only positive entries of the matrix, or `Integer.MAX_VALUE` when there is none.
      With two or more cities the answer never exceeds `Integer.MAX_VALUE`. */
  method SolveTSP(graph: seq<seq<int>>) returns (minCost: int)
    requires |graph| >= 1 && Complete(graph)
    ensures forall t :: IsTour(graph, t) ==> minCost <= TourCost(graph, t)
    ensures minCost == Java.IntMax || exists t :: IsTour(graph, t) && minCost == TourCost(graph, t)
    ensures |graph| >= 2 ==> minCost <= Java.IntMax
  {
    var n := |graph|;
    var visited := new int[n];
    for i := 0 to n
      invariant forall c :: 0 <= c < i ==> visited[c] == 0
    {
      visited[i] := 0;
    }
    visited[0] := 1;
    assert visited[..] == StartMarks(n);
    minCost := TSPRecursive(graph, visited, 0, 1, n, 0);
    FromStart(graph, minCost);
  }

  /** What the search from the start state finds, read as a statement about round trips. */
  lemma FromStart(graph: seq<seq<int>>, minCost: int)
    requires |graph| >= 1
    requires forall ext :: Completes(graph, StartMarks(|graph|), 0, 1, |graph|, ext) ==>
      minCost <= 0 + RestCost(graph, 0, ext)
    requires minCost == Java.IntMax || exists ext :: (Completes(graph, StartMarks(|graph|), 0, 1, |graph|, ext) &&
      minCost == 0 + RestCost(graph, 0, ext))
    ensures forall t :: IsTour(graph, t) ==> minCost <= TourCost(graph, t)
    ensures minCost == Java.IntMax || exists t :: IsTour(graph, t) && minCost == TourCost(graph, t)
  {
    forall t | IsTour(graph, t) ensures minCost <= TourCost(graph, t) {
      assert t == [0] + t[1..];
      TourIffCompletes(graph, t[1..]);
    }
    if minCost != Java.IntMax {
      var ext :| Completes(graph, StartMarks(|graph|), 0, 1, |graph|, ext) && minCost == RestCost(graph, 0, ext);
      TourIffCompletes(graph, ext);
    }
  }
}
