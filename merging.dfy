/** The two-way merge that both merge sorts of the catalogue perform, as a function on
    sequences, with the facts a merge sort needs: a merge is a permutation of its inputs
    and keeps sorted inputs sorted. */
module Merging {
  import opened Seqs

  /** Repeatedly take the smaller head. On equal heads the left one is taken when
      `leftOnTies` holds (a `<=` comparison), the right one otherwise (a `<` comparison);
      once one side is used up, the rest of the other follows. */
  function Merged(xs: seq<int>, ys: seq<int>, leftOnTies: bool): seq<int>
    decreases |xs| + |ys|
  {
    if xs == [] then ys
    else if ys == [] then xs
    else if xs[0] < ys[0] || (leftOnTies && xs[0] == ys[0]) then [xs[0]] + Merged(xs[1..], ys, leftOnTies)
    else [ys[0]] + Merged(xs, ys[1..], leftOnTies)
  }

  /** One step of a merge that is under way at positions i and j: the left head is
      taken when the right side is used up or the left head comes first. */
  lemma MergedTakesLeft(xs: seq<int>, ys: seq<int>, leftOnTies: bool, i: int, j: int)
    requires 0 <= i < |xs| && 0 <= j <= |ys|
    requires j == |ys| || xs[i] < ys[j] || (leftOnTies && xs[i] == ys[j])
    ensures Merged(xs[i..], ys[j..], leftOnTies) == [xs[i]] + Merged(xs[i + 1..], ys[j..], leftOnTies)
  {
    assert xs[i..][1..] == xs[i + 1..];
  }

  /** The right head is taken when the left side is used up or the right head comes first. */
  lemma MergedTakesRight(xs: seq<int>, ys: seq<int>, leftOnTies: bool, i: int, j: int)
    requires 0 <= i <= |xs| && 0 <= j < |ys|
    requires i == |xs| || !(xs[i] < ys[j] || (leftOnTies && xs[i] == ys[j]))
    ensures Merged(xs[i..], ys[j..], leftOnTies) == [ys[j]] + Merged(xs[i..], ys[j + 1..], leftOnTies)
  {
    assert ys[j..][1..] == ys[j + 1..];
  }

  /** Nothing is lost or invented: the merge holds exactly the elements of both inputs. */
  lemma {:induction false} MergedPermutes(xs: seq<int>, ys: seq<int>, leftOnTies: bool)
    ensures multiset(Merged(xs, ys, leftOnTies)) == multiset(xs) + multiset(ys)
    ensures |Merged(xs, ys, leftOnTies)| == |xs| + |ys|
    decreases |xs| + |ys|
  {
    if xs != [] && ys != [] {
      if xs[0] < ys[0] || (leftOnTies && xs[0] == ys[0]) {
        var rest := Merged(xs[1..], ys, leftOnTies);
        MergedPermutes(xs[1..], ys, leftOnTies);
        assert Merged(xs, ys, leftOnTies) == [xs[0]] + rest;
        ConsMultiset(xs);
      } else {
        var rest := Merged(xs, ys[1..], leftOnTies);
        MergedPermutes(xs, ys[1..], leftOnTies);
        assert Merged(xs, ys, leftOnTies) == [ys[0]] + rest;
        ConsMultiset(ys);
      }
    }
  }

  lemma ConsMultiset(s: seq<int>)
    requires s != []
    ensures multiset(s) == multiset{s[0]} + multiset(s[1..])
  {
    assert s == [s[0]] + s[1..];
  }

  /** Every element of s is at least b. */
  predicate AtLeast(s: seq<int>, b: int) {
    forall k :: 0 <= k < |s| ==> b <= s[k]
  }

  /** A lower bound of both inputs is a lower bound of their merge. */
  lemma {:induction false} MergedAtLeast(xs: seq<int>, ys: seq<int>, leftOnTies: bool, b: int)
    requires AtLeast(xs, b) && AtLeast(ys, b)
    ensures AtLeast(Merged(xs, ys, leftOnTies), b)
    decreases |xs| + |ys|
  {
    if xs != [] && ys != [] {
      if xs[0] < ys[0] || (leftOnTies && xs[0] == ys[0]) {
        MergedAtLeast(xs[1..], ys, leftOnTies, b);
      } else {
        MergedAtLeast(xs, ys[1..], leftOnTies, b);
      }
    }
  }

  lemma SortedCons(x: int, s: seq<int>)
    requires Sorted(s) && AtLeast(s, x)
    ensures Sorted([x] + s)
  {
  }

  /** The head of an ascending sequence bounds its tail, and the tail stays ascending. */
  lemma SortedTailAtLeast(s: seq<int>)
    requires Sorted(s) && s != []
    ensures Sorted(s[1..]) && AtLeast(s[1..], s[0])
  {
  }

  /** Merging two ascending sequences gives an ascending sequence. */
  lemma {:induction false} MergedSorted(xs: seq<int>, ys: seq<int>, leftOnTies: bool)
    requires Sorted(xs) && Sorted(ys)
    ensures Sorted(Merged(xs, ys, leftOnTies))
    decreases |xs| + |ys|
  {
    if xs != [] && ys != [] {
      SortedTailAtLeast(xs);
      SortedTailAtLeast(ys);
      if xs[0] < ys[0] || (leftOnTies && xs[0] == ys[0]) {
        MergedSorted(xs[1..], ys, leftOnTies);
        assert AtLeast(ys, xs[0]) by {
          assert ys == [ys[0]] + ys[1..];
        }
        MergedAtLeast(xs[1..], ys, leftOnTies, xs[0]);
        SortedCons(xs[0], Merged(xs[1..], ys, leftOnTies));
      } else {
        MergedSorted(xs, ys[1..], leftOnTies);
        assert AtLeast(xs, ys[0]) by {
          assert xs == [xs[0]] + xs[1..];
        }
        MergedAtLeast(xs, ys[1..], leftOnTies, ys[0]);
        SortedCons(ys[0], Merged(xs, ys[1..], leftOnTies));
      }
    }
  }

  /** On ascending inputs the tie rule makes no difference to the result: the `<=` merge
      of one class and the `<` merge of the other produce the same sequence. */
  lemma MergedTieRuleIrrelevant(xs: seq<int>, ys: seq<int>)
    requires Sorted(xs) && Sorted(ys)
    ensures Merged(xs, ys, true) == Merged(xs, ys, false)
  {
    MergedSorted(xs, ys, true);
    MergedSorted(xs, ys, false);
    MergedPermutes(xs, ys, true);
    MergedPermutes(xs, ys, false);
    SortedUnique(Merged(xs, ys, true), Merged(xs, ys, false));
  }
}
