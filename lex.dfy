/** Lexicographic order on integer sequences: the order in which `nextPermutation`
    steps through the arrangements of an array. */
module Lex {
  import opened Seqs

  /** s comes strictly before t: at the first position where they differ, s holds the
      smaller value. A proper prefix is not counted as smaller; every comparison in the
      catalogue is between sequences of one length. */
  predicate LexLess(s: seq<int>, t: seq<int>) {
    |s| > 0 && |t| > 0 && (s[0] < t[0] || (s[0] == t[0] && LexLess(s[1..], t[1..])))
  }

  predicate LexLessEq(s: seq<int>, t: seq<int>) {
    s == t || LexLess(s, t)
  }

  /** The first difference decides: equal up to position d and smaller at d. */
  lemma {:induction false} LexAt(s: seq<int>, t: seq<int>, d: int)
    requires 0 <= d < |s| && d < |t| && s[..d] == t[..d] && s[d] < t[d]
    ensures LexLess(s, t)
    decreases d
  {
    if d > 0 {
      assert s[0] == s[..d][0] && t[0] == t[..d][0];
      assert s[1..][..d - 1] == s[..d][1..] && t[1..][..d - 1] == t[..d][1..];
      LexAt(s[1..], t[1..], d - 1);
    }
  }

  /** Conversely, two sequences in strict order have such a first difference. */
  lemma {:induction false} LexWitness(s: seq<int>, t: seq<int>) returns (d: nat)
    requires LexLess(s, t)
    ensures d < |s| && d < |t| && s[..d] == t[..d] && s[d] < t[d]
    decreases |s|
  {
    if s[0] < t[0] {
      d := 0;
    } else {
      var d' := LexWitness(s[1..], t[1..]);
      d := d' + 1;
      assert s[..d] == [s[0]] + s[1..][..d'];
      assert t[..d] == [t[0]] + t[1..][..d'];
    }
  }

  lemma {:induction false} LexIrreflexive(s: seq<int>)
    ensures !LexLess(s, s)
    decreases |s|
  {
    if |s| > 0 {
      LexIrreflexive(s[1..]);
    }
  }

  lemma {:induction false} LexAsymmetric(s: seq<int>, t: seq<int>)
    requires LexLess(s, t)
    ensures !LexLess(t, s)
    decreases |s|
  {
    if s[0] == t[0] {
      LexAsymmetric(s[1..], t[1..]);
    }
  }

  lemma {:induction false} LexTransitive(s: seq<int>, t: seq<int>, u: seq<int>)
    requires LexLess(s, t) && LexLess(t, u)
    ensures LexLess(s, u)
    decreases |s|
  {
    if s[0] == t[0] && t[0] == u[0] {
      LexTransitive(s[1..], t[1..], u[1..]);
    }
  }

  /** Two different sequences of one length are ordered one way or the other. */
  lemma {:induction false} LexTotal(s: seq<int>, t: seq<int>)
    requires |s| == |t| && s != t
    ensures LexLess(s, t) || LexLess(t, s)
    decreases |s|
  {
    if s[0] == t[0] {
      if s[1..] == t[1..] {
        ConsEqual(s, t);
      }
      LexTotal(s[1..], t[1..]);
    }
  }

  /** A common prefix leaves the order of what follows it unchanged. */
  lemma {:induction false} LexPrefix(c: seq<int>, s: seq<int>, t: seq<int>)
    requires LexLessEq(s, t)
    ensures LexLessEq(c + s, c + t)
    decreases |c|
  {
    if c != [] && s != t {
      LexPrefix(c[1..], s, t);
      var cs, ct := c[1..] + s, c[1..] + t;
      assert cs[|c| - 1..] == s && ct[|c| - 1..] == t;
      assert (c + s)[1..] == cs && (c + t)[1..] == ct;
      assert (c + s)[0] == c[0] == (c + t)[0];
    } else if c == [] {
      assert c + s == s && c + t == t;
    }
  }

  /** Sequences that agree on their first m positions are ordered as what follows. */
  lemma CommonPrefix(s: seq<int>, t: seq<int>, m: int)
    requires 0 <= m <= |s| && m <= |t| && s[..m] == t[..m] && LexLessEq(s[m..], t[m..])
    ensures LexLessEq(s, t)
  {
    LexPrefix(s[..m], s[m..], t[m..]);
    assert s == s[..m] + s[m..] && t == s[..m] + t[m..];
  }

  /** The ascending arrangement of a multiset comes first among all its arrangements. */
  lemma {:induction false} SortedIsLexLeast(a: seq<int>, b: seq<int>)
    requires Sorted(a) && multiset(a) == multiset(b)
    ensures LexLessEq(a, b)
    decreases |a|
  {
    assert |a| == |multiset(a)| == |multiset(b)| == |b|;
    if a != [] {
      assert b[0] in multiset(a);
      SortedHeadLeast(a, b[0]);
      if a[0] == b[0] {
        TailMultiset(a);
        TailMultiset(b);
        SortedTail(a);
        SortedIsLexLeast(a[1..], b[1..]);
        if a[1..] == b[1..] {
          ConsEqual(a, b);
        }
      }
    }
  }

  /** The head of a non-increasing sequence is its greatest element. */
  lemma NonIncreasingHeadGreatest(s: seq<int>, x: int)
    requires NonIncreasing(s) && x in multiset(s)
    ensures s != [] && x <= s[0]
  {
    var k :| 0 <= k < |s| && s[k] == x;
  }

  /** The non-increasing arrangement of a multiset comes last among all its arrangements. */
  lemma {:induction false} NonIncreasingIsLexGreatest(a: seq<int>, b: seq<int>)
    requires NonIncreasing(a) && multiset(a) == multiset(b)
    ensures LexLessEq(b, a)
    decreases |a|
  {
    assert |a| == |multiset(a)| == |multiset(b)| == |b|;
    if a != [] {
      assert b[0] in multiset(a);
      NonIncreasingHeadGreatest(a, b[0]);
      if a[0] == b[0] {
        TailMultiset(a);
        TailMultiset(b);
        assert NonIncreasing(a[1..]);
        NonIncreasingIsLexGreatest(a[1..], b[1..]);
        if a[1..] == b[1..] {
          ConsEqual(a, b);
        }
      }
    }
  }
}
