/** `PolynomialTime`: bubble sort once more, the schoolbook product of two integer
    matrices, and the evaluation of a polynomial term by term with repeated
    multiplication. Java's 32-bit `int` arithmetic is modelled without wrap-around. */
module PolynomialTime {
  import opened Seqs
  import opened Numbers
  import QuadraticTime

  /** `bubbleSort(array)`: the same code as `QuadraticTime.bubbleSort`, so the same
      contract: ascending, a rearrangement, and arrays shorter than two untouched. */
  method BubbleSort(a: array<int>)
    modifies a
    ensures Sorted(a[..]) && multiset(a[..]) == multiset(old(a[..]))
    ensures a.Length < 2 ==> a[..] == old(a[..])
  {
    QuadraticTime.BubbleSort(a);
  }

  // ---------------------------------------------------------------------------
  // Matrix multiplication

  /** Row i of A times column j of B, over the first m terms:
      A[i][0] * B[0][j] + ... + A[i][m - 1] * B[m - 1][j]. */
  function Dot(A: seq<seq<int>>, B: seq<seq<int>>, i: int, j: int, m: nat): int
    requires 0 <= i < |A| && m <= |A[i]| && m <= |B| && 0 <= j
    requires forall k :: 0 <= k < m ==> j < |B[k]|
  {
    if m == 0 then 0 else Dot(A, B, i, j, m - 1) + A[i][m - 1] * B[m - 1][j]
  }

  /** What `matrixMultiplication` needs so that no index is out of bounds: both matrices
      have a first row (it reads `A[0].length` and `B[0].length`), and unless B's first row
      is empty, so that no entry is computed, every row of A is at least as long as the
      first, B has that many rows, and each of them is at least as long as B's first. */
  predicate Multipliable(A: seq<seq<int>>, B: seq<seq<int>>) {
    && |A| >= 1 && |B| >= 1
    && (|B[0]| > 0 ==>
          && |A[0]| <= |B|
          && (forall i :: 0 <= i < |A| ==> |A[0]| <= |A[i]|)
          && (forall k :: 0 <= k < |A[0]| ==> |B[0]| <= |B[k]|))
  }

  /** `matrixMultiplication(A, B)`: a new `A.length` by `B[0].length` matrix whose entry
      (i, j) is row i of A times column j of B, over the `A[0].length` columns of A. */
  method MatrixMultiplication(A: seq<seq<int>>, B: seq<seq<int>>) returns (result: array2<int>)
    requires Multipliable(A, B)
    ensures fresh(result)
    ensures result.Length0 == |A| && result.Length1 == |B[0]|
    ensures forall i, j :: 0 <= i < |A| && 0 <= j < |B[0]| ==> result[i, j] == Dot(A, B, i, j, |A[0]|)
  {
    var n := |A|;
    var m := |A[0]|;
    var p := |B[0]|;
    result := new int[n, p]((_, _) => 0);
    for i := 0 to n
      invariant forall x, y :: 0 <= x < i && 0 <= y < p ==> result[x, y] == Dot(A, B, x, y, m)
      invariant forall x, y :: i <= x < n && 0 <= y < p ==> result[x, y] == 0
    {
      for j := 0 to p
        invariant forall x, y :: 0 <= x < i && 0 <= y < p ==> result[x, y] == Dot(A, B, x, y, m)
        invariant forall y :: 0 <= y < j ==> result[i, y] == Dot(A, B, i, y, m)
        invariant forall x, y :: i <= x < n && 0 <= y < p && (x != i || j <= y) ==> result[x, y] == 0
      {
        for k := 0 to m
          invariant forall x, y :: 0 <= x < i && 0 <= y < p ==> result[x, y] == Dot(A, B, x, y, m)
          invariant forall y :: 0 <= y < j ==> result[i, y] == Dot(A, B, i, y, m)
          invariant result[i, j] == Dot(A, B, i, j, k)
          invariant forall x, y :: i <= x < n && 0 <= y < p && (x != i || j < y) ==> result[x, y] == 0
        {
          result[i, j] := result[i, j] + A[i][k] * B[k][j];
        }
      }
    }
  }

  /** The m by m identity matrix. */
  function Identity(m: nat): (r: seq<seq<int>>)
    ensures |r| == m && forall k :: 0 <= k < m ==> |r[k]| == m
  {
    seq(m, k => seq(m, c => if c == k then 1 else 0))
  }

  /** Multiplying by the identity on the right picks out A's own entries: over the first
      k terms, column j of the identity contributes A[i][j] exactly when j < k. */
  lemma {:induction false} DotIdentity(A: seq<seq<int>>, i: int, j: int, k: nat, m: nat)
    requires 0 <= i < |A| && k <= m <= |A[i]| && 0 <= j < m
    ensures Dot(A, Identity(m), i, j, k) == if j < k then A[i][j] else 0
  {
    if k > 0 {
      DotIdentity(A, i, j, k - 1, m);
    }
  }

  // ---------------------------------------------------------------------------
  // Polynomial evaluation

  /** c[0] + c[1] * x + ... + c[n - 1] * x^(n - 1), lowest degree first. */
  function PolySum(c: seq<int>, x: int): int {
    if c == [] then 0 else PolySum(c[..|c| - 1], x) + c[|c| - 1] * Pow(x, |c| - 1)
  }

  /** Horner's rule, c[0] + x * (c[1] + x * (...)), an independent definition of the
      value of the polynomial. */
  function Horner(c: seq<int>, x: int): int {
    if c == [] then 0 else c[0] + x * Horner(c[1..], x)
  }

  /** Term-by-term summation and Horner's rule give the same value. */
  lemma {:induction false} PolySumIsHorner(c: seq<int>, x: int)
    ensures PolySum(c, x) == Horner(c, x)
    decreases |c|
  {
    if c != [] {
      PolySumFront(c, x);
      PolySumIsHorner(c[1..], x);
    }
  }

  /** Taking the constant term out: the rest is x times the polynomial of c[1..]. */
  lemma {:induction false} PolySumFront(c: seq<int>, x: int)
    requires c != []
    ensures PolySum(c, x) == c[0] + x * PolySum(c[1..], x)
    decreases |c|
  {
    var n := |c|;
    if n > 1 {
      var init, rest := c[..n - 1], c[1..];
      PolySumFront(init, x);
      var p := PolySum(init[1..], x);
      var q := Pow(x, n - 2);
      assert init[1..] == rest[..n - 2];
      assert PolySum(rest, x) == p + c[n - 1] * q;
      assert Pow(x, n - 1) == x * q;
      Distributes(x, p, c[n - 1], q);
    }
  }

  lemma Distributes(x: int, p: int, a: int, q: int)
    ensures x * (p + a * q) == x * p + a * (x * q)
  {
  }

  /** `evaluatePolynomial(coefficients, x)`: the sum of coefficients[i] * x^i, with each
      power rebuilt from 1 by i multiplications; 0 for no coefficients. */
  method EvaluatePolynomial(coefficients: array<int>, x: int) returns (result: int)
    ensures result == PolySum(coefficients[..], x)
    ensures coefficients.Length == 0 ==> result == 0
  {
    result := 0;
    var n := coefficients.Length;
    for i := 0 to n
      invariant result == PolySum(coefficients[..i], x)
    {
      var term := coefficients[i];
      for j := 0 to i
        invariant term == coefficients[i] * Pow(x, j)
      {
        term := term * x;
      }
      assert coefficients[..i + 1][..i] == coefficients[..i];
      result := result + term;
    }
    assert coefficients[..n] == coefficients[..];
  }
}
