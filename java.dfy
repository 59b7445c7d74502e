/** The few pieces of the Java platform that the catalogue's algorithms lean on:
    the largest `int`, the `%` operator, and `java.util.ArrayList` as an object
    whose contents change in place. */
module Java {

  /** `Integer.MAX_VALUE`, the "no tour found yet" sentinel of both TSP solvers. */
  const IntMax: int := 0x7FFF_FFFF

  function Abs(x: int): nat {
    if x < 0 then -x else x
  }

  /** Java's `%` on `int`: it truncates toward zero, so the remainder takes the sign of
      the dividend (Dafny's own `%` is Euclidean and never negative). */
  function Rem(a: int, b: int): (r: int)
    requires b != 0
    ensures Abs(r) < Abs(b)
    ensures a >= 0 ==> r >= 0
    ensures a <= 0 ==> r <= 0
  {
    if a >= 0 then a % Abs(b) else -((-a) % Abs(b))
  }

  /** Java's `/` on `int`, the quotient that goes with `Rem`. */
  function Quot(a: int, b: int): int
    requires b != 0
  {
    var q := (if a >= 0 then a else -a) / Abs(b);
    if (a >= 0) == (b > 0) then q else -q
  }

  /** Dividend = quotient * divisor + remainder, as the Java Language Specification
      (section 15.17.3) requires of `%`. */
  lemma QuotRem(a: int, b: int)
    requires b != 0
    ensures a == Quot(a, b) * b + Rem(a, b)
  {
    var d := Abs(b);
    var m := Abs(a);
    var q := m / d;
    var r := m % d;
    assert m == q * d + r;
    QuotRemSigned(a, b, q, r);
  }

  lemma QuotRemSigned(a: int, b: int, q: int, r: int)
    requires b != 0 && Abs(a) == q * Abs(b) + r
    requires q == Abs(a) / Abs(b) && r == Abs(a) % Abs(b)
    ensures a == Quot(a, b) * b + Rem(a, b)
  {
    assert Rem(a, b) == if a >= 0 then r else -r;
    assert Quot(a, b) == if (a >= 0) == (b > 0) then q else -q;
    if a >= 0 && b > 0 {
      assert a == q * b + r;
    } else if a >= 0 {
      assert a == (-q) * b + r;
    } else if b > 0 {
      assert a == (-q) * b - r;
    } else {
      assert a == q * b - r;
    }
  }

  /** A `java.lang.String` as Java sees it: a sequence of UTF-16 code units, which is what
      `length()` counts and `charAt` indexes. A character outside the Basic Multilingual
      Plane takes two of them. */
  type JavaString = seq<bv16>

  /** `java.util.ArrayList`, reduced to the operations the catalogue calls on it. The
      contents are a value, so `new ArrayList<>(list)` (a snapshot that later changes to
      `list` cannot reach) is simply a read of `elems`. */
  class ArrayList<T(==)> {
    var elems: seq<T>

    constructor ()
      ensures elems == []
    {
      elems := [];
    }

    function Size(): nat
      reads this
    {
      |elems|
    }

    function Contains(x: T): bool
      reads this
    {
      x in elems
    }

    /** `add(x)`: append at the end. */
    method Add(x: T)
      modifies this
      ensures elems == old(elems) + [x]
    {
      elems := elems + [x];
    }

    /** `remove(size() - 1)`; on an empty list Java throws, so callers must not. */
    method RemoveLast()
      requires elems != []
      modifies this
      ensures elems == old(elems)[..|old(elems)| - 1]
    {
      elems := elems[..|elems| - 1];
    }
  }
}
