/** `LinearTime`: one pass over an array. None of these methods modifies its input,
    which the absence of a `modifies` clause guarantees. */
module LinearTime {

  /** `findMax`: the largest element. Java reads `array[0]` first, so an empty array
      throws; callers must pass a non-empty one. */
  method FindMax(a: array<int>) returns (max: int)
    requires a.Length > 0
    ensures max in a[..]
    ensures forall k :: 0 <= k < a.Length ==> a[k] <= max
  {
    max := a[0];
    for i := 1 to a.Length
      invariant max in a[..i]
      invariant forall k :: 0 <= k < i ==> a[k] <= max
    {
      if a[i] > max {
        max := a[i];
      }
    }
  }

  /** `linearSearch`: the first index holding `target`, or -1 when there is none. */
  method LinearSearch(a: array<int>, target: int) returns (r: int)
    ensures -1 <= r < a.Length
    ensures r == -1 <==> target !in a[..]
    ensures 0 <= r ==> a[r] == target && target !in a[..r]
  {
    for i := 0 to a.Length
      invariant target !in a[..i]
    {
      if a[i] == target {
        return i;
      }
    }
    return -1;
  }

  /** `countOccurrences`: how many positions hold `value`, that is, the multiplicity of
      `value` in the array's multiset. */
  method CountOccurrences(a: array<int>, value: int) returns (count: int)
    ensures count == multiset(a[..])[value]
    ensures 0 <= count <= a.Length
  {
    count := 0;
    for i := 0 to a.Length
      invariant count == multiset(a[..i])[value]
      invariant count <= i
    {
      assert a[..i + 1] == a[..i] + [a[i]];
      if a[i] == value {
        count := count + 1;
      }
    }
    assert a[..a.Length] == a[..];
  }

  /** `copyArray`: a new array, element for element equal to the original. */
  method CopyArray(original: array<int>) returns (copy: array<int>)
    ensures fresh(copy)
    ensures copy[..] == original[..]
  {
    copy := new int[original.Length];
    for i := 0 to original.Length
      invariant forall k :: 0 <= k < i ==> copy[k] == original[k]
    {
      copy[i] := original[i];
    }
  }
}
