/** `ConstantTime`: four O(1) operations, each a single test or expression. */
module ConstantTime {
  import Java

  /** `getElementAtIndex`: the element at `index` when the index is inside the array,
      and -1 otherwise. */
  function GetElementAtIndex(a: seq<int>, index: int): (r: int)
    ensures 0 <= index < |a| ==> r == a[index]
    ensures !(0 <= index < |a|) ==> r == -1
  {
    if index >= 0 && index < |a| then a[index] else -1
  }

  /** The out-of-bounds answer cannot be told apart from a stored -1: whenever the array
      holds -1 somewhere, some in-bounds index and the out-of-bounds index |a| give the
      same result. */
  lemma SentinelIsAmbiguous(a: seq<int>)
    requires -1 in a
    ensures exists i :: 0 <= i < |a| && GetElementAtIndex(a, i) == GetElementAtIndex(a, |a|)
  {
    var i :| 0 <= i < |a| && a[i] == -1;
    assert GetElementAtIndex(a, i) == GetElementAtIndex(a, |a|);
  }

  /** `getValueFromHashMap`: the value stored under `key`, or the text "Key not found". */
  function GetValueFromHashMap(m: map<string, string>, key: string): (r: string)
    ensures key in m ==> r == m[key]
    ensures key !in m ==> r == "Key not found"
  {
    if key in m then m[key] else "Key not found"
  }

  /** `isEven`: `number % 2 == 0` with Java's truncating `%`. For a negative odd number
      Java's remainder is -1, not 1, and the test still answers correctly. */
  function IsEven(number: int): (r: bool)
    ensures r <==> number % 2 == 0
  {
    Java.Rem(number, 2) == 0
  }

  /** `isEven` answers "is a multiple of two", for negative numbers too. */
  lemma IsEvenMeansMultipleOfTwo(number: int)
    ensures IsEven(number) <==> exists k :: number == 2 * k
  {
    if IsEven(number) {
      assert number == 2 * (number / 2);
    }
  }

  /** `isNotNull`: a reference test. */
  function IsNotNull(obj: object?): (r: bool)
    ensures r <==> obj != null
  {
    obj != null
  }
}
