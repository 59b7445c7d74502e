/** `ConstantSpace`: two operations that use a fixed number of `int` variables. */
module ConstantSpace {

  /** `findMax(a, b)`: the larger of the two, and `b` when they are equal. */
  function FindMax(a: int, b: int): (r: int)
    ensures r >= a && r >= b
    ensures r == a || r == b
  {
    if a > b then a else b
  }

  /** The three XOR assignments of `swap`, applied to the two local copies (a Java `int`
      is a 32-bit two's-complement word, and `^` works bit by bit on it). The pair
      returned is what the locals hold afterwards: exchanged. */
  function XorSwap(a: bv32, b: bv32): (r: (bv32, bv32))
    ensures r.0 == b && r.1 == a
  {
    var a1 := a ^ b;
    var b1 := a1 ^ b;
    var a2 := a1 ^ b1;
    (a2, b1)
  }

  /** `swap(a, b)`: Java passes `int` arguments by value, so the exchange happens on
      the callee's copies only. The method returns nothing and changes nothing a caller
      can see, which its signature (no result, no `modifies`) already says. */
  method Swap(a: bv32, b: bv32) {
    var x, y := a, b;
    x := x ^ y;
    y := x ^ y;
    x := x ^ y;
    assert x == b && y == a;
  }
}
