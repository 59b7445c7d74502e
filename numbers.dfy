/** Integer powers and factorials: the value of a polynomial term, and the numbers of
    subsets and of orderings that the exhaustive enumerations produce. */
module Numbers {

  /** x to the power e, by repeated multiplication. */
  function Pow(x: int, e: nat): int {
    if e == 0 then 1 else x * Pow(x, e - 1)
  }

  /** n! = n * (n - 1) * ... * 1. */
  function Factorial(n: nat): nat {
    if n == 0 then 1 else n * Factorial(n - 1)
  }
}
