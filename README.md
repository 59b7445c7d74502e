# complexityNotations in Dafny

complexityNotations is a catalogue of small Java algorithms grouped by the growth rate they
illustrate. Each class of the `org.notations` package is named after one complexity class:

- constant time and constant space;
- linear, logarithmic and linearithmic time;
- quadratic and polynomial time;
- exponential and factorial time.

This project models the catalogue's algorithms, one Dafny module per Java class, and proves
what each of them computes. It does not prove their running times.

The Java code works in place on arrays, so most of it is modelled as methods over Dafny
arrays with loop invariants. Each method is proved against a specification function or
predicate, and lemmas prove what the source promises about that function:

- the sorts leave the array ascending and a rearrangement of itself;
- the searches find the first match, or report that there is none;
- the generators emit exactly the subsets (2^n of them) and exactly the orderings (n! of
  them for distinct values);
- `nextPermutation` steps to the lexicographically next ordering;
- each travelling-salesman solver returns the cheapest round trip it considers, or
  `Integer.MAX_VALUE` when there is none.

The two travelling-salesman solvers read a cost matrix differently:

- `ExponentialTime` only follows positive entries;
- `FactorialTime` prices every ordering, whatever the entries hold.

`TspAgreement.SolversAgree` proves that the two answers coincide whenever every two
different cities are joined by a positive distance.

Supporting modules:

| module | contents |
|---|---|
| `Java` | `Integer.MAX_VALUE`; Java's truncating `%` and `/`; `java.util.ArrayList` as a class whose `elems` sequence its methods reassign |
| `Seqs` | sortedness, distinctness, arrangements of `0..n-1`, ranges of an array permuted in place |
| `Numbers` | powers and factorials |
| `Merging` | the merge of two sequences, with a switch for the tie rule: `LogarithmicTime.merge` takes ties from the left run, `LinearithmicTime.merge` from the right |
| `ArrayMerge` | the merge loop and the copy loops shared by the two array merges |
| `Arrays` | the three-assignment swap of two array cells |
| `Lex` | lexicographic order on integer sequences |
| `Tours` | cost matrices, walks, and round-trip costs |
| `TspAgreement` | how the two solvers relate |

Java `int` is modelled as an unbounded integer except in `ConstantSpace.swap`. That method
relies on the bit pattern of the word, so it is modelled on `bv32`.

## Model

| member | source | states |
|---|---|---|
| ConstantTime.GetElementAtIndex | src/main/java/org/notations/consatant/ConstantTime.java:32-37 | the element at the index when the index is inside the array, and -1 for a negative index or one at or past the length |
| ConstantTime.SentinelIsAmbiguous | src/main/java/org/notations/consatant/ConstantTime.java:32-37 | when the array holds -1, some in-bounds read returns the same value as an out-of-bounds read, so -1 does not reliably signal a bad index |
| ConstantTime.GetValueFromHashMap | src/main/java/org/notations/consatant/ConstantTime.java:48-53 | the value stored under the key when the key is present, the text "Key not found" otherwise |
| ConstantTime.IsEven | src/main/java/org/notations/consatant/ConstantTime.java:62-64 | true exactly when the number leaves no remainder on division by 2; the body uses Java's truncating `%` |
| ConstantTime.IsEvenMeansMultipleOfTwo | src/main/java/org/notations/consatant/ConstantTime.java:62-64 | true exactly for the numbers that are 2 * k for some integer k, negative numbers included |
| ConstantTime.IsNotNull | src/main/java/org/notations/consatant/ConstantTime.java:73-75 | true exactly for a non-null reference |
| ConstantSpace.FindMax | src/main/java/org/notations/consatant/ConstantSpace.java:37-39 | a result that is one of the two arguments and at least both of them |
| ConstantSpace.XorSwap | src/main/java/org/notations/consatant/ConstantSpace.java:22-26 | the three XOR assignments leave each 32-bit local holding the other's original value |
| Java.QuotRem | src/main/java/org/notations/logarithmic/LogarithmicTime.java:71-77 | Java's truncating quotient and remainder satisfy dividend == quotient * divisor + remainder; the remainder is smaller in magnitude than the divisor and has the dividend's sign (`Java.Rem`'s ensures) |
| Java.ArrayList.Add | src/main/java/org/notations/exponential/ExponentialTime.java:37 | `current.add` appends the element and changes nothing else in the list |
| Java.ArrayList.RemoveLast | src/main/java/org/notations/exponential/ExponentialTime.java:40 | `current.remove(current.size() - 1)` drops exactly the last element |
| LinearTime.FindMax | src/main/java/org/notations/linear/LinearTime.java:41-50 | for a non-empty array: a value that occurs in the array and is at least every element |
| LinearTime.LinearSearch | src/main/java/org/notations/linear/LinearTime.java:62-70 | -1 exactly when the target does not occur; otherwise the first index that holds it |
| LinearTime.CountOccurrences | src/main/java/org/notations/linear/LinearTime.java:81-90 | the number of positions holding the value, that is its multiplicity in the array's multiset |
| LinearTime.CopyArray | src/main/java/org/notations/linear/LinearTime.java:100-107 | a new array, distinct from the original, equal to it element for element |
| LogarithmicTime.BinarySearch | src/main/java/org/notations/logarithmic/LogarithmicTime.java:29-44 | a returned index holds the key; on an ascending array, -1 means the key does not occur |
| LogarithmicTime.FindGCD | src/main/java/org/notations/logarithmic/LogarithmicTime.java:71-77 | non-negative when both arguments are non-negative |
| LogarithmicTime.FindGCDDividesBoth | src/main/java/org/notations/logarithmic/LogarithmicTime.java:71-77 | the result divides both arguments, whatever their signs |
| LogarithmicTime.CommonDivisorDividesFindGCD | src/main/java/org/notations/logarithmic/LogarithmicTime.java:71-77 | every common divisor of the two arguments divides the result |
| LogarithmicTime.FindGCDIsGreatest | src/main/java/org/notations/logarithmic/LogarithmicTime.java:71-77 | for non-negative arguments, not both zero: the result is positive and at least every common divisor, so it is the greatest common divisor |
| LogarithmicTime.Merge | src/main/java/org/notations/logarithmic/LogarithmicTime.java:117-160 | positions left..right become the merge of the two halves left..mid and mid+1..right, taking ties from the left half; every other position is unchanged |
| LogarithmicTime.MergeSort | src/main/java/org/notations/logarithmic/LogarithmicTime.java:103-115 | for left < right: positions left..right become ascending and a rearrangement of what they held, and positions outside are unchanged; for left >= right: the array is unchanged |
| LogarithmicTime.MergeSortStep | src/main/java/org/notations/logarithmic/LogarithmicTime.java:103-115 | sorting each half in place and then merging the halves sorts the whole range and keeps its elements |
| Merging.MergedPermutes | src/main/java/org/notations/linearithmic/LinearithmicTime.java:80-106 | a merge holds exactly the elements of its two inputs, with multiplicities, whichever tie rule it uses |
| Merging.MergedSorted | src/main/java/org/notations/logarithmic/LogarithmicTime.java:117-160 | merging two ascending sequences gives an ascending sequence, whichever tie rule is used |
| Merging.MergedTieRuleIrrelevant | src/main/java/org/notations/logarithmic/LogarithmicTime.java:139 | on ascending inputs, taking ties from the left (`<=`) and taking them from the right (`<`) give the same merge |
| ArrayMerge.CopyOut | src/main/java/org/notations/logarithmic/LogarithmicTime.java:122-132 | a new array holding a copy of n consecutive elements, as the copies into the temporary arrays make |
| ArrayMerge.MergeRuns | src/main/java/org/notations/linearithmic/LinearithmicTime.java:84-93 | the main merge loop stops once one run is used up, having written the first i + j elements of the merge at the start position and left the rest of the array unchanged |
| ArrayMerge.CopyRemaining | src/main/java/org/notations/linearithmic/LinearithmicTime.java:95-105 | each tail loop copies what is left of a run directly after the elements already merged |
| LinearithmicTime.MergeSort | src/main/java/org/notations/linearithmic/LinearithmicTime.java:51-78 | the array becomes ascending and a rearrangement of itself; an array of length 0 or 1 is unchanged |
| LinearithmicTime.MergeSortStep | src/main/java/org/notations/linearithmic/LinearithmicTime.java:51-78 | two sorted copies of the halves, merged back into the array, give a sorted rearrangement of the whole array |
| LinearithmicTime.Merge | src/main/java/org/notations/linearithmic/LinearithmicTime.java:80-106 | the first left.length + right.length positions of the result array become the merge of the two arrays, taking ties from the right; later positions are unchanged |
| LinearithmicTime.Partition | src/main/java/org/notations/linearithmic/LinearithmicTime.java:146-168 | for low <= high: the old array[high] ends at the returned index p, everything in low..p-1 is below it, everything in p+1..high is at least it, low..high is a rearrangement of what it held, and nothing outside changes; for low > high: the result is low and array[low] and array[high] are exchanged |
| LinearithmicTime.QuickSortAsWritten | src/main/java/org/notations/linearithmic/LinearithmicTime.java:137-144 | the method as written never returns normally; from low 0 with high in -1..length-1 and enough stack, it ends with an index out of bounds |
| LinearithmicTime.QuickSort | src/main/java/org/notations/linearithmic/LinearithmicTime.java:113-144 | with the base case its documentation describes: for low < high, low..high becomes ascending and a rearrangement, and nothing outside changes; for low >= high, the array is unchanged |
| LinearithmicTime.QuickSortStep | src/main/java/org/notations/linearithmic/LinearithmicTime.java:137-144 | partitioning around p and then sorting both sides sorts the whole range |
| QuadraticTime.BubblePass | src/main/java/org/notations/quadratic/QuadraticTime.java:28-35 | one pass of the inner loop keeps the array a rearrangement of the original, moves the largest unsettled element behind the others, extends the settled, ascending suffix by one, and leaves the i positions settled by earlier passes unchanged |
| QuadraticTime.BubbleSort | src/main/java/org/notations/quadratic/QuadraticTime.java:25-37 | the array becomes ascending and a rearrangement of itself; an array shorter than two is unchanged |
| QuadraticTime.MinIndexFrom | src/main/java/org/notations/quadratic/QuadraticTime.java:49-54 | the inner loop finds the index of the first smallest element from position i on |
| QuadraticTime.SelectionSort | src/main/java/org/notations/quadratic/QuadraticTime.java:46-60 | the array becomes ascending and a rearrangement of itself |
| QuadraticTime.InsertNext | src/main/java/org/notations/quadratic/QuadraticTime.java:73-79 | shifting the larger elements up and dropping the key into the gap makes positions 0..i ascending and a rearrangement of what they held, and leaves every position after i unchanged |
| QuadraticTime.InsertionSort | src/main/java/org/notations/quadratic/QuadraticTime.java:70-81 | the array becomes ascending and a rearrangement of itself |
| QuadraticTime.BruteForceStringMatch | src/main/java/org/notations/quadratic/QuadraticTime.java:92-105 | the first position where the pattern occurs in the text, or -1 when it occurs nowhere; an empty pattern is found at 0 and a pattern longer than the text is not found; positions and lengths count UTF-16 code units, as `length()` and `charAt` do |
| PolynomialTime.BubbleSort | src/main/java/org/notations/polynomial/PolynomialTime.java:25-37 | the array becomes ascending and a rearrangement of itself; an array shorter than two is unchanged |
| PolynomialTime.MatrixMultiplication | src/main/java/org/notations/polynomial/PolynomialTime.java:48-63 | a new A.length by B[0].length matrix whose entry (i, j) is the sum over the first A[0].length columns k of A[i][k] * B[k][j] |
| PolynomialTime.DotIdentity | src/main/java/org/notations/polynomial/PolynomialTime.java:48-63 | the entry sum applied to a matrix and the identity matrix gives back the matrix's own entry, so multiplying by the identity changes nothing |
| PolynomialTime.EvaluatePolynomial | src/main/java/org/notations/polynomial/PolynomialTime.java:74-98 | the sum of coefficients[i] * x^i, each power rebuilt by i multiplications; 0 for no coefficients |
| PolynomialTime.PolySumIsHorner | src/main/java/org/notations/polynomial/PolynomialTime.java:74-98 | the term-by-term sum equals Horner's rule, an independent definition of the polynomial's value |
| ExponentialTime.GenerateSubsetsRecursive | src/main/java/org/notations/exponential/ExponentialTime.java:31-42 | appends to the result list every subset that extends the current choice, in the order of the recursion, and leaves `currentSubset` as it found it |
| ExponentialTime.GenerateSubsets | src/main/java/org/notations/exponential/ExponentialTime.java:25-29 | returns exactly the subsets the recursion emits from index 0 with nothing chosen |
| ExponentialTime.SubsetsCount | src/main/java/org/notations/exponential/ExponentialTime.java:31-42 | 2^(n - index) lists are emitted from an index, so 2^n in all |
| ExponentialTime.SubsetAt | src/main/java/org/notations/exponential/ExponentialTime.java:31-42 | every include/exclude choice for the elements is emitted, at the position given by reading the choice as a binary number (include is 0), as the elements it includes, in their original order |
| ExponentialTime.ChoiceAt | src/main/java/org/notations/exponential/ExponentialTime.java:31-42 | every emitted list is such a choice, the one at its own position, so positions and choices correspond one to one |
| ExponentialTime.SubsetsEnds | src/main/java/org/notations/exponential/ExponentialTime.java:31-42 | the first list emitted is the whole input and the last is the empty list |
| ExponentialTime.PickEmptyIffNone | src/main/java/org/notations/exponential/ExponentialTime.java:31-42 | a choice yields the empty list exactly when it includes nothing |
| ExponentialTime.EmptyOnlyLast | src/main/java/org/notations/exponential/ExponentialTime.java:31-42 | the empty subset appears once only: no list before the last is empty |
| ExponentialTime.PickWithin | src/main/java/org/notations/exponential/ExponentialTime.java:31-42 | every element of an emitted list is an element of the input |
| ExponentialTime.SubsetsDistinct | src/main/java/org/notations/exponential/ExponentialTime.java:31-42 | when the input has no repeated values, no list is emitted twice |
| ExponentialTime.CompletesNone | src/main/java/org/notations/exponential/ExponentialTime.java:67-69 | the base case: a search that has counted every city completes with no further step exactly when a road leads from the current city back to city 0, and then that road's cost is what remains |
| ExponentialTime.Explore | src/main/java/org/notations/exponential/ExponentialTime.java:72-78 | one iteration of the loop over the next city: the marks are restored, and the minimum so far stays attained by some completion and below every completion through the cities tried so far |
| ExponentialTime.TSPRecursive | src/main/java/org/notations/exponential/ExponentialTime.java:66-80 | `visited` ends as it started; the result is at most cost plus the remaining cost of every way to finish the round trip along roads through the unvisited cities; it is `Integer.MAX_VALUE` or the cost of one such finish |
| ExponentialTime.TourIffCompletes | src/main/java/org/notations/exponential/ExponentialTime.java:54-64 | the finishes open to the search started from city 0 are exactly the round trips from city 0 through every city once along positive entries, at the same cost |
| ExponentialTime.SolveTSP | src/main/java/org/notations/exponential/ExponentialTime.java:54-64 | at most the cost of every round trip from city 0 through every city once along positive entries; `Integer.MAX_VALUE` or the cost of one of them; never above `Integer.MAX_VALUE` for two cities or more |
| FactorialTime.GeneratePermutationsRecursive | src/main/java/org/notations/factorial/FactorialTime.java:28-40 | appends every ordering that extends the current prefix, in the order of the recursion, and leaves `current` as it found it |
| FactorialTime.GeneratePermutations | src/main/java/org/notations/factorial/FactorialTime.java:22-26 | returns exactly the orderings the recursion emits from the empty prefix |
| FactorialTime.EachIsRearrangement | src/main/java/org/notations/factorial/FactorialTime.java:28-40 | every emitted list is a rearrangement of the input |
| FactorialTime.RepeatsGiveNothing | src/main/java/org/notations/factorial/FactorialTime.java:33-34 | when the input repeats a value, nothing at all is emitted, because the `contains` test never lets a list reach full length |
| FactorialTime.AllRearrangementsAppear | src/main/java/org/notations/factorial/FactorialTime.java:28-40 | when the input has no repeated values, every rearrangement of it is emitted |
| FactorialTime.PermutationCount | src/main/java/org/notations/factorial/FactorialTime.java:28-40 | when the input has no repeated values, exactly n! lists are emitted and none twice |
| FactorialTime.ArrangementsListed | src/main/java/org/notations/factorial/FactorialTime.java:28-40 | for the input 0..n-1, the emitted lists are exactly the orderings of the n cities |
| FactorialTime.CalculateTourCost | src/main/java/org/notations/factorial/FactorialTime.java:92-99 | the cost of the round trip that visits the path's cities in order and returns to the first |
| FactorialTime.LastAscentFrom | src/main/java/org/notations/factorial/FactorialTime.java:102-105 | the first loop finds the last position i with array[i] < array[i + 1], or a negative value when there is none |
| FactorialTime.LastAboveFrom | src/main/java/org/notations/factorial/FactorialTime.java:109-112 | the second loop finds the last position after i holding a value above array[i] |
| FactorialTime.ReverseFrom | src/main/java/org/notations/factorial/FactorialTime.java:116-124 | the suffix from position lo is reversed in place and the prefix is unchanged |
| FactorialTime.NextPermutation | src/main/java/org/notations/factorial/FactorialTime.java:101-126 | returns true exactly when the old array has an ascent, and then the array becomes the next arrangement; returns false and leaves the array unchanged otherwise |
| FactorialTime.NoNextIffLast | src/main/java/org/notations/factorial/FactorialTime.java:106-108 | there is no next arrangement exactly when the array is non-increasing, the lexicographically greatest arrangement of its values |
| FactorialTime.NextRearranges | src/main/java/org/notations/factorial/FactorialTime.java:113-124 | the next arrangement is a rearrangement of the array |
| FactorialTime.NextIsLater | src/main/java/org/notations/factorial/FactorialTime.java:101-126 | the next arrangement is lexicographically greater than the array |
| FactorialTime.NextIsImmediate | src/main/java/org/notations/factorial/FactorialTime.java:101-126 | every rearrangement greater than the array is at least the next arrangement: nothing lies in between |
| FactorialTime.NothingBetween | src/main/java/org/notations/factorial/FactorialTime.java:101-126 | every rearrangement below the next arrangement is at most the array itself |
| FactorialTime.LaterShrinks | src/main/java/org/notations/factorial/FactorialTime.java:85 | each step of the do-while leaves fewer orderings still to come, so the loop ends |
| FactorialTime.CoverStep | src/main/java/org/notations/factorial/FactorialTime.java:73-85 | after one round of the do-while, the minimum is at most the cost of every ordering up to the next one, or of every ordering when none follows |
| FactorialTime.SolveTSP | src/main/java/org/notations/factorial/FactorialTime.java:55-90 | at most the cost of the round trip through every ordering of the cities; the cost of one of them or `Integer.MAX_VALUE`; never above `Integer.MAX_VALUE` |
| Lex.SortedIsLexLeast | src/main/java/org/notations/factorial/FactorialTime.java:59-63 | an ascending sequence, such as the identity ordering the loop starts from, is lexicographically at most every rearrangement of itself |
| Lex.NonIncreasingIsLexGreatest | src/main/java/org/notations/factorial/FactorialTime.java:106-108 | a non-increasing sequence is lexicographically at least every rearrangement of itself |
| Tours.RotateTour | src/main/java/org/notations/factorial/FactorialTime.java:92-99 | starting a round trip at another of its cities changes neither the entries it reads nor its cost |
| TspAgreement.TourFromArrangement | src/main/java/org/notations/exponential/ExponentialTime.java:54-64 | when all different cities are joined by positive distances, every ordering, rotated to start at city 0, is a round trip the exponential solver considers, at the same cost |
| TspAgreement.SolversAgree | src/main/java/org/notations/factorial/FactorialTime.java:55-90 | when all different cities are joined by positive distances, the results `ExponentialTime.solveTSP` and `FactorialTime.solveTSP` promise are the same number |

## Left out

- `LogarithmicTime.power` works on `double` and is not modelled, because floating point is out of scope.
- `LinearTime.iterateArray` only prints the elements and is not modelled, because output is out of scope.
- The running times that give each class its name are not modelled; only what each method computes is.
- Java's 32-bit `int` overflow is not modelled outside `ConstantSpace.swap`. Sums of costs, matrix entries, polynomial values and `mid = (low + high) / 2` are unbounded integers here, so a result the JVM would wrap around is modelled as its exact value.
- ConstantSpace.Swap: Java passes `int` by value, so the method has no effect a caller can observe and carries no contract. What the three assignments do is stated by `ConstantSpace.XorSwap`.
- `int[][]` matrices and `String` arguments are modelled as immutable `seq` values, because the methods only read them. A `String` is a sequence of UTF-16 code units (`Java.JavaString`), so indices agree with `length()` and `charAt`; the keys and values of the `HashMap` in `getValueFromHashMap` are Dafny strings, which only their equality matters for.
- `null` arrays, and the exception the JVM raises on them, are not modelled: every array argument is non-null.
- ConstantTime.GetValueFromHashMap: the map is a Dafny `map`, whose keys and values are never null. A `HashMap` that stores null under a present key makes `getValueFromHashMap` return null; the model has no such case.
- Empty inputs that make the Java code throw are excluded by `requires`, not modelled as exceptions. This covers `LinearTime.findMax` on an empty array (it reads `array[0]`), `calculateTourCost` on an empty path, the solvers on an empty matrix, and `matrixMultiplication` without a first row. `LinearithmicTime.Partition` likewise requires both indices inside the array, and `LogarithmicTime.Merge` requires `0 <= left <= mid + 1 <= right + 1 <= array.length`.
- PolynomialTime.MatrixMultiplication: requires `Multipliable(A, B)`, which is exactly the condition under which the Java reads no index out of bounds. Besides a matrix without a first row, it excludes non-rectangular or mismatched matrices whenever `B[0]` is non-empty: a row of A shorter than `A[0]`, fewer than `A[0].length` rows in B, or one of those rows of B shorter than `B[0]`. On each of these the JVM throws `ArrayIndexOutOfBoundsException` at `A[i][k]` or `B[k][j]`, and the model does not represent the exception.
- LogarithmicTime.MergeSort: requires `0 <= left` and `right < array.length` whenever `left < right`. Index ranges outside the array, on which the Java throws `ArrayIndexOutOfBoundsException` (for example `mergeSort(array, 0, array.length)` ends in a `merge` that reads `array[array.length]`), are not modelled.
- FactorialTime.SolveTSP and ExponentialTime.SolveTSP require a matrix with an entry for every pair of different cities (entries that no round trip reads, such as the diagonal for two cities or more, may be missing). A ragged or short matrix is therefore not modelled for either solver, although the two react to it differently:
  - `FactorialTime.solveTSP` prices every ordering, so it reads every off-diagonal entry and the JVM rejects such a matrix with an `ArrayIndexOutOfBoundsException`;
  - `ExponentialTime.solveTSP` reads `graph[current][i]` only for cities it has not yet visited, and only the rows of cities its search reaches. It can run to completion on a short matrix: for `[[0,3,0],[3,0,4],[4]]` it reads only `graph[2][0]` from the last row and returns 11.
- `FactorialTime.nextPermutation` is modelled as one method calling three smaller ones, one per loop (`LastAscentFrom`, `LastAboveFrom`, `ReverseFrom`). The control flow and the array updates are the same.
- `ExponentialTime.TSPRecursive`'s loop body is modelled as the separate method `Explore`, with the same branches.
- LinearithmicTime.QuickSortAsWritten: the second recursive call is not modelled, because the first one never returns. The call stack is a `depth` parameter, and running out of it is an outcome rather than an exception.
- `java.util.List` is modelled as the `Java.ArrayList` class, whose contents are a sequence; only the operations the catalogue calls are modelled.
- ExponentialTime.SubsetsDistinct: on an input with repeated values, the same list can be emitted twice, so distinctness is proved only for inputs without repeats.

## Findings

| source | as written | input that shows it | evidently intended | confidence | as-written member | corrected member |
|---|---|---|---|---|---|---|
| src/main/java/org/notations/linearithmic/LinearithmicTime.java:137-144 | `quickSort` partitions and recurses with no base case, so it never returns | `quickSort(array, 0, 0)` on a one-element array recurses into `quickSort(array, 0, -1)`, whose `partition` reads `array[-1]` | return unless `low < high`, the base case the method's own documentation describes at lines 113-115 | not executed | LinearithmicTime.QuickSortAsWritten | LinearithmicTime.QuickSort |
