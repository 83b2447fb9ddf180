# Median of two sorted arrays, and a chain of request handlers

This project is a Dafny model of two pieces of the `design-pattern` repository, with proofs about both.

**`Solution` (template-pattern).** `findMedianSortedArrays(nums1, nums2)` returns the median of two ascending `int` arrays.
- It computes the two central ranks `left = (m + n + 1) / 2` and `right = (m + n + 2) / 2`.
- It selects the element of each rank with `findKth`.
- It averages the two selections.

`findKth(nums1, i, nums2, j, k)` selects the k-th smallest element of `nums1[i..]` and `nums2[j..]` together.
- If one side is exhausted, it answers directly.
- If `k == 1`, it answers with the smaller head.
- Otherwise it probes position `k / 2 - 1` of each side, reading `Integer.MAX_VALUE` past an end. It discards the `k / 2` elements in front of the smaller probe and recurses with `k - k / 2`.

The model has three files:
- `java_int.dfy`: Java's `int` (`JavaInt.Int32`), `Integer.MIN_VALUE` and `Integer.MAX_VALUE`, `Math.min`, the wrap-around of `int` addition, and `int` division by 2, which truncates toward zero.
- `sorted_merge.dfy`: the ascending arrangement `Merged(a, b)` of the elements of two ascending sequences. This is the specification the selection is proved against. `Merge` builds it head by head, and any two ascending arrangements of the same elements are equal. The file also proves the facts that make the halving step sound.
- `median.dfy`: `FindKth` and `FindMedianSortedArrays` themselves, with the proof that they select the k-th element and the median of that arrangement.

Arrays become immutable sequences, so neither operation can modify its inputs. The median is an exact rational (`real`). This loses nothing here: every `int`, and every `int` divided by 2.0, is exactly representable as a Java `double`.

**Chain of responsibility.** `ConcreteHandlerA` and `ConcreteHandlerB` each recognise one request string, `"requestA"` or `"requestB"`. For that string the handler prints `<class name>deal with request <request>` and stops. For any other string it hands the request, unchanged, to its `nextHandler` if it has one. `chain.dfy` models:
- a handler as a `HandlerKind`;
- its successors through `nextHandler` as a sequence of kinds;
- the printed output as the sequence of lines returned.

## Model

| member | source | states |
|---|---|---|
| JavaInt.Min | template-pattern/src/test/java/com/js/Solution.java:74 | `Math.min`: the result is at most each argument and is one of them |
| JavaInt.Half | template-pattern/src/test/java/com/js/Solution.java:64-65 | Java's `x / 2`: twice the quotient differs from `x` by at most 1, toward zero, so the remainder has the sign of `x` |
| JavaInt.Wrap | template-pattern/src/test/java/com/js/Solution.java:66 | Java's `int` result for an exact sum: congruent to it modulo 2^32, and equal to it when the sum lies in the `int` range |
| SortedMerge.MergePermutes | template-pattern/src/test/java/com/js/Solution.java:8-14 | the merged array holds exactly the elements of both inputs (multiset equality) |
| SortedMerge.MergeSorted | template-pattern/src/test/java/com/js/Solution.java:8-14 | merging two ascending arrays head by head gives an ascending array |
| SortedMerge.SortedUnique | template-pattern/src/test/java/com/js/Solution.java:1 | two ascending sequences with the same elements are equal, so "the" merged array of the problem statement is well defined |
| SortedMerge.Merged | template-pattern/src/test/java/com/js/Solution.java:8-14 | the ascending arrangement of the elements of two ascending inputs: ascending, a permutation of both, of the combined length |
| SortedMerge.MergeIsMerged | template-pattern/src/test/java/com/js/Solution.java:8-14 | the head-by-head merge is that arrangement |
| SortedMerge.MergedBaseCases | template-pattern/src/test/java/com/js/Solution.java:71-74 | with one side empty the arrangement is the other side; otherwise it starts with the smaller head |
| SortedMerge.MergedCommutes | template-pattern/src/test/java/com/js/Solution.java:78-81 | the arrangement does not depend on the order of the two arrays, which makes the two branches symmetric |
| SortedMerge.MergedBounded | template-pattern/src/test/java/com/js/Solution.java:38 | element bounds on both inputs hold for every element of the arrangement |
| SortedMerge.DiscardPrefix | template-pattern/src/test/java/com/js/Solution.java:76-79 | if the `h`-th element of `x` is not above the `h`-th of `y` (or `y` is shorter), and `2h <= k`, then dropping the first `h` elements of `x` turns the k-th element into the (k-h)-th |
| SortedMerge.DiscardPrefixOfSecond | template-pattern/src/test/java/com/js/Solution.java:80-81 | the same discard for the first `h` elements of `y` |
| SortedMerge.DiscardPastEnd | template-pattern/src/test/java/com/js/Solution.java:76-81 | the probe into `y` may be past its end while the probe into `x` reads a real `Integer.MAX_VALUE`; the k-th element and the (k-h)-th of `x` are then both `Integer.MAX_VALUE` |
| MedianOfSortedArrays.ProbeSplits | template-pattern/src/test/java/com/js/Solution.java:76-78 | in an ascending array the probe at `idx` is at least every element up to `idx` and at most every element from `idx` on; past the end the sentinel `Integer.MAX_VALUE` bounds every element, so comparing two probes compares whole prefixes |
| MedianOfSortedArrays.KthSmallestInMerged | template-pattern/src/test/java/com/js/Solution.java:70-83 | the reference walk takes the smaller head `k` times; the element it reaches is the k-th of the arrangement |
| MedianOfSortedArrays.DirectCases | template-pattern/src/test/java/com/js/Solution.java:71-74 | with `nums1` exhausted the k-th element is `nums2[j + k - 1]`, with `nums2` exhausted `nums1[i + k - 1]`, and for `k == 1` the smaller head |
| MedianOfSortedArrays.FindKth | template-pattern/src/test/java/com/js/Solution.java:70-83 | for ascending arrays and `1 <= k <=` the number of remaining elements, the result is the k-th smallest element of `nums1[i..]` and `nums2[j..]` together; every array access is in bounds, and the recursion ends as `k` strictly decreases |
| MedianOfSortedArrays.ProbesNotBothPastEnd | template-pattern/src/test/java/com/js/Solution.java:76-77 | when both sides are non-empty and `k` is within the remaining count, at most one probe falls past its end |
| MedianOfSortedArrays.DropFromA | template-pattern/src/test/java/com/js/Solution.java:76-79 | when the probe into `nums1` is the smaller, it is a real element; advancing `i` by `k / 2` and taking `k - k / 2` keeps the answer and the precondition |
| MedianOfSortedArrays.DropWithinA | template-pattern/src/test/java/com/js/Solution.java:78-79 | once the probe into `nums1` reads a real element below the probe into `nums2`, dropping `k / 2` elements of `nums1` lowers the remaining count by exactly `k / 2` and turns the k-th element into the (k - k/2)-th |
| MedianOfSortedArrays.DropFromB | template-pattern/src/test/java/com/js/Solution.java:76-81 | otherwise advancing `j` by `k / 2` and taking `k - k / 2` keeps the answer and the precondition, including the case where `j` passes the end of `nums2` |
| MedianOfSortedArrays.DropWithinB | template-pattern/src/test/java/com/js/Solution.java:80-81 | when the probe into `nums2` reads a real element not above the probe into `nums1`, dropping `k / 2` elements of `nums2` turns the k-th element into the (k - k/2)-th |
| MedianOfSortedArrays.DropPastEndOfB | template-pattern/src/test/java/com/js/Solution.java:76-81 | when the probe into `nums2` is past its end and the probe into `nums1` reads a real `Integer.MAX_VALUE`, `nums1` alone still holds `k - k / 2` elements, and dropping all of `nums2` keeps the answer |
| MedianOfSortedArrays.FindKthIsWalk | template-pattern/src/test/java/com/js/Solution.java:70-83 | `findKth` agrees with the head-by-head reference walk |
| MedianOfSortedArrays.FindKthIsKthSmallest | template-pattern/src/test/java/com/js/Solution.java:70-83 | the result is the k-th element of every ascending arrangement of the remaining elements |
| MedianOfSortedArrays.FindKthFromStart | template-pattern/src/test/java/com/js/Solution.java:66 | `findKth(nums1, 0, nums2, 0, k)` is the k-th element of the merged array |
| MedianOfSortedArrays.LeftRank | template-pattern/src/test/java/com/js/Solution.java:64 | `left` lies in `1..m+n`: the middle rank for an odd total, the lower middle rank for an even one |
| MedianOfSortedArrays.RightRank | template-pattern/src/test/java/com/js/Solution.java:65 | `right` lies in `left..m+n`: equal to `left` for an odd total, `left + 1` for an even one |
| MedianOfSortedArrays.MedianAtRanks | template-pattern/src/test/java/com/js/Solution.java:64-66 | averaging the elements at ranks `left` and `right` gives the median |
| MedianOfSortedArrays.FindMedianSortedArrays | template-pattern/src/test/java/com/js/Solution.java:61-67 | for ascending arrays with `m + n >= 1`, the result is the median of the merged array |
| MedianOfSortedArrays.MedianOfAnyArrangement | template-pattern/src/test/java/com/js/Solution.java:61-67 | the result is the median of every ascending arrangement of the combined elements |
| MedianOfSortedArrays.MedianOfMerge | template-pattern/src/test/java/com/js/Solution.java:6-14 | the result is the median of the array that the head-by-head merge builds |
| MedianOfSortedArrays.ExampleOddTotal | template-pattern/src/test/java/com/js/Solution.java:6-8 | `[1,3]`, `[2]` gives 2.0 |
| MedianOfSortedArrays.ExampleEvenTotal | template-pattern/src/test/java/com/js/Solution.java:12-14 | `[1,2]`, `[3,4]` gives 2.5 |
| MedianOfSortedArrays.ExampleAllEqual | template-pattern/src/test/java/com/js/Solution.java:18-19 | `[0,0]`, `[0,0]` gives 0.0 |
| MedianOfSortedArrays.ExampleFirstEmpty | template-pattern/src/test/java/com/js/Solution.java:23-24 | `[]`, `[1]` gives 1.0 |
| MedianOfSortedArrays.ExampleSecondEmpty | template-pattern/src/test/java/com/js/Solution.java:28-29 | `[2]`, `[]` gives 2.0 |
| MedianOfSortedArrays.RankArithmetic | template-pattern/src/test/java/com/js/Solution.java:64-65 | for two Java array lengths, the `int` ranks `(m + n + 1) / 2` and `(m + n + 2) / 2` equal the exact ones when `m + n <= 2^31 - 3`; from `2^31 - 2` on, `m + n + 2` wraps and the upper rank is not positive |
| MedianOfSortedArrays.RankOverflowExample | template-pattern/src/test/java/com/js/Solution.java:64-65 | for two arrays of `2^30 - 1` elements each, `left` is still `2^30 - 1` but `right` wraps to `-2^30` |
| MedianOfSortedArrays.SumAtRanksAsWritten | template-pattern/src/test/java/com/js/Solution.java:66 | the return statement adds the two selections with `int` addition, so twice its result always lies in the `int` range |
| MedianOfSortedArrays.FindMedianAsWritten | template-pattern/src/test/java/com/js/Solution.java:61-66 | the method as written, with `int` ranks and `int` sum: it throws `ArrayIndexOutOfBoundsException` exactly when `m + n >= 2^31 - 2`; otherwise twice its result lies in the `int` range |
| MedianOfSortedArrays.AsWrittenAtRanks | template-pattern/src/test/java/com/js/Solution.java:64-66 | below `2^31 - 2` elements in all, the method as written reaches its return statement with the exact central ranks |
| MedianOfSortedArrays.SelectedInRange | template-pattern/src/test/java/com/js/Solution.java:38 | for inputs within ±10^6, every element `findKth` selects is within ±10^6 |
| MedianOfSortedArrays.CentralSumInRange | template-pattern/src/test/java/com/js/Solution.java:66 | for inputs within ±10^6, the two selections that line 66 adds have a sum inside the `int` range |
| MedianOfSortedArrays.SumExactInRange | template-pattern/src/test/java/com/js/Solution.java:66 | when the two selections add up without wrapping, the return statement is their exact average |
| MedianOfSortedArrays.AsWrittenExactInRange | template-pattern/src/test/java/com/js/Solution.java:61-66 | for fewer than `2^31 - 2` elements in all, each within ±10^6, neither the rank arithmetic nor the sum wraps, and the method as written returns the exact median |
| MedianOfSortedArrays.SumOverflowExample | template-pattern/src/test/java/com/js/Solution.java:66 | for `[2147483647]`, `[2147483647]` the code as written returns -1.0, while the median is 2147483647 |
| ChainOfResponsibility.HandleRequest | chain-responsibility-pattern/src/main/java/com/js/handler/impl/ConcreteHandlerA.java:7-15 | `handleRequest` of both handler classes, this file and ConcreteHandlerB.java:7-15, which differs only in its key and class name: a request produces at most one printed line, and none exactly when no handler of the chain recognises it |
| ChainOfResponsibility.FirstMatch | chain-responsibility-pattern/src/main/java/com/js/handler/impl/ConcreteHandlerB.java:7-15 | the specification that the code of both handlers (`HandleRequest`) is proved against, in `HandledByFirstMatch`: the position of the first handler whose key is the request, with no earlier one matching; none when no handler matches |
| ChainOfResponsibility.HandledByFirstMatch | chain-responsibility-pattern/src/main/java/com/js/handler/impl/ConcreteHandlerA.java:8-14 | the request is handled by the first handler whose key it is and by no other; the printed line names that handler and carries the request unchanged; with no match nothing is printed |
| ChainOfResponsibility.HandlingStops | chain-responsibility-pattern/src/main/java/com/js/handler/impl/ConcreteHandlerA.java:8-10 | a handler that recognises the request prints its line and stops: its successors make no difference |
| ChainOfResponsibility.NonMatchingPrefixForwards | chain-responsibility-pattern/src/main/java/com/js/handler/impl/ConcreteHandlerB.java:12-14 | handlers that do not recognise the request forward it unchanged; a run of them in front of a chain does not change the output |
| ChainOfResponsibility.KeysDistinct | chain-responsibility-pattern/src/main/java/com/js/handler/impl/ConcreteHandlerB.java:8 | the two handlers recognise different requests |
| ChainOfResponsibility.LineOfA | chain-responsibility-pattern/src/main/java/com/js/handler/impl/ConcreteHandlerA.java:9 | `ConcreteHandlerA` prints `ConcreteHandlerAdeal with request requestA`, with no space after the class name |
| ChainOfResponsibility.LineOfB | chain-responsibility-pattern/src/main/java/com/js/handler/impl/ConcreteHandlerB.java:9 | `ConcreteHandlerB` prints `ConcreteHandlerBdeal with request requestB` |
| ChainOfResponsibility.ChainAThenBHandlesA | chain-responsibility-pattern/src/main/java/com/js/handler/impl/ConcreteHandlerA.java:8-10 | in the chain A -> B, `"requestA"` is handled by A alone |
| ChainOfResponsibility.ChainAThenBHandlesB | chain-responsibility-pattern/src/main/java/com/js/handler/impl/ConcreteHandlerB.java:8-10 | in the chain A -> B, `"requestB"` passes A unchanged and is handled by B |
| ChainOfResponsibility.ChainAThenBDropsOthers | chain-responsibility-pattern/src/main/java/com/js/handler/impl/ConcreteHandlerB.java:12-14 | in the chain A -> B, any other request is handled by no one and prints nothing |

## Left out

- `Solution.main` (Solution.java:48-52) only calls the method once; it is not modelled.
- Console output: `System.out.println` in the handlers is modelled as the returned sequence of lines.
- The abstract `Handler` base class is not part of this model. Neither is the way `nextHandler` is set. A chain is modelled as a finite sequence, so a `nextHandler` cycle cannot be expressed; such a cycle would make a non-matching request recurse forever.
- A `null` request is not modelled. `"requestA".equals(null)` is false, so such a request would be forwarded and finally dropped, like any other unrecognised string.
- `FindKth`: its index arithmetic (`i + k / 2`, `j + k - 1`) uses unbounded integers. On the calls `findMedianSortedArrays` makes, `k` never exceeds the elements remaining, so every index stays at most `m + n`. That is below `Integer.MAX_VALUE` whenever the ranks themselves do not wrap, and the wrapping ranks are modelled in `FindMedianAsWritten`. This bound is argued here, not proved.
- `FindMedianAsWritten` requires each length to be at most `Integer.MAX_VALUE`, because a Java array cannot be longer.
- No operation checks or requires the element range: `FindKth`, `FindMedianSortedArrays` and `FindMedianAsWritten` accept any `int` elements. Only `AsWrittenExactInRange` and its helpers assume the documented bound ±10^6 (`InDocumentedRange`). Solution.java:38 prints this bound as `-106 <= ... <= 106` because the exponent was lost; `AsWrittenExactInRange` holds under either reading.
- The documented length bounds (Solution.java:35-37) are not required, except `m + n >= 1`: without it the code reads `nums2[-1]`.
- `FindKth` and `FindMedianSortedArrays` require ascending inputs, as the problem statement (Solution.java:1) demands. On other inputs the code returns some element, and the model says nothing about which.
- The order-lifecycle state machine (state-machine-pattern) is not part of this model. Its order service and transition table are not among the available source files, and what is available is application start-up and a racing thread.
- Also not part of this model: the decorator, bridge and access-mode files. They print fixed text or hold random data, with no logic to state.

## Findings

| source | as written | input that shows it | evidently intended | confidence | as-written member | corrected member |
|---|---|---|---|---|---|---|
| template-pattern/src/test/java/com/js/Solution.java:66 | the two selected `int`s are added with `int` addition before the division by 2.0, so the sum wraps around for large elements | `nums1 = [2147483647]`, `nums2 = [2147483647]`: the result is -1.0 | the median, 2147483647.0, from adding the two values exactly (for example as `long` or `double`) | not executed; the input lies outside the documented element range (Solution.java:38) | MedianOfSortedArrays.FindMedianAsWritten, MedianOfSortedArrays.SumOverflowExample | MedianOfSortedArrays.FindMedianSortedArrays, MedianOfSortedArrays.AsWrittenExactInRange |
| template-pattern/src/test/java/com/js/Solution.java:64-65 | the ranks `m + n + 1` and `m + n + 2` are computed with `int` addition, so from `m + n = 2^31 - 2` on, `right` (and later `left`) wraps to a non-positive number, and `findKth` reads a negative index and throws `ArrayIndexOutOfBoundsException` | two arrays of `2^30 - 1` elements each: `left = 2^30 - 1`, `right = -2^30` | the median, from ranks computed without wrapping, for example in `long` | not executed; the input lies far outside the documented length bound `m + n <= 2000` (Solution.java:37) | MedianOfSortedArrays.FindMedianAsWritten, MedianOfSortedArrays.RankOverflowExample | MedianOfSortedArrays.FindMedianSortedArrays, MedianOfSortedArrays.MedianOfAnyArrangement |
