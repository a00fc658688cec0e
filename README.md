# Sorting demo, modelled in Dafny

The repository has two programs. Each one sorts a vector of ints in place, in two designs:

- `SortStrategy.cpp` uses a strategy hierarchy (merge sort, Lomuto quick sort and bubble sort). It has a container `Sort` that owns the vector and runs the strategy it was built with.
- `Sort.cpp` uses free functions (`merge`, `mergeSort`, `bubbleSort`). It has a container `Sort` that owns the vector and applies the `std::function` it was built with.

The model keeps the programs' in-place form. Vectors are `array<int>`, the algorithms are methods with loop invariants, and both containers are classes. Each method is proved against a specification stated on sequences. That specification has four parts:

- `Sorted` means non-descending order.
- `multiset` equality means the output is a rearrangement of the input.
- `Merged` is the exact sequence a two-way merge writes. It takes the right front on ties, because the comparison is a strict `<`.
- `MergeStrategyResult` is what the strategy program's merge sort actually leaves behind.

Modules:

- `Sorting` (sorting.dfy) holds the shared specification: `Sorted`, `Merged`, and the facts about merges and permutations.
- `Merging` (merging.dfy) holds the three write-back loops of a merge. Both programs use them.
- `Bubble` (bubble.dfy) holds the bubble sort. Both programs define it with the same code (`SortStrategy.cpp:108-116` and `Sort.cpp:78-86`).
- `SortStrategy` (sort_strategy.dfy) models `SortStrategy.cpp`.
- `FunctionSort` (function_sort.dfy) models `Sort.cpp`.

The strategy program's merge sort is modelled as the code behaves. It sorts copies of the two halves and then drops them. It then merges the vector's own, unsorted, halves. The result is always a permutation of the input. It is sorted exactly when both original halves were already sorted (see Findings). The strategy container `SortStrategy.Sort` keeps this behaviour, as the program does.

A textbook merge sort takes the left element on ties and sorts. This code takes the right element on ties, and the strategy's merge sort does not sort in general. The model follows the code.

## Model

| member | source | states |
|---|---|---|
| Sorting.MergedTakesRight | SortStrategy.cpp:34-41 | when the fronts are equal, or the left side is used up, the merge writes the right front next |
| Sorting.MergedPermutation | Sort.cpp:35-62 | a merge writes exactly the elements of both sides: its length is the sum of their lengths, and its multiset is their union |
| Sorting.MergedSortedIff | SortStrategy.cpp:26-56 | the merge of two sequences is sorted if and only if both sequences are sorted |
| Merging.MergeFronts | SortStrategy.cpp:30-43 | the first loop writes a prefix of the merge at the cursor, stops with one side used up, and touches nothing outside the written cells |
| Merging.CopyRest | SortStrategy.cpp:45-55 | a trailing loop appends the rest of one side after what was already written, and touches nothing else |
| Merging.CopyOf | SortStrategy.cpp:64-65 | copying a range into a new vector gives a fresh array with the same contents |
| Merging.MergeInto | Sort.cpp:36-61 | the three loops write exactly `Merged(left, right)` into the target range, and leave every other cell unchanged |
| SortStrategy.MergeRange | SortStrategy.cpp:26-56 | `merge(start, mid, end)` replaces `[start, end)` with the merge of its old halves `[start, mid)` and `[mid, end)`; cells outside the range are unchanged |
| SortStrategy.MergeSort | SortStrategy.cpp:59-70 | as written: the vector becomes the merge of its original halves (the lower half has `n / 2` elements), and a vector of size at most 1 is unchanged; the result is a permutation |
| SortStrategy.MergeStrategyPermutation | SortStrategy.cpp:59-70 | the merge strategy's result is always a rearrangement of its input |
| SortStrategy.MergeStrategySortedIff | SortStrategy.cpp:62-69 | the merge strategy's result is sorted if and only if the input has at most one element or both original halves are sorted |
| SortStrategy.MergeStrategySortsShortInputs | SortStrategy.cpp:60-69 | inputs of at most two elements do come out sorted |
| SortStrategy.MergeStrategyCounterexample | SortStrategy.cpp:64-69 | `[3, 2, 1]` comes out as `[2, 1, 3]`, which is not sorted |
| SortStrategy.MergeStrategyFiveElements | SortStrategy.cpp:64-69 | `[5, 3, 1, 4, 2]` comes out as `[1, 4, 2, 5, 3]` |
| SortStrategy.MergeStrategyTieOrder | SortStrategy.cpp:34-41 | on the unsorted halves `[1, 5]` and `[1, 0]` the right `1` is written first, so `[1, 5, 1, 0]` comes out as `[1, 0, 1, 5]` |
| SortStrategy.MergeStrategyNotIdempotent | SortStrategy.cpp:59-70 | running the merge strategy twice differs from running it once: `[3, 2, 1]` gives `[2, 1, 3]`, and a second run gives `[1, 2, 3]` |
| SortStrategy.MergeStrategyKeepsSorted | SortStrategy.cpp:59-70 | an already sorted input is left unchanged by the merge strategy |
| SortStrategy.MergeSortFixed | SortStrategy.cpp:59-70 | corrected merge strategy: it stores the sorted copies back before merging, and then yields a sorted permutation; a sorted input is unchanged |
| SortStrategy.SortedHalvesMerge | SortStrategy.cpp:67-69 | merging sorted rearrangements of the two halves gives a sorted rearrangement of the whole |
| SortStrategy.Partition | SortStrategy.cpp:76-88 | returns `p` in `[start, end)` holding the old last element (the pivot); everything in `[start, p)` is at most the pivot and everything in `(p, end)` is greater; the range's multiset is unchanged and nothing outside the range changes |
| SortStrategy.SwapInRange | SortStrategy.cpp:83 | `iter_swap` exchanges two cells of the range, keeps the range's multiset and changes nothing else |
| SortStrategy.QuickSortRange | SortStrategy.cpp:95-102 | `[start, end)` ends sorted and is a permutation of its old contents; nothing outside it changes; the recursion terminates because both subranges exclude `p` |
| SortStrategy.QuickCombine | SortStrategy.cpp:96-101 | sorting the two sides of a partitioned range in place, one after the other, leaves the whole range sorted and a permutation of it |
| SortStrategy.QuickSort | SortStrategy.cpp:91-93 | any vector, the empty one included, becomes a sorted permutation of itself; a sorted input is unchanged |
| SortStrategy.Sort.constructor | SortStrategy.cpp:126-127 | the container owns a fresh vector with the given contents and keeps the given strategy |
| SortStrategy.Sort.Sort | SortStrategy.cpp:129-131 | only the owned vector changes, and it stays a permutation; the quick and bubble strategies sort it; the merge strategy leaves `MergeStrategyResult` of its old contents |
| SortStrategy.Sort.Print | SortStrategy.cpp:133-138 | printing reads the vector in order and does not modify it |
| Bubble.SwapKeepsStable | Sort.cpp:81-83 | swapping two unequal neighbours keeps equal values in their input order |
| Bubble.CompareSwap | SortStrategy.cpp:111-113 | afterwards the larger of the two neighbours is at `j + 1`; equal or ordered neighbours are never swapped; the multiset is kept |
| Bubble.BubblePass | SortStrategy.cpp:110-114 | an inner pass carries the largest element of the unsorted prefix to its last position and leaves the sorted suffix alone |
| Bubble.BubbleSort | SortStrategy.cpp:108-116 | yields a sorted permutation, and a sorted input is returned unchanged; after outer pass `i` the last `i` positions hold the largest elements in final order |
| FunctionSort.Merge | Sort.cpp:35-62 | with `vec.size() == left.size() + right.size()`, `vec` becomes `Merged(left, right)`, holds exactly `left` plus `right` as a multiset, and is sorted when both inputs are sorted |
| FunctionSort.MergeSort | Sort.cpp:65-75 | splits at `n / 2` and merges the recursively sorted copies; the result is a sorted permutation, and a sorted input (including every vector of size at most 1) is unchanged |
| FunctionSort.Sort.constructor | Sort.cpp:14-15 | the container owns a fresh vector with the given contents and keeps the given sort function |
| FunctionSort.Sort.Sort | Sort.cpp:17-19 | applies the sort function once to the owned vector, which becomes a sorted permutation of its old contents; nothing else changes |
| FunctionSort.Sort.Print | Sort.cpp:26-31 | printing reads the vector in order and does not modify it |

## Findings

| source | as written | input that shows it | evidently intended | confidence | as-written member | corrected member |
|---|---|---|---|---|---|---|
| SortStrategy.cpp:64-69 | sorts the copies `left` and `right`, drops them, and merges the original unsorted halves of `vec` | `[3, 2, 1]` gives `[2, 1, 3]` | merge the sorted halves, giving a sorted permutation | high; not executed | SortStrategy.MergeStrategyCounterexample | SortStrategy.MergeSortFixed |

## Left out

- Wall-clock timing (`std::chrono`, the `double` duration) and the "Time to sort" output are left out: they need a clock and floating point.
- Console output of `print()` is left out. The model returns the printed values in order instead.
- Random input generation and both `main` functions are left out. This includes the string case that `Sort.cpp` only mentions in a comment.
- Virtual dispatch through `std::unique_ptr<SortStrategy>` and the `std::function` member are modelled as a tag datatype matched in `Sort()`: `Strategy` for the first, `SortFunction` for the second.
- The element type is fixed to `int`, the type both programs instantiate. The templates over any `<`-comparable type are not modelled generically.
- Sorting.MergedTakesRight: the tie order is stated on ints only, not over keyed records. So the claim that neither merge sort is left-biased stable is not proved. When both sides are sorted, as in `Sort.cpp`'s merge sort and in `MergeSortFixed`, the merge's output on ints does not depend on the tie order. When the sides are unsorted, as in the strategy program's merge sort, it does depend on it. `SortStrategy.MergeStrategyTieOrder` shows `[1, 5, 1, 0]` coming out as `[1, 0, 1, 5]`. A merge that takes the left element on ties would give `[1, 1, 0, 5]` for the same halves. That comparison is worked by hand and not proved, since the model defines no left-biased merge.
- Bubble.BubbleSort: the ghost witness `StableRearrangement` is stated on ints. There, every permutation has such a witness, so the witness adds nothing to the multiset postcondition. It does not rule out an unstable sort. The source's stability (equal neighbours are never swapped) is stated only by `Bubble.CompareSwap`, which leaves ordered or equal neighbours in place.
- `size_t` wrap-around in `vec.size() - i - 1` is not modelled. It cannot occur, because the outer loop keeps `i < size()`.
- Forming the iterator `start - 1` before `begin()` in `partition` is modelled as an `int` index that may equal `start - 1`.
- Move semantics (`std::move`) have no observable effect on ints and are not modelled.
- SortStrategy.Sort.Sort: with the merge strategy the container keeps the source's as-written behaviour. So for that strategy it does not promise a sorted result, unlike the other strategies.
