/**
 The strategy-object program: three sort strategies that work in place on
 a vector of ints, and a container that owns the vector and runs the
 strategy it was built with. The merge strategy is modelled as written:
 it sorts copies of the two halves, throws them away, and merges the
 original halves.
 */
module SortStrategy {
  import opened Sorting
  import opened Merging
  import Bubble

  // ---------------------------------------------------------------------
  // Merge sort

  /**
   Merges `a[start..mid]` and `a[mid..end]` into `a[start..end]`: both
   halves are first copied, then written back through one cursor in three
   loops (both sides left, only the left side left, only the right side
   left).
   */
  method MergeRange(a: array<int>, start: int, mid: int, end: int)
    requires 0 <= start <= mid <= end <= a.Length
    modifies a
    ensures a[start..end] == Merged(old(a[start..mid]), old(a[mid..end]))
    ensures forall k :: 0 <= k < a.Length && !(start <= k < end) ==> a[k] == old(a[k])
  {
    var left := a[start..mid];
    var right := a[mid..end];
    MergeInto(a, start, left, right);
  }

  /** What the merge strategy leaves in a vector `s`: the merge of its unsorted halves. */
  function MergeStrategyResult(s: seq<int>): seq<int> {
    if |s| <= 1 then s else Merged(s[..|s| / 2], s[|s| / 2..])
  }

  /**
   The merge strategy as written: the recursive sorts act on copies that
   are then dropped, so the vector ends up as the merge of its original
   halves (the lower half holding `n / 2` elements, rounded down).
   */
  method MergeSort(vec: array<int>)
    modifies vec
    ensures vec[..] == MergeStrategyResult(old(vec[..]))
    ensures multiset(vec[..]) == multiset(old(vec[..]))
    decreases vec.Length
  {
    if vec.Length <= 1 {
      return;
    }
    ghost var orig := vec[..];
    var mid := vec.Length / 2;
    var left := CopyOf(vec[..mid]);
    var right := CopyOf(vec[mid..]);
    MergeSort(left);
    MergeSort(right);
    assert vec[..] == orig;
    MergeRange(vec, 0, left.Length, vec.Length);
    assert vec[..] == vec[0..vec.Length];
    assert orig[..mid] == orig[0..mid] && orig[mid..] == orig[mid..vec.Length];
    MergeStrategyPermutation(orig);
  }

  /** The merge strategy's result is always a rearrangement of its input. */
  lemma MergeStrategyPermutation(s: seq<int>)
    ensures multiset(MergeStrategyResult(s)) == multiset(s)
  {
    if |s| > 1 {
      MergedPermutation(s[..|s| / 2], s[|s| / 2..]);
      assert s == s[..|s| / 2] + s[|s| / 2..];
    }
  }

  /**
   The merge strategy sorts its input exactly when the input is short
   (at most one element) or both original halves were already sorted.
   */
  lemma MergeStrategySortedIff(s: seq<int>)
    ensures Sorted(MergeStrategyResult(s)) <==>
      |s| <= 1 || (Sorted(s[..|s| / 2]) && Sorted(s[|s| / 2..]))
  {
    if |s| > 1 {
      MergedSortedIff(s[..|s| / 2], s[|s| / 2..]);
    }
  }

  /** Inputs of at most two elements have halves of at most one element, so they come out sorted. */
  lemma MergeStrategySortsShortInputs(s: seq<int>)
    requires |s| <= 2
    ensures Sorted(MergeStrategyResult(s))
  {
    MergeStrategySortedIff(s);
  }

  /** `[3, 2, 1]` comes out as `[2, 1, 3]`: the halves `[3]` and `[2, 1]` are merged unsorted. */
  lemma MergeStrategyCounterexample()
    ensures MergeStrategyResult([3, 2, 1]) == [2, 1, 3]
    ensures !Sorted(MergeStrategyResult([3, 2, 1]))
  {
    var s := [3, 2, 1];
    assert s[..1] == [3] && s[1..] == [2, 1];
    assert Merged([3], [2, 1]) == [2] + Merged([3], [1]);
    assert Merged([3], [1]) == [1] + Merged([3], []);
    var r := MergeStrategyResult(s);
    assert r[0] == 2 && r[1] == 1;
  }

  /** `[5, 3, 1, 4, 2]` comes out as `[1, 4, 2, 5, 3]`, not sorted. */
  lemma MergeStrategyFiveElements()
    ensures MergeStrategyResult([5, 3, 1, 4, 2]) == [1, 4, 2, 5, 3]
  {
    var s := [5, 3, 1, 4, 2];
    assert s[..2] == [5, 3] && s[2..] == [1, 4, 2];
    assert Merged([5, 3], [1, 4, 2]) == [1] + Merged([5, 3], [4, 2]);
    assert Merged([5, 3], [4, 2]) == [4] + Merged([5, 3], [2]);
    assert Merged([5, 3], [2]) == [2] + Merged([5, 3], []);
  }

  /**
   On unsorted halves the tie order shows: `[1, 5, 1, 0]` comes out as
   `[1, 0, 1, 5]` because the right `1` is written before the left one and
   the `0` behind it follows at once; taking the left `1` first would give
   `[1, 1, 0, 5]`.
   */
  lemma MergeStrategyTieOrder()
    ensures MergeStrategyResult([1, 5, 1, 0]) == [1, 0, 1, 5]
  {
    var s := [1, 5, 1, 0];
    assert s[..2] == [1, 5] && s[2..] == [1, 0];
    assert Merged([1, 5], [1, 0]) == [1] + Merged([1, 5], [0]);
    assert Merged([1, 5], [0]) == [0] + Merged([1, 5], []);
  }

  /**
   Running the merge strategy twice differs from running it once: `[3, 2, 1]`
   gives `[2, 1, 3]`, whose halves `[2]` and `[1, 3]` are sorted, so a second
   run gives `[1, 2, 3]`.
   */
  lemma MergeStrategyNotIdempotent()
    ensures MergeStrategyResult(MergeStrategyResult([3, 2, 1])) == [1, 2, 3]
  {
    MergeStrategyCounterexample();
    var s := [2, 1, 3];
    assert s[..1] == [2] && s[1..] == [1, 3];
    assert Merged([2], [1, 3]) == [1] + Merged([2], [3]);
    assert Merged([2], [3]) == [2] + Merged([], [3]);
  }

  /** An already sorted input has sorted halves, so the merge strategy leaves it unchanged. */
  lemma MergeStrategyKeepsSorted(s: seq<int>)
    requires Sorted(s)
    ensures MergeStrategyResult(s) == s
  {
    if |s| > 1 {
      MergeStrategySortedIff(s);
      MergeStrategyPermutation(s);
      SortedUnique(MergeStrategyResult(s), s);
    }
  }

  /**
   The merge strategy as evidently intended: the sorted copies of the
   halves are put back into the vector before the halves are merged.
   */
  method MergeSortFixed(vec: array<int>)
    modifies vec
    ensures Sorted(vec[..])
    ensures multiset(vec[..]) == multiset(old(vec[..]))
    ensures Sorted(old(vec[..])) ==> vec[..] == old(vec[..])
    decreases vec.Length
  {
    if vec.Length <= 1 {
      return;
    }
    ghost var orig := vec[..];
    var n, mid := vec.Length, vec.Length / 2;
    var left := CopyOf(vec[..mid]);
    var right := CopyOf(vec[mid..]);
    MergeSortFixed(left);
    MergeSortFixed(right);
    ghost var sortedLeft, sortedRight := left[..], right[..];
    Store(vec, left[..] + right[..]);
    assert vec[0..mid] == sortedLeft && vec[mid..n] == sortedRight;
    MergeRange(vec, 0, mid, n);
    assert vec[..] == vec[0..n];
    SortedHalvesMerge(orig, mid, sortedLeft, sortedRight);
    if Sorted(orig) {
      SortedUnique(vec[..], orig);
    }
  }

  /** Overwrites all of `vec` with `s`, as copying the sorted halves back does. */
  method Store(vec: array<int>, s: seq<int>)
    requires |s| == vec.Length
    modifies vec
    ensures vec[..] == s
  {
    forall k | 0 <= k < vec.Length {
      vec[k] := s[k];
    }
  }

  /** Merging sorted rearrangements of the two halves of `s` sorts `s`. */
  lemma SortedHalvesMerge(s: seq<int>, mid: int, left: seq<int>, right: seq<int>)
    requires 0 <= mid <= |s|
    requires Sorted(left) && multiset(left) == multiset(s[..mid])
    requires Sorted(right) && multiset(right) == multiset(s[mid..])
    ensures Sorted(Merged(left, right))
    ensures multiset(Merged(left, right)) == multiset(s)
  {
    MergedSortedIff(left, right);
    MergedPermutation(left, right);
    assert s == s[..mid] + s[mid..];
  }

  // ---------------------------------------------------------------------
  // Quick sort

  /**
   Lomuto partition of `a[start..end]` around its last element: every
   element not above the pivot is swapped into a growing left part, and
   the index returned holds the pivot, with nothing above it to its left
   and only greater elements to its right.
   */
  method Partition(a: array<int>, start: int, end: int) returns (p: int)
    requires 0 <= start < end <= a.Length
    modifies a
    ensures start <= p < end
    ensures a[p] == old(a[end - 1])
    ensures forall k :: start <= k < p ==> a[k] <= a[p]
    ensures forall k :: p < k < end ==> a[k] > a[p]
    ensures multiset(a[start..end]) == multiset(old(a[start..end]))
    ensures forall k :: 0 <= k < a.Length && !(start <= k < end) ==> a[k] == old(a[k])
  {
    var pivot := a[end - 1];
    // `i` is one before the first element of the part above the pivot; it starts before `start`
    var i := start - 1;
    for j := start to end
      invariant start - 1 <= i < j
      invariant forall k :: start <= k <= i ==> a[k] <= pivot
      invariant forall k :: i < k < j ==> a[k] > pivot
      invariant j < end ==> a[end - 1] == pivot
      invariant j == end ==> start <= i && a[i] == pivot
      invariant multiset(a[start..end]) == multiset(old(a[start..end]))
      invariant forall k :: 0 <= k < a.Length && !(start <= k < end) ==> a[k] == old(a[k])
    {
      if a[j] <= pivot {
        i := i + 1;
        SwapInRange(a, start, end, i, j);
      }
    }
    p := i;
  }

  /** Swaps `a[i]` and `a[j]` inside `a[start..end]`, as `std::iter_swap` does. */
  method SwapInRange(a: array<int>, start: int, end: int, i: int, j: int)
    requires 0 <= start <= i <= j < end <= a.Length
    modifies a
    ensures a[i] == old(a[j]) && a[j] == old(a[i])
    ensures forall k :: 0 <= k < a.Length && k != i && k != j ==> a[k] == old(a[k])
    ensures multiset(a[start..end]) == multiset(old(a[start..end]))
  {
    ghost var before := a[start..end];
    a[i], a[j] := a[j], a[i];
    assert a[start..end] == before[i - start := before[j - start]][j - start := before[i - start]];
  }

  /**
   Sorts `a[start..end]` in place: partitions it and sorts the parts on
   either side of the pivot, both of which exclude the pivot's position.
   */
  method QuickSortRange(a: array<int>, start: int, end: int)
    requires 0 <= start <= end <= a.Length
    modifies a
    ensures Sorted(a[start..end])
    ensures multiset(a[start..end]) == multiset(old(a[start..end]))
    ensures a[..start] == old(a[..start]) && a[end..] == old(a[end..])
    decreases end - start
  {
    if start < end {
      ghost var before := a[..];
      var p := Partition(a, start, end);
      ghost var parted := a[..];
      assert parted[..start] == before[..start] && parted[end..] == before[end..];
      QuickSortRange(a, start, p);
      ghost var lowerDone := a[..];
      QuickSortRange(a, p + 1, end);
      QuickCombine(parted, lowerDone, a[..], start, p, end);
      assert a[..start] == a[..][..start] && a[end..] == a[..][end..];
    }
  }

  /**
   The parts on either side of a partition's pivot, each sorted in place
   one after the other, make the whole range a sorted rearrangement of the
   partitioned range. `parted`, `lowerDone` and `done` are the array after
   the partition, after sorting the lower part and after sorting the upper part.
   */
  lemma QuickCombine(parted: seq<int>, lowerDone: seq<int>, done: seq<int>, start: int, p: int, end: int)
    requires 0 <= start <= p < end <= |parted| == |lowerDone| == |done|
    requires forall k :: start <= k < p ==> parted[k] <= parted[p]
    requires forall k :: p < k < end ==> parted[k] > parted[p]
    requires Sorted(lowerDone[start..p]) && multiset(lowerDone[start..p]) == multiset(parted[start..p])
    requires lowerDone[..start] == parted[..start] && lowerDone[p..] == parted[p..]
    requires Sorted(done[p + 1..end]) && multiset(done[p + 1..end]) == multiset(lowerDone[p + 1..end])
    requires done[..p + 1] == lowerDone[..p + 1] && done[end..] == lowerDone[end..]
    ensures Sorted(done[start..end]) && multiset(done[start..end]) == multiset(parted[start..end])
    ensures done[..start] == parted[..start] && done[end..] == parted[end..]
  {
    var q, pivot := p - start, parted[p];
    var lower, upper := parted[start..p], parted[p + 1..end];
    assert AllAtMost(lower, pivot) by {
      forall k | 0 <= k < |lower| ensures lower[k] <= pivot { assert lower[k] == parted[start + k]; }
    }
    assert AllAbove(upper, pivot) by {
      forall k | 0 <= k < |upper| ensures upper[k] > pivot { assert upper[k] == parted[p + 1 + k]; }
    }
    assert lowerDone[p] == pivot by { assert lowerDone[p..][0] == parted[p..][0]; }
    assert lowerDone[p + 1..end] == upper by { assert lowerDone[p + 1..end] == lowerDone[p..][1..end - p]; }
    var s := done[start..end];
    assert s[..q] == lowerDone[start..p] by {
      assert s[..q] == done[start..p];
      assert done[start..p] == done[..p + 1][start..p];
      assert lowerDone[start..p] == lowerDone[..p + 1][start..p];
    }
    assert s[q] == pivot by { assert done[p] == done[..p + 1][p]; }
    assert s[q + 1..] == done[p + 1..end];
    PermutationKeepsBounds(lower, s[..q], pivot);
    PermutationKeepsBounds(upper, s[q + 1..], pivot);
    SortedAroundPivot(s, q);
    assert s == s[..q] + [s[q]] + s[q + 1..];
    assert parted[start..end] == lower + [pivot] + upper;
    assert done[..start] == done[..p + 1][..start];
  }

  /** Quick sort of a whole vector, the empty one included. */
  method QuickSort(vec: array<int>)
    modifies vec
    ensures Sorted(vec[..])
    ensures multiset(vec[..]) == multiset(old(vec[..]))
    ensures Sorted(old(vec[..])) ==> vec[..] == old(vec[..])
  {
    QuickSortRange(vec, 0, vec.Length);
    assert vec[..] == vec[0..vec.Length];
    assert old(vec[..]) == old(vec[0..vec.Length]);
    if Sorted(old(vec[..])) {
      SortedUnique(vec[..], old(vec[..]));
    }
  }

  // ---------------------------------------------------------------------
  // The container

  /** The strategy a container is built with. */
  datatype Strategy = MergeStrategy | QuickStrategy | BubbleStrategy

  /** Owns a vector and sorts it with its strategy. */
  class Sort {
    const vec: array<int>
    const strategy: Strategy

    /** Takes over `contents` and the strategy. */
    constructor (contents: seq<int>, strategy: Strategy)
      ensures fresh(vec) && vec[..] == contents && this.strategy == strategy
    {
      this.strategy := strategy;
      vec := new int[|contents|](k requires 0 <= k < |contents| => contents[k]);
    }

    /**
     Runs the strategy on the owned vector, and changes nothing else. The
     quick and bubble strategies sort it; the merge strategy leaves the
     merge of its original halves.
     */
    method Sort()
      modifies vec
      ensures multiset(vec[..]) == multiset(old(vec[..]))
      ensures strategy != MergeStrategy ==> Sorted(vec[..])
      ensures strategy == MergeStrategy ==> vec[..] == MergeStrategyResult(old(vec[..]))
    {
      match strategy
      case MergeStrategy => MergeSort(vec);
      case QuickStrategy => QuickSort(vec);
      case BubbleStrategy => var _ := Bubble.BubbleSort(vec);
    }

    /** The values written to the console, in the order of the vector. */
    method Print() returns (shown: seq<int>)
      ensures shown == vec[..]
    {
      shown := [];
      for k := 0 to vec.Length
        invariant shown == vec[..k]
      {
        shown := shown + [vec[k]];
      }
    }
  }
}
