/**
 The function-object program: free functions that sort a vector of ints
 in place (a merge sort that merges the recursively sorted halves, and the
 bubble sort shared with the strategy program), and a container that owns
 the vector and applies the sort function it was built with.
 */
module FunctionSort {
  import opened Sorting
  import opened Merging
  import Bubble

  /**
   Overwrites `vec` with the merge of `left` and `right`; the vector must
   have room for exactly both of them.
   */
  method Merge(vec: array<int>, left: seq<int>, right: seq<int>)
    requires vec.Length == |left| + |right|
    modifies vec
    ensures vec[..] == Merged(left, right)
    ensures multiset(vec[..]) == multiset(left) + multiset(right)
    ensures Sorted(left) && Sorted(right) ==> Sorted(vec[..])
  {
    MergeInto(vec, 0, left, right);
    assert vec[..] == vec[0..|left| + |right|];
    MergedPermutation(left, right);
    MergedSortedIff(left, right);
  }

  /**
   Merge sort: copies the lower `n / 2` elements and the rest into two new
   vectors, sorts both recursively and merges the sorted copies back.
   */
  method MergeSort(vec: array<int>)
    modifies vec
    ensures Sorted(vec[..])
    ensures multiset(vec[..]) == multiset(old(vec[..]))
    ensures Sorted(old(vec[..])) ==> vec[..] == old(vec[..])
    decreases vec.Length
  {
    if vec.Length <= 1 {
      return;
    }
    ghost var orig := vec[..];
    var middle := vec.Length / 2;
    var left := CopyOf(vec[..middle]);
    var right := CopyOf(vec[middle..]);
    MergeSort(left);
    MergeSort(right);
    Merge(vec, left[..], right[..]);
    assert orig == orig[..middle] + orig[middle..];
    if Sorted(orig) {
      SortedUnique(vec[..], orig);
    }
  }

  /** The sort functions the program defines. */
  datatype SortFunction = MergeSortFunction | BubbleSortFunction

  /** Owns a vector and sorts it with its sort function. */
  class Sort {
    const vec: array<int>
    const sortFunction: SortFunction

    /** Takes over `contents` and the sort function. */
    constructor (contents: seq<int>, sortFunction: SortFunction)
      ensures fresh(vec) && vec[..] == contents && this.sortFunction == sortFunction
    {
      this.sortFunction := sortFunction;
      vec := new int[|contents|](k requires 0 <= k < |contents| => contents[k]);
    }

    /**
     Applies the sort function once to the owned vector: afterwards it
     holds the sorted rearrangement of what it held before, and nothing
     else changes.
     */
    method Sort()
      modifies vec
      ensures Sorted(vec[..])
      ensures multiset(vec[..]) == multiset(old(vec[..]))
    {
      match sortFunction
      case MergeSortFunction => MergeSort(vec);
      case BubbleSortFunction => var _ := Bubble.BubbleSort(vec);
    }

    /** The values written to the console, in the order of the vector. */
    method Print() returns (shown: seq<int>)
      ensures shown == vec[..]
    {
      shown := [];
      for k := 0 to vec.Length
        invariant shown == vec[..k]
      {
        shown := shown + [vec[k]];
      }
    }
  }
}
