/**
 The unoptimised bubble sort that both programs define with the same code:
 one outer pass per element, each inner pass one shorter than the last,
 swapping neighbours only when the left one is strictly greater.
 */
module Bubble {
  import opened Sorting

  /**
   `perm` tells, for each position of `s`, the position of `orig` its
   element came from: a bijection of positions that moves values unchanged
   and keeps equal values in their original relative order.
   */
  ghost predicate StableRearrangement(orig: seq<int>, s: seq<int>, perm: seq<int>) {
    && |perm| == |s| == |orig|
    // triggering on `perm` alone keeps `s[k] == orig[perm[k]]` from feeding itself when `s == orig`
    && (forall k {:trigger perm[k]} :: 0 <= k < |s| ==> 0 <= perm[k] < |orig| && s[k] == orig[perm[k]])
    && (forall k, l {:trigger perm[k], perm[l]} :: 0 <= k < l < |s| ==> perm[k] != perm[l])
    && (forall k, l {:trigger perm[k], perm[l]} :: 0 <= k < l < |s| && s[k] == s[l] ==> perm[k] < perm[l])
  }

  /** Swapping two unequal neighbours, and their origins, keeps a stable rearrangement stable. */
  lemma SwapKeepsStable(orig: seq<int>, s: seq<int>, perm: seq<int>, j: int)
    requires StableRearrangement(orig, s, perm)
    requires 0 <= j < |s| - 1 && s[j] != s[j + 1]
    ensures StableRearrangement(orig, s[j := s[j + 1]][j + 1 := s[j]], perm[j := perm[j + 1]][j + 1 := perm[j]])
  {
    var s', perm' := s[j := s[j + 1]][j + 1 := s[j]], perm[j := perm[j + 1]][j + 1 := perm[j]];
    // position k of the swapped sequence holds what position Src(k) held before
    var src := (k: int) => if k == j then j + 1 else if k == j + 1 then j else k;
    assert forall k :: 0 <= k < |s| ==> s'[k] == s[src(k)] && perm'[k] == perm[src(k)];
    forall k, l | 0 <= k < l < |s| && s'[k] == s'[l] ensures perm'[k] < perm'[l] {
      assert src(k) < src(l);
    }
  }

  /**
   One inner step: compares neighbours `j` and `j + 1` and swaps them when
   the left one is strictly greater, so that afterwards the larger of the
   two is at `j + 1`.
   */
  method CompareSwap(a: array<int>, j: int, ghost orig: seq<int>, ghost perm: seq<int>) returns (ghost perm': seq<int>)
    requires 0 <= j < a.Length - 1
    requires StableRearrangement(orig, a[..], perm)
    modifies a
    ensures StableRearrangement(orig, a[..], perm')
    ensures multiset(a[..]) == multiset(old(a[..]))
    ensures a[j] <= a[j + 1]
    ensures old(a[j]) <= old(a[j + 1]) ==> a[..] == old(a[..])
    ensures old(a[j]) > old(a[j + 1]) ==> a[..] == old(a[..])[j := old(a[j + 1])][j + 1 := old(a[j])]
  {
    perm' := perm;
    if a[j] > a[j + 1] {
      SwapKeepsStable(orig, a[..], perm, j);
      a[j], a[j + 1] := a[j + 1], a[j];
      perm' := perm[j := perm[j + 1]][j + 1 := perm[j]];
    }
  }

  /**
   One inner pass over the unsorted prefix `a[..m]`: carries the largest
   element of the prefix to position `m - 1` and leaves `a[m..]` alone.
   */
  method BubblePass(a: array<int>, m: int, ghost orig: seq<int>, ghost perm: seq<int>) returns (ghost perm': seq<int>)
    requires 1 <= m <= a.Length
    requires StableRearrangement(orig, a[..], perm)
    requires forall k, l :: 0 <= k < m <= l < a.Length ==> a[k] <= a[l]
    modifies a
    ensures StableRearrangement(orig, a[..], perm')
    ensures multiset(a[..]) == multiset(old(a[..]))
    ensures forall k :: 0 <= k < m ==> a[k] <= a[m - 1]
    ensures forall k :: m <= k < a.Length ==> a[k] == old(a[k])
    ensures forall k, l :: 0 <= k < m <= l < a.Length ==> a[k] <= a[l]
  {
    perm' := perm;
    for j := 0 to m - 1
      invariant StableRearrangement(orig, a[..], perm')
      invariant multiset(a[..]) == multiset(old(a[..]))
      invariant forall k :: 0 <= k <= j ==> a[k] <= a[j]
      invariant forall k :: m <= k < a.Length ==> a[k] == old(a[k])
      invariant forall k, l :: 0 <= k < m <= l < a.Length ==> a[k] <= a[l]
    {
      perm' := CompareSwap(a, j, orig, perm');
    }
  }

  /**
   Sorts `a` in place into non-descending order. The ghost result `perm`
   witnesses that the sort is stable: equal values keep their input order
   because equal neighbours are never swapped.
   */
  method BubbleSort(a: array<int>) returns (ghost perm: seq<int>)
    modifies a
    ensures Sorted(a[..])
    ensures multiset(a[..]) == multiset(old(a[..]))
    ensures StableRearrangement(old(a[..]), a[..], perm)
    ensures Sorted(old(a[..])) ==> a[..] == old(a[..])
  {
    ghost var orig := a[..];
    var n := a.Length;
    // every position starts out holding its own element
    perm := seq(n, k => k);
    // `n - i - 1` is the inner bound of the source; `i < n` keeps it from wrapping around
    for i := 0 to n
      invariant multiset(a[..]) == multiset(orig)
      invariant StableRearrangement(orig, a[..], perm)
      // the last i positions hold the i largest elements, in order
      invariant forall k, l :: n - i <= k < l < n ==> a[k] <= a[l]
      invariant forall k, l :: 0 <= k < n - i <= l < n ==> a[k] <= a[l]
    {
      perm := BubblePass(a, n - i, orig, perm);
    }
    if Sorted(orig) {
      SortedUnique(a[..], orig);
    }
  }
}
