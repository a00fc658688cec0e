/**
 The specification shared by both sorting programs: what "sorted" means,
 the sequence a two-way merge writes, and the facts about permutations
 that all three algorithms rely on.
 */
module Sorting {

  /** Non-descending order. */
  predicate Sorted(s: seq<int>) {
    forall i, j :: 0 <= i < j < |s| ==> s[i] <= s[j]
  }

  /** Every element of `s` is at most `x`. */
  predicate AllAtMost(s: seq<int>, x: int) {
    forall k :: 0 <= k < |s| ==> s[k] <= x
  }

  /** Every element of `s` is greater than `x`. */
  predicate AllAbove(s: seq<int>, x: int) {
    forall k :: 0 <= k < |s| ==> s[k] > x
  }

  /**
   The sequence a merge writes from `left` and `right`: while both sides
   have elements it writes the left front only when it is strictly less
   than the right front, otherwise the right front; once one side is used
   up the rest of the other side follows in order.
   */
  function Merged(left: seq<int>, right: seq<int>): seq<int>
    decreases |left| + |right|
  {
    if left == [] then right
    else if right == [] then left
    else if left[0] < right[0] then [left[0]] + Merged(left[1..], right)
    else [right[0]] + Merged(left, right[1..])
  }

  /** While the left front is strictly less than the right front (or the right side is empty), a merge writes it first. */
  lemma MergedTakesLeft(left: seq<int>, right: seq<int>)
    requires left != [] && (right == [] || left[0] < right[0])
    ensures Merged(left, right) == [left[0]] + Merged(left[1..], right)
  {
    if right == [] {
      assert Merged(left[1..], right) == left[1..];
      assert left == [left[0]] + left[1..];
    }
  }

  /** Otherwise (the right front is not greater, or the left side is empty) it writes the right front first. */
  lemma MergedTakesRight(left: seq<int>, right: seq<int>)
    requires right != [] && (left == [] || !(left[0] < right[0]))
    ensures Merged(left, right) == [right[0]] + Merged(left, right[1..])
  {
    if left == [] {
      assert Merged(left, right[1..]) == right[1..];
      assert right == [right[0]] + right[1..];
    }
  }

  /** A merge writes every element of both sides, and nothing else. */
  lemma {:induction false} MergedPermutation(left: seq<int>, right: seq<int>)
    ensures |Merged(left, right)| == |left| + |right|
    ensures multiset(Merged(left, right)) == multiset(left) + multiset(right)
    decreases |left| + |right|
  {
    if left == [] || right == [] {
    } else if left[0] < right[0] {
      var rest := left[1..];
      MergedPermutation(rest, right);
      assert left == [left[0]] + rest;
      MergedTakesLeft(left, right);
      assert multiset(Merged(left, right)) == multiset{left[0]} + multiset(Merged(rest, right));
    } else {
      var rest := right[1..];
      MergedPermutation(left, rest);
      assert right == [right[0]] + rest;
      MergedTakesRight(left, right);
      assert multiset(Merged(left, right)) == multiset{right[0]} + multiset(Merged(left, rest));
    }
  }

  /** Every element of `s` is at least `x`. */
  predicate AllAtLeast(s: seq<int>, x: int) {
    forall k :: 0 <= k < |s| ==> x <= s[k]
  }

  /** `[x] + s` is sorted exactly when `s` is sorted and no element of `s` is below `x`. */
  lemma ConsSorted(x: int, s: seq<int>)
    ensures Sorted([x] + s) <==> Sorted(s) && AllAtLeast(s, x)
  {
    var t := [x] + s;
    assert forall k :: 0 <= k < |s| ==> t[k + 1] == s[k];
    if Sorted(s) && AllAtLeast(s, x) {
      forall i, j | 0 <= i < j < |t| ensures t[i] <= t[j] {
        assert t[j] == s[j - 1];
        if i > 0 { assert t[i] == s[i - 1]; }
      }
    }
    if Sorted(t) {
      forall i, j | 0 <= i < j < |s| ensures s[i] <= s[j] {
        assert t[i + 1] <= t[j + 1];
      }
      forall k | 0 <= k < |s| ensures x <= s[k] {
        assert t[0] <= t[k + 1];
      }
    }
  }

  /** A bound holds of every element of a merge exactly when it holds of both sides. */
  lemma MergedAtLeast(left: seq<int>, right: seq<int>, x: int)
    ensures AllAtLeast(Merged(left, right), x) <==> AllAtLeast(left, x) && AllAtLeast(right, x)
  {
    var m := Merged(left, right);
    MergedPermutation(left, right);
    if AllAtLeast(m, x) {
      forall k | 0 <= k < |left| ensures x <= left[k] {
        assert left[k] in multiset(m);
      }
      forall k | 0 <= k < |right| ensures x <= right[k] {
        assert right[k] in multiset(m);
      }
    }
    if AllAtLeast(left, x) && AllAtLeast(right, x) {
      forall k | 0 <= k < |m| ensures x <= m[k] {
        assert m[k] in multiset(m);
      }
    }
  }

  /**
   The merge of two sequences is sorted exactly when both sequences are:
   it keeps the order of each side, so an out-of-order pair on either side
   survives into the result.
   */
  lemma {:induction false} MergedSortedIff(left: seq<int>, right: seq<int>)
    ensures Sorted(Merged(left, right)) <==> Sorted(left) && Sorted(right)
    decreases |left| + |right|
  {
    if left == [] || right == [] {
    } else if left[0] < right[0] {
      MergedSortedIff(left[1..], right);
      MergedAtLeast(left[1..], right, left[0]);
      ConsSorted(left[0], Merged(left[1..], right));
      ConsSorted(left[0], left[1..]);
      assert left == [left[0]] + left[1..];
      if Sorted(right) {
        assert AllAtLeast(right, left[0]);
      }
    } else {
      MergedSortedIff(left, right[1..]);
      MergedAtLeast(left, right[1..], right[0]);
      ConsSorted(right[0], Merged(left, right[1..]));
      ConsSorted(right[0], right[1..]);
      assert right == [right[0]] + right[1..];
      if Sorted(left) {
        assert AllAtLeast(left, right[0]);
      }
    }
  }

  /**
   A multiset has exactly one sorted arrangement: two sorted permutations
   of each other are equal. Hence sorting an already sorted input leaves it
   unchanged, sorting twice equals sorting once, and all correct sorts agree.
   */
  lemma {:induction false} SortedUnique(a: seq<int>, b: seq<int>)
    requires Sorted(a) && Sorted(b)
    requires multiset(a) == multiset(b)
    ensures a == b
    decreases |a|
  {
    assert |a| == |multiset(a)| == |multiset(b)| == |b|;
    if a != [] {
      assert a[0] in multiset(b);
      assert b[0] in multiset(a);
      assert a[0] == b[0];
      assert a == [a[0]] + a[1..];
      assert b == [b[0]] + b[1..];
      calc {
        multiset(a[1..]);
        multiset(a) - multiset{a[0]};
        multiset(b) - multiset{b[0]};
        multiset(b[1..]);
      }
      SortedUnique(a[1..], b[1..]);
    }
  }

  /** Rearranging a sequence keeps every bound that holds of all its elements. */
  lemma {:induction false} PermutationKeepsBounds(s: seq<int>, t: seq<int>, x: int)
    requires multiset(s) == multiset(t)
    ensures AllAtMost(s, x) ==> AllAtMost(t, x)
    ensures AllAbove(s, x) ==> AllAbove(t, x)
  {
    forall k | 0 <= k < |t| ensures t[k] in s {
      assert t[k] in multiset(t);
    }
  }

  /**
   A range split at a pivot position is sorted when both sides are sorted,
   nothing on the left exceeds the pivot and everything on the right exceeds it.
   */
  lemma SortedAroundPivot(s: seq<int>, p: int)
    requires 0 <= p < |s|
    requires Sorted(s[..p]) && Sorted(s[p + 1..])
    requires AllAtMost(s[..p], s[p]) && AllAbove(s[p + 1..], s[p])
    ensures Sorted(s)
  {
    forall i, j | 0 <= i < j < |s| ensures s[i] <= s[j] {
      if j < p {
        assert s[i] == s[..p][i] && s[j] == s[..p][j];
      } else if i > p {
        assert s[i] == s[p + 1..][i - p - 1] && s[j] == s[p + 1..][j - p - 1];
      } else {
        if i < p { assert s[i] == s[..p][i]; }
        if j > p { assert s[j] == s[p + 1..][j - p - 1]; }
      }
    }
  }
}
