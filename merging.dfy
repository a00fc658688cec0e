/**
 The write-back loops of a two-way merge, shared by both programs: a cursor
 runs over the target range and takes the smaller front of two source
 sequences (the right one on ties) until one is used up, then copies the
 rest of the left side, then the rest of the right side.
 */
module Merging {
  import opened Sorting

  /** `a + (b + c) == (a + b) + c`, stated apart so that no merge term is in scope when it is used. */
  lemma ConcatAssoc(a: seq<int>, b: seq<int>, c: seq<int>)
    ensures a + (b + c) == (a + b) + c
  {
  }

  /**
   When the left front is written next, it extends the written prefix `out`
   of `Merged(left, right)` by one element.
   */
  lemma TakeLeft(out: seq<int>, left: seq<int>, right: seq<int>, li: int, ri: int)
    requires 0 <= li < |left| && 0 <= ri <= |right|
    requires ri == |right| || left[li] < right[ri]
    requires out + Merged(left[li..], right[ri..]) == Merged(left, right)
    ensures (out + [left[li]]) + Merged(left[li + 1..], right[ri..]) == Merged(left, right)
  {
    var rest, other := left[li..], right[ri..];
    assert rest[0] == left[li] && rest[1..] == left[li + 1..];
    MergedTakesLeft(rest, other);
    ConcatAssoc(out, [rest[0]], Merged(rest[1..], other));
  }

  /**
   When the right front is written next (it is not greater than the left
   front, or the left side is used up), it extends the written prefix `out`
   of `Merged(left, right)` by one element.
   */
  lemma TakeRight(out: seq<int>, left: seq<int>, right: seq<int>, li: int, ri: int)
    requires 0 <= li <= |left| && 0 <= ri < |right|
    requires li == |left| || !(left[li] < right[ri])
    requires out + Merged(left[li..], right[ri..]) == Merged(left, right)
    ensures (out + [right[ri]]) + Merged(left[li..], right[ri + 1..]) == Merged(left, right)
  {
    var other, rest := left[li..], right[ri..];
    assert rest[0] == right[ri] && rest[1..] == right[ri + 1..];
    MergedTakesRight(other, rest);
    ConcatAssoc(out, [rest[0]], Merged(other, rest[1..]));
  }

  /** Once one side is used up, what is left to write is the rest of the other side. */
  lemma TakeRest(out: seq<int>, left: seq<int>, right: seq<int>, li: int, ri: int)
    requires 0 <= li <= |left| && 0 <= ri <= |right| && (li == |left| || ri == |right|)
    requires out + Merged(left[li..], right[ri..]) == Merged(left, right)
    ensures out + left[li..] + right[ri..] == Merged(left, right)
  {
    var l, r := left[li..], right[ri..];
    assert Merged(l, r) == l + r;
    ConcatAssoc(out, l, r);
  }

  /**
   The first loop of the merge: while both sides have elements, writes the
   smaller front (the right one on ties) at the cursor. Returns how far each
   side got; `out` is what was written, from `start` on.
   */
  method MergeFronts(a: array<int>, start: int, left: seq<int>, right: seq<int>) returns (li: int, ri: int, ghost out: seq<int>)
    requires 0 <= start && start + |left| + |right| <= a.Length
    modifies a
    ensures 0 <= li <= |left| && 0 <= ri <= |right| && (li == |left| || ri == |right|)
    ensures out + left[li..] + right[ri..] == Merged(left, right)
    ensures |out| == li + ri && forall k :: start <= k < start + li + ri ==> a[k] == out[k - start]
    ensures forall k :: 0 <= k < a.Length && !(start <= k < start + li + ri) ==> a[k] == old(a[k])
  {
    var it := start;
    li, ri := 0, 0;
    out := [];
    while li < |left| && ri < |right|
      invariant 0 <= li <= |left| && 0 <= ri <= |right| && it == start + li + ri
      invariant out + Merged(left[li..], right[ri..]) == Merged(left, right)
      invariant |out| == it - start && forall k :: start <= k < it ==> a[k] == out[k - start]
      invariant forall k :: 0 <= k < a.Length && !(start <= k < it) ==> a[k] == old(a[k])
    {
      if left[li] < right[ri] {
        TakeLeft(out, left, right, li, ri);
        a[it] := left[li];
        out := out + [left[li]];
        li := li + 1;
      } else {
        TakeRight(out, left, right, li, ri);
        a[it] := right[ri];
        out := out + [right[ri]];
        ri := ri + 1;
      }
      it := it + 1;
    }
    TakeRest(out, left, right, li, ri);
  }

  /**
   Writes `s[from..]` to `a` right after the elements `done` already written
   from index `start` on, one element at a time.
   */
  method CopyRest(a: array<int>, start: int, at: int, ghost done: seq<int>, s: seq<int>, from: int)
    requires at == start + |done|
    requires 0 <= from <= |s| && 0 <= start && start + |done| + |s| - from <= a.Length
    requires forall k :: start <= k < start + |done| ==> a[k] == done[k - start]
    modifies a
    ensures forall k :: start <= k < start + |done| + |s| - from ==> a[k] == (done + s[from..])[k - start]
    ensures forall k :: 0 <= k < a.Length && !(start + |done| <= k < start + |done| + |s| - from) ==> a[k] == old(a[k])
  {
    var i, j := from, at;
    while i < |s|
      invariant from <= i <= |s| && j == start + |done| + i - from
      invariant forall k :: start + |done| <= k < j ==> a[k] == s[from + k - start - |done|]
      invariant forall k :: 0 <= k < a.Length && !(start + |done| <= k < j) ==> a[k] == old(a[k])
    {
      a[j] := s[i];
      i := i + 1;
      j := j + 1;
    }
  }

  /** Fresh array holding `s`, as the copy constructor of a vector does. */
  method CopyOf(s: seq<int>) returns (c: array<int>)
    ensures fresh(c) && c[..] == s
  {
    c := new int[|s|](k requires 0 <= k < |s| => s[k]);
  }

  /**
   Writes `Merged(left, right)` into `a` from index `start` on, in the
   three loops of the source, and leaves every other cell alone.
   */
  method MergeInto(a: array<int>, start: int, left: seq<int>, right: seq<int>)
    requires 0 <= start && start + |left| + |right| <= a.Length
    modifies a
    ensures a[start..start + |left| + |right|] == Merged(left, right)
    ensures forall k :: 0 <= k < a.Length && !(start <= k < start + |left| + |right|) ==> a[k] == old(a[k])
  {
    var li, ri, out := MergeFronts(a, start, left, right);
    CopyRest(a, start, start + li + ri, out, left, li);
    CopyRest(a, start, start + |left| + ri, out + left[li..], right, ri);
    assert a[start..start + |left| + |right|] == out + left[li..] + right[ri..];
  }
}
