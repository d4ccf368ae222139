/** Orderedness of integer sequences and in-place range updates, shared by
    the sorting modules. */
module Sortedness {
  /** Non-decreasing: every element is at most its successor. */
  predicate Sorted(s: seq<int>) {
    forall i :: 0 < i < |s| ==> s[i - 1] <= s[i]
  }

  /** Non-decreasing also means every earlier element is at most every later one. */
  lemma {:induction false} SortedPairs(s: seq<int>, i: int, j: int)
    requires Sorted(s) && 0 <= i <= j < |s|
    ensures s[i] <= s[j]
    decreases j - i
  {
    if i < j {
      SortedPairs(s, i, j - 1);
    }
  }

  /** `s` with its inclusive index range `[p, r]` overwritten by `t`: the
      whole-array effect of sorting or merging one range in place. */
  function Splice(s: seq<int>, p: int, r: int, t: seq<int>): (u: seq<int>)
    requires 0 <= p <= r + 1 <= |s| && |t| == r + 1 - p
    ensures |u| == |s|
  {
    seq(|s|, i requires 0 <= i < |s| => if p <= i <= r then t[i - p] else s[i])
  }

  /** A slice inside the overwritten range reads the new contents. */
  lemma SpliceInside(s: seq<int>, p: int, r: int, t: seq<int>, i: int, j: int)
    requires 0 <= p <= r + 1 <= |s| && |t| == r + 1 - p && p <= i <= j <= r + 1
    ensures Splice(s, p, r, t)[i..j] == t[i - p..j - p]
  {
  }

  /** A slice clear of the overwritten range reads the old contents. */
  lemma SpliceOutside(s: seq<int>, p: int, r: int, t: seq<int>, i: int, j: int)
    requires 0 <= p <= r + 1 <= |s| && |t| == r + 1 - p && 0 <= i <= j <= |s|
    requires j <= p || r < i
    ensures Splice(s, p, r, t)[i..j] == s[i..j]
  {
  }

  /** Overwriting the same range of two sequences that agree outside it gives equal results. */
  lemma SpliceAgree(s: seq<int>, s': seq<int>, p: int, r: int, t: seq<int>)
    requires 0 <= p <= r + 1 <= |s| == |s'| && |t| == r + 1 - p
    requires forall k :: 0 <= k < |s| && !(p <= k <= r) ==> s[k] == s'[k]
    ensures Splice(s, p, r, t) == Splice(s', p, r, t)
  {
  }

  /** Adjacent slices join up. */
  lemma SliceJoin(s: seq<int>, i: int, j: int, k: int)
    requires 0 <= i <= j <= k <= |s|
    ensures s[i..j] + s[j..k] == s[i..k]
  {
  }

  /** Splitting a slice in two splits its multiset of elements. */
  lemma MultisetJoin(s: seq<int>, i: int, j: int, k: int)
    requires 0 <= i <= j <= k <= |s|
    ensures multiset(s[i..k]) == multiset(s[i..j]) + multiset(s[j..k])
  {
    SliceJoin(s, i, j, k);
  }

  /** `s` with the elements at `i` and `j` exchanged. */
  function Swapped(s: seq<int>, i: int, j: int): (t: seq<int>)
    requires 0 <= i < |s| && 0 <= j < |s|
    ensures |t| == |s| && t[i] == s[j] && t[j] == s[i]
    ensures forall k :: 0 <= k < |s| && k != i && k != j ==> t[k] == s[k]
    ensures multiset(t) == multiset(s)
  {
    s[i := s[j]][j := s[i]]
  }

  /** Exchange two elements of an array, as Python's `a[i], a[j] = a[j], a[i]`. */
  method Swap(a: array<int>, i: int, j: int)
    requires 0 <= i < a.Length && 0 <= j < a.Length
    modifies a
    ensures a[..] == Swapped(old(a[..]), i, j)
  {
    a[i], a[j] := a[j], a[i];
  }
}
