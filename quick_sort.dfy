/** Randomized quicksort with the Lomuto partition, sorting an integer array
    in place (sorting-and-searching/quick_sort_randomized.py). */
module QuickSorting {
  import opened Sortedness

  /** Every element of `s` in the index range `[lo, hi)` is at most `v`. */
  predicate AtMostIn(s: seq<int>, lo: int, hi: int, v: int)
    requires 0 <= lo && hi <= |s|
  {
    forall k :: lo <= k < hi ==> s[k] <= v
  }

  /** Every element of `s` in the index range `[lo, hi)` is greater than `v`. */
  predicate AboveIn(s: seq<int>, lo: int, hi: int, v: int)
    requires 0 <= lo && hi <= |s|
  {
    forall k :: lo <= k < hi ==> s[k] > v
  }

  /** `s[lo..hi-1]` is non-decreasing. */
  predicate SortedBetween(s: seq<int>, lo: int, hi: int)
    requires 0 <= lo && hi <= |s|
  {
    forall k :: lo < k < hi ==> s[k - 1] <= s[k]
  }

  /** `t` rearranges the inclusive range `[p, r]` of `s` and keeps every
      element outside it in place. */
  predicate PermutesRange(s: seq<int>, t: seq<int>, p: int, r: int) {
    |t| == |s| && multiset(t) == multiset(s) &&
    forall k :: 0 <= k < |s| && !(p <= k <= r) ==> t[k] == s[k]
  }

  /** The scan invariant of the Lomuto partition after examining `s[p..j-1]`:
      `s[p..i]` is at most the pivot, `s[i+1..j-1]` is greater, `s[r]` is the
      pivot, and the range has only been rearranged. */
  predicate ScanInvariant(s0: seq<int>, s: seq<int>, p: int, r: int, i: int, j: int, pivot: int)
    requires 0 <= p <= r < |s0|
  {
    p - 1 <= i < j <= r && PermutesRange(s0, s, p, r) && s[r] == pivot &&
    AtMostIn(s, p, i + 1, pivot) && AboveIn(s, i + 1, j, pivot)
  }

  /** One scan step keeps the invariant: an element at most the pivot is
      swapped to the end of the lower part, a greater one stays. */
  lemma ScanStep(s0: seq<int>, s: seq<int>, p: int, r: int, i: int, j: int, pivot: int)
    requires 0 <= p <= r < |s0| && ScanInvariant(s0, s, p, r, i, j, pivot) && j < r
    ensures s[j] <= pivot ==> ScanInvariant(s0, Swapped(s, i + 1, j), p, r, i + 1, j + 1, pivot)
    ensures s[j] > pivot ==> ScanInvariant(s0, s, p, r, i, j + 1, pivot)
  {
  }

  /** Swapping the pivot just past the lower part finishes the partition. */
  lemma ScanFinish(s0: seq<int>, s: seq<int>, p: int, r: int, i: int, pivot: int)
    requires 0 <= p <= r < |s0| && ScanInvariant(s0, s, p, r, i, r, pivot) && pivot == s0[r]
    ensures var t := Swapped(s, i + 1, r);
      t[i + 1] == s0[r] && AtMostIn(t, p, i + 1, t[i + 1]) && AboveIn(t, i + 2, r + 1, t[i + 1]) &&
      PermutesRange(s0, t, p, r)
  {
  }

  /** Lomuto partition of `a[p..r]` around the pivot `a[r]`: returns the
      pivot's final index `q`, with smaller-or-equal elements before it and
      greater ones after it. */
  method Partition(a: array<int>, p: int, r: int) returns (q: int)
    requires 0 <= p <= r < a.Length
    modifies a
    ensures p <= q <= r
    ensures a[q] == old(a[r])
    ensures AtMostIn(a[..], p, q, a[q]) && AboveIn(a[..], q + 1, r + 1, a[q])
    ensures PermutesRange(old(a[..]), a[..], p, r)
  {
    var pivot := a[r];
    var i := p - 1;
    var j := p;
    while j < r
      invariant p <= j <= r
      invariant ScanInvariant(old(a[..]), a[..], p, r, i, j, pivot)
    {
      ScanStep(old(a[..]), a[..], p, r, i, j, pivot);
      if a[j] <= pivot {
        i := i + 1;
        Swap(a, i, j);
      }
      j := j + 1;
    }
    ScanFinish(old(a[..]), a[..], p, r, i, pivot);
    q := i + 1;
    Swap(a, q, r);
  }

  /** Partition around the element at an arbitrarily chosen index of
      `[p, r]`, first swapped to the end of the range. */
  method PartitionRandomized(a: array<int>, p: int, r: int) returns (q: int)
    requires 0 <= p <= r < a.Length
    modifies a
    ensures p <= q <= r
    ensures AtMostIn(a[..], p, q, a[q]) && AboveIn(a[..], q + 1, r + 1, a[q])
    ensures PermutesRange(old(a[..]), a[..], p, r)
    ensures exists i :: p <= i <= r && a[q] == old(a[i])
  {
    var i :| p <= i <= r;
    Swap(a, r, i);
    ghost var s1 := a[..];
    q := Partition(a, p, r);
    PermutesTrans(old(a[..]), s1, a[..], p, r);
  }

  /** Sort `a[p..r]` (inclusive bounds) in place, whatever pivots are chosen. */
  method QuickSort(a: array<int>, p: int, r: int)
    requires 0 <= p <= r + 1 <= a.Length
    modifies a
    ensures SortedBetween(a[..], p, r + 1)
    ensures PermutesRange(old(a[..]), a[..], p, r)
    decreases r - p
  {
    if p < r {
      var q := PartitionRandomized(a, p, r);
      ghost var s1 := a[..];
      QuickSort(a, p, q - 1);
      ghost var s2 := a[..];
      QuickSort(a, q + 1, r);
      SortAroundPivot(old(a[..]), s1, s2, a[..], p, q, r);
    }
  }

  /** Sort the whole array in place and hand back the same array. */
  method Sort(a: array<int>) returns (b: array<int>)
    modifies a
    ensures b == a
    ensures Sorted(a[..]) && multiset(a[..]) == multiset(old(a[..]))
  {
    QuickSort(a, 0, a.Length - 1);
    b := a;
  }

  /** Rearranging one range and then a range inside it rearranges the outer range. */
  lemma PermutesTrans(s0: seq<int>, s1: seq<int>, s2: seq<int>, p: int, r: int)
    requires PermutesRange(s0, s1, p, r) && PermutesRange(s1, s2, p, r)
    ensures PermutesRange(s0, s2, p, r)
  {
  }

  /** A rearrangement of an inner range is one of every range containing it. */
  lemma PermutesWiden(s: seq<int>, t: seq<int>, p: int, r: int, p': int, r': int)
    requires PermutesRange(s, t, p, r) && p' <= p && r <= r'
    ensures PermutesRange(s, t, p', r')
  {
  }

  /** A rearrangement of `[lo, hi)` keeps the multiset of that slice. */
  lemma RangeMultiset(s: seq<int>, t: seq<int>, lo: int, hi: int)
    requires 0 <= lo <= hi <= |s| && PermutesRange(s, t, lo, hi - 1)
    ensures multiset(t[lo..hi]) == multiset(s[lo..hi])
  {
    assert t[..lo] == s[..lo];
    assert t[hi..] == s[hi..];
    MultisetThree(s, lo, hi);
    MultisetThree(t, lo, hi);
    MultisetCancel(multiset(s[..lo]), multiset(s[lo..hi]), multiset(t[lo..hi]), multiset(s[hi..]));
  }

  /** A sequence's multiset is the sum of those of its three parts. */
  lemma MultisetThree(s: seq<int>, lo: int, hi: int)
    requires 0 <= lo <= hi <= |s|
    ensures multiset(s) == multiset(s[..lo]) + multiset(s[lo..hi]) + multiset(s[hi..])
  {
    assert s == s[..lo] + s[lo..hi] + s[hi..];
  }

  /** Multiset sums cancel. */
  lemma MultisetCancel(a: multiset<int>, b: multiset<int>, b': multiset<int>, c: multiset<int>)
    requires a + b + c == a + b' + c
    ensures b == b'
  {
    forall x
      ensures b'[x] == b[x]
    {
      assert (a + b' + c)[x] == (a + b + c)[x];
    }
  }

  /** A bound on every element of a range survives rearranging the range. */
  lemma BoundsKept(s: seq<int>, t: seq<int>, lo: int, hi: int, v: int)
    requires 0 <= lo <= hi <= |s| && PermutesRange(s, t, lo, hi - 1)
    ensures AtMostIn(s, lo, hi, v) ==> AtMostIn(t, lo, hi, v)
    ensures AboveIn(s, lo, hi, v) ==> AboveIn(t, lo, hi, v)
  {
    RangeMultiset(s, t, lo, hi);
    forall k | lo <= k < hi
      ensures exists m :: lo <= m < hi && s[m] == t[k]
    {
      assert t[lo..hi][k - lo] == t[k];
      assert t[k] in multiset(s[lo..hi]);
      var m :| 0 <= m < hi - lo && s[lo..hi][m] == t[k];
      assert s[lo + m] == t[k];
    }
  }

  /** Sorting the parts below and above the partition pivot sorts the whole range. */
  lemma SortAroundPivot(s0: seq<int>, s1: seq<int>, s2: seq<int>, s3: seq<int>, p: int, q: int, r: int)
    requires 0 <= p <= q <= r < |s0|
    requires PermutesRange(s0, s1, p, r) && AtMostIn(s1, p, q, s1[q]) && AboveIn(s1, q + 1, r + 1, s1[q])
    requires PermutesRange(s1, s2, p, q - 1) && SortedBetween(s2, p, q)
    requires PermutesRange(s2, s3, q + 1, r) && SortedBetween(s3, q + 1, r + 1)
    ensures SortedBetween(s3, p, r + 1) && PermutesRange(s0, s3, p, r)
  {
    var v := s1[q];
    BoundsKept(s1, s2, p, q, v);
    BoundsKept(s2, s3, q + 1, r + 1, v);
    PermutesWiden(s1, s2, p, q - 1, p, r);
    PermutesWiden(s2, s3, q + 1, r, p, r);
  }
}
