/** Top-down merge sort on an array, merging with end-of-run sentinels. */
module MergeSorting {
  import opened Sortedness

  /** A merge card: an array value, or the infinite sentinel closing a run. */
  datatype Card = Fin(v: int) | Inf

  /** The comparison `left[i] <= right[j]`, where the sentinel exceeds every value. */
  predicate CardLe(x: Card, y: Card) {
    match (x, y)
    case (_, Inf) => true
    case (Inf, Fin(_)) => false
    case (Fin(a), Fin(b)) => a <= b
  }

  /** A run copied out of the array with the sentinel appended. */
  function WithSentinel(s: seq<int>): (r: seq<Card>)
    ensures |r| == |s| + 1 && r[|s|] == Inf
    ensures forall i :: 0 <= i < |s| ==> r[i] == Fin(s[i])
  {
    seq(|s|, i requires 0 <= i < |s| => Fin(s[i])) + [Inf]
  }

  /** The stable merge of `xs[i..]` and `ys[j..]`: the smaller head goes
      first, and on a tie the left run's element does. */
  function MergeFrom(xs: seq<int>, ys: seq<int>, i: nat, j: nat): (r: seq<int>)
    requires i <= |xs| && j <= |ys|
    ensures |r| == |xs| - i + |ys| - j
    decreases |xs| - i + |ys| - j
  {
    if i == |xs| then ys[j..]
    else if j == |ys| then xs[i..]
    else if xs[i] <= ys[j] then [xs[i]] + MergeFrom(xs, ys, i + 1, j)
    else [ys[j]] + MergeFrom(xs, ys, i, j + 1)
  }

  /** The stable merge of two runs, consuming them from the front. */
  function Merged(xs: seq<int>, ys: seq<int>): (r: seq<int>)
    ensures |r| == |xs| + |ys|
    decreases |xs| + |ys|
  {
    if xs == [] then ys
    else if ys == [] then xs
    else if xs[0] <= ys[0] then [xs[0]] + Merged(xs[1..], ys)
    else [ys[0]] + Merged(xs, ys[1..])
  }

  /** Merging from positions `i` and `j` is merging what is left of the runs. */
  lemma {:induction false} MergeFromRest(xs: seq<int>, ys: seq<int>, i: nat, j: nat)
    requires i <= |xs| && j <= |ys|
    ensures MergeFrom(xs, ys, i, j) == Merged(xs[i..], ys[j..])
    decreases |xs| - i + |ys| - j
  {
    if i < |xs| && j < |ys| {
      if xs[i] <= ys[j] {
        MergeFromRest(xs, ys, i + 1, j);
        assert xs[i..][1..] == xs[i + 1..];
      } else {
        MergeFromRest(xs, ys, i, j + 1);
        assert ys[j..][1..] == ys[j + 1..];
      }
    }
  }

  /** Merging loses and invents nothing. */
  lemma {:induction false} MergedPermutation(xs: seq<int>, ys: seq<int>)
    ensures multiset(Merged(xs, ys)) == multiset(xs) + multiset(ys)
    decreases |xs| + |ys|
  {
    if xs != [] && ys != [] {
      if xs[0] <= ys[0] {
        MergedPermutation(xs[1..], ys);
        assert xs[..1] + xs[1..] == xs && xs[..1] == [xs[0]];
      } else {
        MergedPermutation(xs, ys[1..]);
        assert ys[..1] + ys[1..] == ys && ys[..1] == [ys[0]];
      }
    }
  }

  /** The merge of two sorted runs is sorted, and it starts with the smaller head. */
  lemma {:induction false} MergedSorted(xs: seq<int>, ys: seq<int>)
    requires Sorted(xs) && Sorted(ys)
    ensures Sorted(Merged(xs, ys))
    ensures xs != [] && ys != [] ==> Merged(xs, ys)[0] == (if xs[0] <= ys[0] then xs[0] else ys[0])
    decreases |xs| + |ys|
  {
    if xs != [] && ys != [] {
      if xs[0] <= ys[0] {
        MergedSorted(xs[1..], ys);
      } else {
        MergedSorted(xs, ys[1..]);
      }
    }
  }

  /** The split point `(p + r) // 2` of a range of two or more elements:
      inside the range, before its last element. */
  function Mid(p: int, r: int): (q: int)
    requires p < r
    ensures p <= q < r
  {
    (p + r) / 2
  }

  /** Merge sort of the inclusive range `s[p..r]`, recursing on the index
      ranges `[p, q]` and `[q+1, r]` with `q = (p + r) // 2`; a range of at
      most one element is already sorted. */
  function SortedRange(s: seq<int>, p: int, r: int): (t: seq<int>)
    requires 0 <= p <= r + 1 <= |s|
    ensures |t| == r + 1 - p
    decreases r - p
  {
    if p >= r then s[p..r + 1]
    else
      var q := Mid(p, r);
      Merged(SortedRange(s, p, q), SortedRange(s, q + 1, r))
  }

  /** Sorting a range reads only that range. */
  lemma {:induction false} SortedRangeFrame(s: seq<int>, s': seq<int>, p: int, r: int)
    requires 0 <= p <= r + 1 <= |s| && |s| == |s'|
    requires forall k :: p <= k <= r ==> s[k] == s'[k]
    ensures SortedRange(s, p, r) == SortedRange(s', p, r)
    decreases r - p
  {
    if p < r {
      var q := Mid(p, r);
      SortedRangeUnfold(s, p, q, r);
      SortedRangeUnfold(s', p, q, r);
      SortedRangeFrame(s, s', p, q);
      SortedRangeFrame(s, s', q + 1, r);
    } else {
      assert s[p..r + 1] == s'[p..r + 1];
    }
  }

  /** Merge sort yields a sorted sequence. */
  lemma {:induction false} SortedRangeSorted(s: seq<int>, p: int, r: int)
    requires 0 <= p <= r + 1 <= |s|
    ensures Sorted(SortedRange(s, p, r))
    decreases r - p
  {
    if p < r {
      var q := Mid(p, r);
      SortedRangeSorted(s, p, q);
      SortedRangeSorted(s, q + 1, r);
      MergedSorted(SortedRange(s, p, q), SortedRange(s, q + 1, r));
    }
  }

  /** Merge sort yields a permutation of the range. */
  lemma {:induction false} SortedRangePermutation(s: seq<int>, p: int, r: int)
    requires 0 <= p <= r + 1 <= |s|
    ensures multiset(SortedRange(s, p, r)) == multiset(s[p..r + 1])
    decreases r - p
  {
    if p < r {
      var q := Mid(p, r);
      SortedRangePermutation(s, p, q);
      SortedRangePermutation(s, q + 1, r);
      MergeHalvesPermutation(s, p, q, r);
    }
  }

  /** `SortedRange` merges the sorted halves of a range of two or more elements. */
  lemma SortedRangeUnfold(s: seq<int>, p: int, q: int, r: int)
    requires 0 <= p <= q < r < |s| && q == Mid(p, r)
    ensures SortedRange(s, p, r) == Merged(SortedRange(s, p, q), SortedRange(s, q + 1, r))
  {
  }

  /** If both halves keep their elements, so does the merge step. */
  lemma MergeHalvesPermutation(s: seq<int>, p: int, q: int, r: int)
    requires 0 <= p <= q < r < |s| && q == Mid(p, r)
    requires multiset(SortedRange(s, p, q)) == multiset(s[p..q + 1])
    requires multiset(SortedRange(s, q + 1, r)) == multiset(s[q + 1..r + 1])
    ensures multiset(SortedRange(s, p, r)) == multiset(s[p..r + 1])
  {
    SortedRangeUnfold(s, p, q, r);
    SliceJoin(s, p, q + 1, r + 1);
    MergedPermutationOf(SortedRange(s, p, r), SortedRange(s, p, q), SortedRange(s, q + 1, r),
                        s[p..q + 1], s[q + 1..r + 1], s[p..r + 1]);
  }

  /** Merging sequences with the elements of `a` and of `b` yields the
      elements of `a + b`. */
  lemma MergedPermutationOf(t: seq<int>, lo: seq<int>, hi: seq<int>, a: seq<int>, b: seq<int>, w: seq<int>)
    requires t == Merged(lo, hi) && w == a + b
    ensures multiset(lo) == multiset(a) && multiset(hi) == multiset(b) ==> multiset(t) == multiset(w)
  {
    MergedPermutation(lo, hi);
  }

  /** `s` after sorting its range `[p, r]` in place: a range of at most one
      element, or an empty one, is left as it is. */
  ghost function SortedIn(s: seq<int>, p: int, r: int): (u: seq<int>)
    requires 0 <= p && r < |s|
    ensures |u| == |s|
  {
    if p < r then Splice(s, p, r, SortedRange(s, p, r)) else s
  }

  /** Sorting both halves of `s0[p..r]` in place and then merging them is
      sorting the whole range. */
  lemma SortHalvesThenMerge(s0: seq<int>, s1: seq<int>, s2: seq<int>, s3: seq<int>, p: int, q: int, r: int)
    requires 0 <= p <= q < r < |s0| && q == Mid(p, r)
    requires s1 == SortedIn(s0, p, q)
    requires s2 == SortedIn(s1, q + 1, r)
    requires s3 == Splice(s2, p, r, Merged(s2[p..q + 1], s2[q + 1..r + 1]))
    ensures s3 == SortedIn(s0, p, r)
  {
    if p == q {
      SpliceSame(s0, p, q);
    }
    if q + 1 == r {
      SpliceSame(s1, q + 1, r);
    }
    var lo, hi := SortedRange(s0, p, q), SortedRange(s0, q + 1, r);
    RightHalfSorted(s0, s1, s2, p, q, r);
    LeftHalfKept(s0, s1, s2, p, q, r, hi);
    SortedRangeUnfold(s0, p, q, r);
    SpliceAgree(s2, s0, p, r, Merged(lo, hi));
  }

  /** After the right half is sorted, the left half still holds its sorted contents. */
  lemma LeftHalfKept(s0: seq<int>, s1: seq<int>, s2: seq<int>, p: int, q: int, r: int, hi: seq<int>)
    requires 0 <= p <= q < r < |s0| && |hi| == r - q
    requires s1 == Splice(s0, p, q, SortedRange(s0, p, q))
    requires s2 == Splice(s1, q + 1, r, hi)
    ensures s2[p..q + 1] == SortedRange(s0, p, q)
  {
    var lo := SortedRange(s0, p, q);
    SpliceOutside(s1, q + 1, r, hi, p, q + 1);
    SpliceInside(s0, p, q, lo, p, q + 1);
    assert lo[0..q + 1 - p] == lo;
  }

  /** Sorting the right half in place leaves there what sorting it in the
      original would. */
  lemma RightHalfSorted(s0: seq<int>, s1: seq<int>, s2: seq<int>, p: int, q: int, r: int)
    requires 0 <= p <= q < r < |s0|
    requires s1 == Splice(s0, p, q, SortedRange(s0, p, q))
    requires s2 == Splice(s1, q + 1, r, SortedRange(s1, q + 1, r))
    ensures SortedRange(s1, q + 1, r) == SortedRange(s0, q + 1, r)
    ensures s2[q + 1..r + 1] == SortedRange(s0, q + 1, r)
  {
    var hi := SortedRange(s0, q + 1, r);
    SortedRangeFrame(s1, s0, q + 1, r);
    SpliceInside(s1, q + 1, r, hi, q + 1, r + 1);
    assert hi[0..r - q] == hi;
  }

  /** The first step of a merge from positions `i` and `j`: the smaller
      head is taken, the left one on a tie or once the right run is spent. */
  lemma MergeHead(xs: seq<int>, ys: seq<int>, i: nat, j: nat)
    requires i <= |xs| && j <= |ys| && i + j < |xs| + |ys|
    ensures var m := MergeFrom(xs, ys, i, j);
      if i < |xs| && (j == |ys| || xs[i] <= ys[j]) then m[0] == xs[i] && m[1..] == MergeFrom(xs, ys, i + 1, j)
      else j < |ys| && m[0] == ys[j] && m[1..] == MergeFrom(xs, ys, i, j + 1)
  {
    if i == |xs| {
      assert ys[j..][1..] == ys[j + 1..];
    } else if j == |ys| {
      assert xs[i..][1..] == xs[i + 1..];
    }
  }

  /** Merge the sorted runs `a[p..q]` and `a[q+1..r]` (inclusive bounds) back
      into `a[p..r]`, copying each run out with a sentinel behind it. */
  method Merge(a: array<int>, p: int, q: int, r: int)
    requires 0 <= p <= q + 1 <= r + 1 <= a.Length
    modifies a
    ensures a[..] == Splice(old(a[..]), p, r, Merged(old(a[..])[p..q + 1], old(a[..])[q + 1..r + 1]))
  {
    ghost var xs, ys := a[..][p..q + 1], a[..][q + 1..r + 1];
    ghost var merged := MergeFrom(xs, ys, 0, 0);
    ghost var s0 := a[..];
    var left := WithSentinel(a[p..q + 1]);
    var right := WithSentinel(a[q + 1..r + 1]);
    assert left == WithSentinel(xs) && right == WithSentinel(ys);
    var i, j := 0, 0;
    SpliceNothing(s0, p);
    for k := p to r + 1
      invariant 0 <= i <= |xs| && 0 <= j <= |ys| && i + j == k - p
      invariant MergeFrom(xs, ys, i, j) == merged[k - p..]
      invariant a[..] == Splice(s0, p, k - 1, merged[..k - p])
    {
      if CardLe(left[i], right[j]) {
        TakeLeft(xs, ys, i, j, merged, s0, p, k, a[..]);
        a[k] := left[i].v;
        i := i + 1;
      } else {
        TakeRight(xs, ys, i, j, merged, s0, p, k, a[..]);
        a[k] := right[j].v;
        j := j + 1;
      }
    }
    MergeDone(xs, ys, merged);
  }

  /** Once every position is written, the written prefix is the whole merge. */
  lemma MergeDone(xs: seq<int>, ys: seq<int>, merged: seq<int>)
    requires merged == MergeFrom(xs, ys, 0, 0)
    ensures merged[..|xs| + |ys|] == Merged(xs, ys)
  {
    MergeFromRest(xs, ys, 0, 0);
    assert xs[0..] == xs && ys[0..] == ys;
  }

  /** A step of `Merge` that takes the left card: it is a value, the
      merge takes it next, and writing it at `k` extends the written range. */
  lemma TakeLeft(xs: seq<int>, ys: seq<int>, i: nat, j: nat, merged: seq<int>, s0: seq<int>, p: int, k: int,
                 cur: seq<int>)
    requires i <= |xs| && j <= |ys| && i + j == k - p && k - p < |xs| + |ys| && |merged| == |xs| + |ys|
    requires 0 <= p <= k < |s0|
    requires MergeFrom(xs, ys, i, j) == merged[k - p..]
    requires cur == Splice(s0, p, k - 1, merged[..k - p])
    requires CardLe(WithSentinel(xs)[i], WithSentinel(ys)[j])
    ensures i < |xs| && WithSentinel(xs)[i] == Fin(xs[i])
    ensures MergeFrom(xs, ys, i + 1, j) == merged[k - p + 1..]
    ensures cur[k := xs[i]] == Splice(s0, p, k, merged[..k - p + 1])
  {
    MergeHead(xs, ys, i, j);
    Written(merged, s0, p, k);
  }

  /** A step of `Merge` that takes the right card, likewise. */
  lemma TakeRight(xs: seq<int>, ys: seq<int>, i: nat, j: nat, merged: seq<int>, s0: seq<int>, p: int, k: int,
                  cur: seq<int>)
    requires i <= |xs| && j <= |ys| && i + j == k - p && k - p < |xs| + |ys| && |merged| == |xs| + |ys|
    requires 0 <= p <= k < |s0|
    requires MergeFrom(xs, ys, i, j) == merged[k - p..]
    requires cur == Splice(s0, p, k - 1, merged[..k - p])
    requires !CardLe(WithSentinel(xs)[i], WithSentinel(ys)[j])
    ensures j < |ys| && WithSentinel(ys)[j] == Fin(ys[j])
    ensures MergeFrom(xs, ys, i, j + 1) == merged[k - p + 1..]
    ensures cur[k := ys[j]] == Splice(s0, p, k, merged[..k - p + 1])
  {
    MergeHead(xs, ys, i, j);
    Written(merged, s0, p, k);
  }

  /** Writing `merged[k - p]` at `k` extends the written prefix of `merged` by one. */
  lemma Written(merged: seq<int>, s0: seq<int>, p: int, k: int)
    requires 0 <= p <= k < |s0| && k - p < |merged|
    ensures Splice(s0, p, k - 1, merged[..k - p])[k := merged[k - p]] == Splice(s0, p, k, merged[..k - p + 1])
    ensures merged[k - p + 1..] == merged[k - p..][1..] && merged[k - p] == merged[k - p..][0]
  {
    SpliceStep(s0, p, k, merged[..k - p], merged[k - p]);
    assert merged[..k - p] + [merged[k - p]] == merged[..k - p + 1];
  }

  /** Overwriting a range with its own contents changes nothing. */
  lemma SpliceSame(s: seq<int>, p: int, r: int)
    requires 0 <= p <= r + 1 <= |s|
    ensures Splice(s, p, r, s[p..r + 1]) == s
  {
  }

  /** Overwriting an empty range changes nothing. */
  lemma SpliceNothing(s: seq<int>, p: int)
    requires 0 <= p <= |s|
    ensures Splice(s, p, p - 1, []) == s
  {
  }

  /** Writing one more element just after the overwritten range extends
      the range by one. */
  lemma SpliceStep(s: seq<int>, p: int, k: int, t: seq<int>, x: int)
    requires 0 <= p <= k < |s| && |t| == k - p
    ensures Splice(s, p, k - 1, t)[k := x] == Splice(s, p, k, t + [x])
  {
  }

  /** Sort `a[p..r]` (inclusive bounds) in place; a range of at most one element is left alone. */
  method MergeSort(a: array<int>, p: int, r: int)
    requires 0 <= p && r < a.Length
    modifies a
    ensures a[..] == SortedIn(old(a[..]), p, r)
    decreases r - p
  {
    if p < r {
      ghost var s0 := a[..];
      var q := Mid(p, r);
      MergeSort(a, p, q);
      ghost var s1 := a[..];
      MergeSort(a, q + 1, r);
      ghost var s2 := a[..];
      Merge(a, p, q, r);
      SortHalvesThenMerge(s0, s1, s2, a[..], p, q, r);
    }
  }

  /** Sort the whole array in place and hand back the same array. */
  method Sort(a: array<int>) returns (b: array<int>)
    modifies a
    ensures b == a
    ensures a[..] == SortedRange(old(a[..]), 0, a.Length - 1)
    ensures Sorted(a[..]) && multiset(a[..]) == multiset(old(a[..]))
  {
    MergeSort(a, 0, a.Length - 1);
    assert a[..] == SortedRange(old(a[..]), 0, a.Length - 1) by {
      if a.Length > 1 {
        assert Splice(old(a[..]), 0, a.Length - 1, SortedRange(old(a[..]), 0, a.Length - 1))
          == SortedRange(old(a[..]), 0, a.Length - 1);
      } else {
        assert old(a[..])[0..a.Length] == old(a[..]);
      }
    }
    SortedRangeSorted(old(a[..]), 0, a.Length - 1);
    SortedRangePermutation(old(a[..]), 0, a.Length - 1);
    assert old(a[..])[0..a.Length] == old(a[..]);
    b := a;
  }
}
