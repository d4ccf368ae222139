/** The maximum sum of a contiguous, nonempty subarray, computed four ways:
    by enumerating all subarrays, by Kadane's running maximum, by Kadane's
    running maximum with the subarray's bounds, and by a table of best sums
    ending at each index (dynamic-programming/Kadanes-algorithm.py). Each
    returns 0 on an empty list. */
module Kadane {
  /** `nums[lo] + ... + nums[hi - 1]`. */
  function Sum(s: seq<int>, lo: int, hi: int): int
    requires 0 <= lo <= hi <= |s|
    decreases hi - lo
  {
    if lo == hi then 0 else Sum(s, lo, hi - 1) + s[hi - 1]
  }

  function Max(a: int, b: int): (m: int)
    ensures m >= a && m >= b && (m == a || m == b)
  {
    if a >= b then a else b
  }

  /** `v` is the largest sum of a nonempty subarray ending just before `i`. */
  predicate BestEndingAt(s: seq<int>, i: int, v: int)
    requires 0 < i <= |s|
  {
    && (exists lo :: 0 <= lo < i && Sum(s, lo, i) == v)
    && (forall lo :: 0 <= lo < i ==> Sum(s, lo, i) <= v)
  }

  /** `v` is the largest sum of a nonempty subarray of the first `n` elements. */
  predicate BestWithin(s: seq<int>, n: int, v: int)
    requires 0 <= n <= |s|
  {
    && (exists lo, hi :: 0 <= lo < hi <= n && Sum(s, lo, hi) == v)
    && (forall lo, hi :: 0 <= lo < hi <= n ==> Sum(s, lo, hi) <= v)
  }

  /** `v` is the maximum subarray sum of `s`. */
  predicate MaxSubarraySum(s: seq<int>, v: int) {
    BestWithin(s, |s|, v)
  }

  /** There is only one maximum, so all four variants agree. */
  lemma MaxSubarrayUnique(s: seq<int>, a: int, b: int)
    requires MaxSubarraySum(s, a) && MaxSubarraySum(s, b)
    ensures a == b
  {
    var lo, hi :| 0 <= lo < hi <= |s| && Sum(s, lo, hi) == a;
    var lo', hi' :| 0 <= lo' < hi' <= |s| && Sum(s, lo', hi') == b;
    assert a <= b && b <= a;
  }

  /** Before the loop, the first element is both the best sum ending at
      index 0 and the best overall. */
  lemma KadaneStart(s: seq<int>)
    requires |s| > 0
    ensures BestEndingAt(s, 1, s[0]) && BestWithin(s, 1, s[0])
  {
    assert Sum(s, 0, 1) == s[0];
  }

  /** The best subarray ending at `i` either extends the best one ending at
      `i - 1` or starts afresh at `i`. */
  lemma ExtendEnding(s: seq<int>, i: int, v: int)
    requires 0 < i < |s| && BestEndingAt(s, i, v)
    ensures BestEndingAt(s, i + 1, Max(v + s[i], s[i]))
  {
    var lo :| 0 <= lo < i && Sum(s, lo, i) == v;
    if v + s[i] >= s[i] {
      assert Sum(s, lo, i + 1) == v + s[i];
    } else {
      assert Sum(s, i, i + 1) == s[i];
    }
    var best, j := Max(v + s[i], s[i]), i + 1;
    forall lo' | 0 <= lo' < j
      ensures Sum(s, lo', j) <= best
    {
      if lo' < i {
        assert Sum(s, lo', j) == Sum(s, lo', i) + s[i];
      }
    }
  }

  /** The best subarray of the first `i + 1` elements is the better of the
      best within the first `i` and the best ending at `i`. */
  lemma ExtendWithin(s: seq<int>, i: int, w: int, v: int)
    requires 0 < i < |s| && BestWithin(s, i, w) && BestEndingAt(s, i + 1, v)
    ensures BestWithin(s, i + 1, Max(w, v))
  {
    if w >= v {
      var lo, hi :| 0 <= lo < hi <= i && Sum(s, lo, hi) == w;
      assert 0 <= lo < hi <= i + 1;
    } else {
      var lo :| 0 <= lo < i + 1 && Sum(s, lo, i + 1) == v;
      assert 0 <= lo < i + 1 <= i + 1;
    }
    forall lo, hi | 0 <= lo < hi <= i + 1
      ensures Sum(s, lo, hi) <= Max(w, v)
    {
      if hi <= i {
        assert Sum(s, lo, hi) <= w;
      } else {
        assert Sum(s, lo, i + 1) <= v;
      }
    }
  }

  /** `kadane_basic`: extend or restart at each element, keeping the best. */
  method KadaneBasic(nums: seq<int>) returns (r: int)
    ensures nums == [] ==> r == 0
    ensures nums != [] ==> MaxSubarraySum(nums, r)
  {
    if nums == [] {
      return 0;
    }
    var maxEndingHere := nums[0];
    var maxSoFar := nums[0];
    KadaneStart(nums);
    for i := 1 to |nums|
      invariant BestEndingAt(nums, i, maxEndingHere)
      invariant BestWithin(nums, i, maxSoFar)
    {
      ExtendEnding(nums, i, maxEndingHere);
      maxEndingHere := Max(maxEndingHere + nums[i], nums[i]);
      ExtendWithin(nums, i, maxSoFar, maxEndingHere);
      maxSoFar := Max(maxSoFar, maxEndingHere);
    }
    return maxSoFar;
  }

  /** `kadane_with_indices`: as `KadaneBasic`, also reporting the inclusive
      bounds of a best subarray, and `(0, -1, -1)` on an empty list. */
  method KadaneWithIndices(nums: seq<int>) returns (r: int, start: int, end: int)
    ensures nums == [] ==> r == 0 && start == -1 && end == -1
    ensures nums != [] ==> 0 <= start <= end < |nums| && Sum(nums, start, end + 1) == r
    ensures nums != [] ==> MaxSubarraySum(nums, r)
  {
    if nums == [] {
      return 0, -1, -1;
    }
    var maxEndingHere := nums[0];
    var maxSoFar := nums[0];
    start, end := 0, 0;
    var tempStart := 0;
    KadaneStart(nums);
    assert Sum(nums, 0, 1) == nums[0];
    for i := 1 to |nums|
      invariant 0 <= tempStart < i && Sum(nums, tempStart, i) == maxEndingHere
      invariant 0 <= start <= end < i && Sum(nums, start, end + 1) == maxSoFar
      invariant BestEndingAt(nums, i, maxEndingHere)
      invariant BestWithin(nums, i, maxSoFar)
    {
      ExtendEnding(nums, i, maxEndingHere);
      if nums[i] > maxEndingHere + nums[i] {
        maxEndingHere := nums[i];
        tempStart := i;
        assert Sum(nums, i, i + 1) == nums[i];
      } else {
        maxEndingHere := maxEndingHere + nums[i];
      }
      ExtendWithin(nums, i, maxSoFar, maxEndingHere);
      if maxEndingHere > maxSoFar {
        maxSoFar := maxEndingHere;
        start := tempStart;
        end := i;
      }
    }
    r := maxSoFar;
  }

  /** Python's `max` of a nonempty list. */
  function SeqMax(t: seq<int>): (m: int)
    requires |t| > 0
    ensures (exists k :: 0 <= k < |t| && t[k] == m) && forall k :: 0 <= k < |t| ==> t[k] <= m
  {
    if |t| == 1 then t[0] else Max(SeqMax(t[..|t| - 1]), t[|t| - 1])
  }

  /** If entry `k` of `dp` is the best sum ending at index `k`, for every `k`,
      then the largest entry is the maximum subarray sum. */
  lemma {:induction false} BestOfEndings(s: seq<int>, dp: seq<int>, n: int)
    requires 0 < n <= |dp| == |s|
    requires forall k :: 0 <= k < n ==> BestEndingAt(s, k + 1, dp[k])
    ensures BestWithin(s, n, SeqMax(dp[..n]))
  {
    if n == 1 {
      var lo :| 0 <= lo < 1 && Sum(s, lo, 1) == dp[0];
      assert dp[..1] == [dp[0]];
    } else {
      BestOfEndings(s, dp, n - 1);
      assert dp[..n][..n - 1] == dp[..n - 1];
      ExtendWithin(s, n - 1, SeqMax(dp[..n - 1]), dp[n - 1]);
    }
  }

  /** `kadane_dp_table`: `dp[i]` holds the best sum ending at `i`; the answer
      is the largest entry. */
  method KadaneDpTable(nums: seq<int>) returns (r: int)
    ensures nums == [] ==> r == 0
    ensures nums != [] ==> MaxSubarraySum(nums, r)
  {
    if nums == [] {
      return 0;
    }
    var n := |nums|;
    var dp := new int[n];
    dp[0] := nums[0];
    KadaneStart(nums);
    for i := 1 to n
      invariant forall k :: 0 <= k < i ==> BestEndingAt(nums, k + 1, dp[k])
    {
      ExtendEnding(nums, i, dp[i - 1]);
      dp[i] := Max(dp[i - 1] + nums[i], nums[i]);
    }
    BestOfEndings(nums, dp[..], n);
    assert dp[..][..n] == dp[..];
    r := SeqMax(dp[..]);
  }

  /** The running maximum of the enumeration, where `NegInf` stands for the
      starting value `float('-inf')`. */
  datatype Running = NegInf | Fin(v: int)

  function MaxRunning(m: Running, c: int): (m': Running)
    ensures m'.Fin? && c <= m'.v && (m.Fin? ==> m.v <= m'.v)
    ensures m'.v == c || (m.Fin? && m'.v == m.v)
  {
    if m.Fin? && m.v >= c then m else Fin(c)
  }

  /** Subarray `[lo, hi)` comes before `(i, j)` in the enumeration: all
      subarrays starting before `i`, then those starting at `i` and ending
      by `j`. */
  predicate Enumerated(s: seq<int>, lo: int, hi: int, i: int, j: int) {
    0 <= lo < hi <= |s| && (lo < i || (lo == i && hi <= j))
  }

  /** `m` is the best sum among the subarrays enumerated before `(i, j)`,
      and still `NegInf` when there are none. */
  ghost predicate BestSoFar(s: seq<int>, i: int, j: int, m: Running) {
    && (forall lo, hi :: Enumerated(s, lo, hi, i, j) ==> m.Fin? && Sum(s, lo, hi) <= m.v)
    && (m.Fin? ==> exists lo, hi :: Enumerated(s, lo, hi, i, j) && Sum(s, lo, hi) == m.v)
  }

  lemma NaiveStep(s: seq<int>, i: int, j: int, m: Running)
    requires 0 <= i <= j < |s| && BestSoFar(s, i, j, m)
    ensures BestSoFar(s, i, j + 1, MaxRunning(m, Sum(s, i, j + 1)))
  {
    var m' := MaxRunning(m, Sum(s, i, j + 1));
    if m'.v == Sum(s, i, j + 1) {
      assert Enumerated(s, i, j + 1, i, j + 1);
    } else {
      var lo, hi :| Enumerated(s, lo, hi, i, j) && Sum(s, lo, hi) == m.v;
      assert Enumerated(s, lo, hi, i, j + 1);
    }
  }

  lemma NaiveNextStart(s: seq<int>, i: int, m: Running)
    requires 0 <= i < |s| && BestSoFar(s, i, |s|, m)
    ensures BestSoFar(s, i + 1, i + 1, m)
  {
    forall lo, hi | Enumerated(s, lo, hi, i + 1, i + 1)
      ensures Enumerated(s, lo, hi, i, |s|)
    {
    }
    if m.Fin? {
      var lo, hi :| Enumerated(s, lo, hi, i, |s|) && Sum(s, lo, hi) == m.v;
      assert Enumerated(s, lo, hi, i + 1, i + 1);
    }
  }

  /** `naive_approach`: the running maximum over every subarray, each sum
      grown one element at a time. */
  method NaiveApproach(nums: seq<int>) returns (r: int)
    ensures nums == [] ==> r == 0
    ensures nums != [] ==> MaxSubarraySum(nums, r)
  {
    if nums == [] {
      return 0;
    }
    var maxSum := NegInf;
    for i := 0 to |nums|
      invariant BestSoFar(nums, i, i, maxSum)
    {
      var currSum := 0;
      for j := i to |nums|
        invariant currSum == Sum(nums, i, j)
        invariant BestSoFar(nums, i, j, maxSum)
      {
        currSum := currSum + nums[j];
        NaiveStep(nums, i, j, maxSum);
        maxSum := MaxRunning(maxSum, currSum);
      }
      NaiveNextStart(nums, i, maxSum);
    }
    assert Enumerated(nums, 0, 1, |nums|, |nums|);
    forall lo, hi | 0 <= lo < hi <= |nums|
      ensures Sum(nums, lo, hi) <= maxSum.v
    {
      assert Enumerated(nums, lo, hi, |nums|, |nums|);
    }
    r := maxSum.v;
  }

  /** With every element negative, the best subarray is the single largest
      element. */
  lemma AllNegative(s: seq<int>, v: int)
    requires s != [] && forall k :: 0 <= k < |s| ==> s[k] < 0
    requires MaxSubarraySum(s, v)
    ensures v == SeqMax(s)
  {
    var lo, hi :| 0 <= lo < hi <= |s| && Sum(s, lo, hi) == v;
    NegativeSumAtMostLast(s, lo, hi);
    var k :| 0 <= k < |s| && s[k] == SeqMax(s);
    assert Sum(s, k, k + 1) == s[k];
  }

  lemma {:induction false} NegativeSumAtMostLast(s: seq<int>, lo: int, hi: int)
    requires 0 <= lo < hi <= |s| && forall k :: 0 <= k < |s| ==> s[k] < 0
    ensures Sum(s, lo, hi) <= s[hi - 1] && Sum(s, lo, hi) < 0
  {
    if hi - 1 > lo {
      NegativeSumAtMostLast(s, lo, hi - 1);
    }
  }
}
