/** Least-significant-digit radix sort over decimal digits, one stable
    bucket pass per digit position (sorting-and-searching/radix_sort.py). */
module RadixSorting {
  import opened Sortedness
  import opened Wrappers
  import opened Arithmetic

  function Pow10(n: nat): (p: int)
    ensures p >= 1
  {
    if n == 0 then 1 else 10 * Pow10(n - 1)
  }

  /** The decimal digit of `num` at `position` (0 is the units digit).
      Python's `//` and `%` by a positive divisor floor, which is what
      Dafny's `/` and `%` do, so negative numbers get the same digit. */
  function GetDigit(num: int, position: nat): (d: int)
    ensures 0 <= d <= 9
  {
    (num / Pow10(position)) % 10
  }

  /** Reducing modulo the next power of ten keeps one more digit:
      the digit at `position` scaled up, plus the lower digits. */
  lemma ModSplit(x: int, position: nat)
    ensures x % Pow10(position + 1) == GetDigit(x, position) * Pow10(position) + x % Pow10(position)
    ensures x / Pow10(position + 1) == x / Pow10(position) / 10
  {
    var p := Pow10(position);
    var q, r := x / p, x % p;
    var d, q' := q % 10, q / 10;
    assert x == q' * (10 * p) + (d * p + r) by {
      assert q == q' * 10 + d;
      assert x == q * p + r;
    }
    assert d * p <= 9 * p;
    DivModUnique(x, 10 * p, q', d * p + r);
  }

  /** `GetDigit` is the decimal digit: for a non-negative number it is the
      quotient of the number's last `position + 1` digits by `10^position`. */
  lemma GetDigitIsDecimalDigit(num: int, position: nat)
    ensures GetDigit(num, position) == num % Pow10(position + 1) / Pow10(position)
    ensures num == num / Pow10(position + 1) * Pow10(position + 1)
                   + GetDigit(num, position) * Pow10(position) + num % Pow10(position)
  {
    var p := Pow10(position);
    ModSplit(num, position);
    DivModUnique(num % (10 * p), p, GetDigit(num, position), num % p);
  }

  /** Python's `max` of a non-empty list. */
  function Max(s: seq<int>): (m: int)
    requires |s| > 0
    ensures m in s && forall k :: 0 <= k < |s| ==> s[k] <= m
  {
    if |s| == 1 then s[0] else
      var rest := Max(s[1..]);
      assert s[1..][0] in s[1..];
      if s[0] >= rest then s[0] else rest
  }

  /** `n` is the number of decimal digits of `m`, counted as 0 when `m` has
      no positive value: `10^(n-1) <= m < 10^n`. */
  predicate DigitCount(m: int, n: nat) {
    if m <= 0 then n == 0 else 0 < n && Pow10(n - 1) <= m < Pow10(n)
  }

  /** The number of digits of the largest element; `max` fails on an empty
      list, which is `None` here. */
  method GetMaxDigits(arr: seq<int>) returns (r: Option<nat>)
    ensures r.None? <==> arr == []
    ensures r.Some? ==> DigitCount(Max(arr), r.value)
  {
    if arr == [] {
      return None;
    }
    var m := Max(arr);
    var maxNum := m;
    var numDigits: nat := 0;
    while maxNum > 0
      invariant m > 0 ==> maxNum == m / Pow10(numDigits)
      invariant m <= 0 ==> numDigits == 0 && maxNum == m
      invariant numDigits > 0 ==> Pow10(numDigits - 1) <= m
      decreases maxNum
    {
      ModSplit(m, numDigits);
      DivPositive(m, Pow10(numDigits));
      numDigits := numDigits + 1;
      maxNum := maxNum / 10;
    }
    if m > 0 {
      DivPositive(m, Pow10(numDigits));
    }
    return Some(numDigits);
  }

  /** For a positive divisor, a non-negative quotient is positive exactly when
      the dividend reaches the divisor. */
  lemma DivPositive(x: int, m: int)
    requires x >= 0 && m > 0
    ensures x / m > 0 <==> x >= m
  {
    if x < m {
      DivModUnique(x, m, 0, x);
    } else {
      DivModUnique(x - m, m, (x - m) / m, (x - m) % m);
      DivModUnique(x, m, (x - m) / m + 1, (x - m) % m);
    }
  }

  /** `s` is ordered by `key` (the sort key of a digit pass). */
  predicate SortedBy(s: seq<int>, key: int -> int) {
    forall k :: 0 < k < |s| ==> key(s[k - 1]) <= key(s[k])
  }

  /** The key "digit at `position`". */
  function DigitKey(position: nat): int -> int {
    x => GetDigit(x, position)
  }

  /** The key "last `n` decimal digits", i.e. the value modulo `10^n`. */
  function LowDigits(n: nat): int -> int {
    x => x % Pow10(n)
  }

  /** The elements of `s` whose digit at `position` is `d`, in their order in
      `s`: what the loop appends to bucket `d`. */
  function Bucket(s: seq<int>, position: nat, d: int): (b: seq<int>)
    ensures |b| <= |s|
    ensures forall k :: 0 <= k < |b| ==> GetDigit(b[k], position) == d
  {
    if s == [] then []
    else
      var last := s[|s| - 1];
      Bucket(s[..|s| - 1], position, d) + (if GetDigit(last, position) == d then [last] else [])
  }

  /** The ten buckets of one pass. */
  function Buckets(s: seq<int>, position: nat): (bs: seq<seq<int>>)
    ensures |bs| == 10
  {
    seq(10, d requires 0 <= d < 10 => Bucket(s, position, d))
  }

  /** The buckets concatenated in order (the flattening comprehension). */
  function Flatten(bs: seq<seq<int>>): seq<int> {
    if bs == [] then [] else Flatten(bs[..|bs| - 1]) + bs[|bs| - 1]
  }

  /** The outcome of one counting pass on the digit at `position`. */
  function ByDigit(s: seq<int>, position: nat): seq<int> {
    Flatten(Buckets(s, position))
  }

  /** One stable bucket pass on the digit at `position`. */
  method CountingSortByDigit(arr: seq<int>, position: nat) returns (out: seq<int>)
    ensures out == ByDigit(arr, position)
  {
    var buckets: seq<seq<int>> := seq(10, _ => []);
    for k := 0 to |arr|
      invariant |buckets| == 10
      invariant forall d :: 0 <= d < 10 ==> buckets[d] == Bucket(arr[..k], position, d)
    {
      var num := arr[k];
      var digAtPosition := GetDigit(num, position);
      assert arr[..k + 1][..k] == arr[..k];
      buckets := buckets[digAtPosition := buckets[digAtPosition] + [num]];
    }
    assert arr[..|arr|] == arr;
    assert buckets == Buckets(arr, position);
    out := Flatten(buckets);
  }

  /** Sorts by repeated digit passes, least significant first; fails (like
      `max`) on an empty list. Non-negative input comes back sorted. */
  method RadixSort(arr: seq<int>) returns (r: Option<seq<int>>)
    ensures r.None? <==> arr == []
    ensures r.Some? ==> multiset(r.value) == multiset(arr)
    ensures r.Some? && (forall k :: 0 <= k < |arr| ==> arr[k] >= 0) ==> Sorted(r.value)
  {
    var maxDigit := GetMaxDigits(arr);
    if maxDigit.None? {
      return None;
    }
    var s := arr;
    for i := 0 to maxDigit.value
      invariant multiset(s) == multiset(arr)
      invariant SortedBy(s, LowDigits(i))
    {
      RadixPass(s, i);
      ByDigitPermutation(s, i);
      s := CountingSortByDigit(s, i);
    }
    if forall k :: 0 <= k < |arr| ==> arr[k] >= 0 {
      AllDigitsSorted(arr, s, maxDigit.value);
    }
    return Some(s);
  }

  /** Before the first pass every order counts as sorted on zero digits. */
  lemma SortedOnNoDigits(s: seq<int>)
    ensures SortedBy(s, LowDigits(0))
  {
  }

  /** Once a non-negative list is ordered on as many digits as its maximum
      has, it is sorted. */
  lemma AllDigitsSorted(arr: seq<int>, s: seq<int>, n: nat)
    requires arr != [] && DigitCount(Max(arr), n)
    requires forall k :: 0 <= k < |arr| ==> arr[k] >= 0
    requires multiset(s) == multiset(arr) && SortedBy(s, LowDigits(n))
    ensures Sorted(s)
  {
    forall k | 0 <= k < |s|
      ensures s[k] % Pow10(n) == s[k]
    {
      assert s[k] in multiset(arr);
      DivModUnique(s[k], Pow10(n), 0, s[k]);
    }
  }

  /** `Flatten` grows one bucket at a time. */
  lemma FlattenStep(bs: seq<seq<int>>, n: nat)
    requires n < |bs|
    ensures Flatten(bs[..n + 1]) == Flatten(bs[..n]) + bs[n]
  {
    assert bs[..n + 1][..n] == bs[..n];
  }

  lemma {:induction false} FlattenEmpty(bs: seq<seq<int>>)
    requires forall d :: 0 <= d < |bs| ==> bs[d] == []
    ensures Flatten(bs) == []
  {
    if bs != [] {
      FlattenEmpty(bs[..|bs| - 1]);
    }
  }

  /** Appending to one bucket adds exactly that element to the flattening. */
  lemma {:induction false} FlattenAppend(bs: seq<seq<int>>, d: int, x: int)
    requires 0 <= d < |bs|
    ensures multiset(Flatten(bs[d := bs[d] + [x]])) == multiset(Flatten(bs)) + multiset{x}
  {
    var bs' := bs[d := bs[d] + [x]];
    var n := |bs| - 1;
    var init, init' := bs[..n], bs'[..n];
    assert Flatten(bs) == Flatten(init) + bs[n];
    assert Flatten(bs') == Flatten(init') + bs'[n];
    if d == n {
      assert init' == init;
      assert multiset(bs'[n]) == multiset(bs[n]) + multiset{x};
    } else {
      assert init' == init[d := init[d] + [x]];
      FlattenAppend(init, d, x);
      assert bs'[n] == bs[n];
    }
  }

  /** A pass keeps every element: its result is a permutation of its input. */
  lemma {:induction false} ByDigitPermutation(s: seq<int>, position: nat)
    ensures multiset(ByDigit(s, position)) == multiset(s)
  {
    if s == [] {
      FlattenEmpty(Buckets(s, position));
    } else {
      var init, last := s[..|s| - 1], s[|s| - 1];
      var d := GetDigit(last, position);
      var bs := Buckets(init, position);
      BucketsSnoc(s, position);
      ByDigitPermutation(init, position);
      FlattenAppend(bs, d, last);
      MultisetSnoc(s);
    }
  }

  lemma MultisetSnoc(s: seq<int>)
    requires s != []
    ensures multiset(s) == multiset(s[..|s| - 1]) + multiset{s[|s| - 1]}
  {
    assert s == s[..|s| - 1] + [s[|s| - 1]];
  }

  /** The buckets of a list grow, from those of its prefix, by the last
      element in the bucket of its digit. */
  lemma BucketsSnoc(s: seq<int>, position: nat)
    requires s != []
    ensures var d := GetDigit(s[|s| - 1], position);
            var bs := Buckets(s[..|s| - 1], position);
            Buckets(s, position) == bs[d := bs[d] + [s[|s| - 1]]]
  {
    var d := GetDigit(s[|s| - 1], position);
    var bs := Buckets(s[..|s| - 1], position);
    forall e | 0 <= e < 10
      ensures Buckets(s, position)[e] == bs[d := bs[d] + [s[|s| - 1]]][e]
    {
    }
  }

  /** Every key of `t` lies in `[lo, hi)`. */
  predicate KeysIn(t: seq<int>, key: int -> int, lo: int, hi: int) {
    forall k :: 0 <= k < |t| ==> lo <= key(t[k]) < hi
  }

  /** Two ordered lists joined where the first's last key is at most the
      second's first key form an ordered list. */
  lemma SortedJoin(a: seq<int>, b: seq<int>, key: int -> int)
    requires SortedBy(a, key) && SortedBy(b, key)
    requires a != [] && b != [] ==> key(a[|a| - 1]) <= key(b[0])
    ensures SortedBy(a + b, key)
  {
    forall k | 0 < k < |a + b|
      ensures key((a + b)[k - 1]) <= key((a + b)[k])
    {
      if k < |a| {
        assert key(a[k - 1]) <= key(a[k]);
      } else if k > |a| {
        assert key(b[k - 1 - |a|]) <= key(b[k - |a|]);
      }
    }
  }

  /** Concatenating two ordered lists whose keys lie in adjacent ranges gives
      an ordered list with keys in the joined range. */
  lemma SortedConcat(a: seq<int>, b: seq<int>, key: int -> int, lo: int, mid: int, hi: int)
    requires lo <= mid <= hi
    requires SortedBy(a, key) && KeysIn(a, key, lo, mid)
    requires SortedBy(b, key) && KeysIn(b, key, mid, hi)
    ensures SortedBy(a + b, key) && KeysIn(a + b, key, lo, hi)
  {
    SortedJoin(a, b, key);
    forall k | 0 <= k < |a + b|
      ensures lo <= key((a + b)[k]) < hi
    {
      if k < |a| {
        assert lo <= key(a[k]) < mid;
      } else {
        assert mid <= key(b[k - |a|]) < hi;
      }
    }
  }

  /** The prefix of the flattened buckets holding the first `n` buckets. */
  function FirstBuckets(s: seq<int>, position: nat, n: nat): seq<int>
    requires n <= 10
  {
    Flatten(Buckets(s, position)[..n])
  }

  /** The pass result lists the elements in order of their digit. */
  lemma ByDigitOrdered(s: seq<int>, position: nat)
    ensures SortedBy(ByDigit(s, position), DigitKey(position))
  {
    FirstBucketsOrdered(s, position, 10);
    assert Buckets(s, position)[..10] == Buckets(s, position);
  }

  lemma {:induction false} FirstBucketsOrdered(s: seq<int>, position: nat, n: nat)
    requires n <= 10
    ensures SortedBy(FirstBuckets(s, position, n), DigitKey(position))
    ensures KeysIn(FirstBuckets(s, position, n), DigitKey(position), 0, if n == 0 then 1 else n)
  {
    if n > 0 {
      var a, b := FirstBuckets(s, position, n - 1), Bucket(s, position, n - 1);
      FirstBucketsOrdered(s, position, n - 1);
      FlattenStep(Buckets(s, position), n - 1);
      assert FirstBuckets(s, position, n) == a + b;
      assert SortedBy(b, DigitKey(position)) && KeysIn(b, DigitKey(position), n - 1, n);
      if n == 1 {
        assert a == [];
      }
      SortedConcat(a, b, DigitKey(position), 0, n - 1, n);
    }
  }

  /** Stability: the elements with any one digit keep their relative order. */
  lemma ByDigitStable(s: seq<int>, position: nat, d: int)
    requires 0 <= d < 10
    ensures Bucket(ByDigit(s, position), position, d) == Bucket(s, position, d)
  {
    FirstBucketsStable(s, position, d, 10);
    assert Buckets(s, position)[..10] == Buckets(s, position);
  }

  lemma {:induction false} FirstBucketsStable(s: seq<int>, position: nat, d: int, n: nat)
    requires n <= 10 && 0 <= d < 10
    ensures Bucket(FirstBuckets(s, position, n), position, d) == if d < n then Bucket(s, position, d) else []
  {
    if n > 0 {
      var a, b := FirstBuckets(s, position, n - 1), Bucket(s, position, n - 1);
      FirstBucketsStable(s, position, d, n - 1);
      FlattenStep(Buckets(s, position), n - 1);
      assert FirstBuckets(s, position, n) == a + b;
      BucketConcat(a, b, position, d);
      BucketUniform(b, position, d, n - 1);
      if d < n - 1 {
        assert Bucket(a + b, position, d) == Bucket(s, position, d) + [];
      } else if d == n - 1 {
        assert Bucket(a + b, position, d) == [] + b;
      } else {
        assert Bucket(a + b, position, d) == [] + [];
      }
    }
  }

  /** Picking one digit's elements distributes over concatenation. */
  lemma {:induction false} BucketConcat(a: seq<int>, b: seq<int>, position: nat, d: int)
    ensures Bucket(a + b, position, d) == Bucket(a, position, d) + Bucket(b, position, d)
  {
    if b != [] {
      var init := b[..|b| - 1];
      assert (a + b)[..|a + b| - 1] == a + init;
      BucketConcat(a, init, position, d);
    } else {
      assert a + b == a;
    }
  }

  /** A list whose elements all have digit `e` is its own bucket for `e` and
      has an empty bucket for any other digit. */
  lemma {:induction false} BucketUniform(b: seq<int>, position: nat, d: int, e: int)
    requires forall k :: 0 <= k < |b| ==> GetDigit(b[k], position) == e
    ensures Bucket(b, position, d) == if d == e then b else []
  {
    if b != [] {
      var init := b[..|b| - 1];
      BucketUniform(init, position, d, e);
      if d == e {
        assert b == init + [b[|b| - 1]];
      }
    }
  }

  /** Picking out one digit's elements keeps any order on a key. */
  lemma {:induction false} BucketSorted(s: seq<int>, position: nat, d: int, key: int -> int)
    requires SortedBy(s, key)
    ensures SortedBy(Bucket(s, position, d), key)
  {
    if s != [] {
      var init, last := s[..|s| - 1], s[|s| - 1];
      var b := Bucket(init, position, d);
      SortedPrefix(s, key);
      BucketSorted(init, position, d, key);
      if GetDigit(last, position) == d {
        if b != [] {
          BucketAtMost(init, position, d, key);
          assert key(b[|b| - 1]) <= key(init[|init| - 1]);
        }
        SortedJoin(b, [last], key);
      } else {
        assert Bucket(s, position, d) == b + [];
      }
    }
  }

  /** A prefix of an ordered list is ordered. */
  lemma SortedPrefix(s: seq<int>, key: int -> int)
    requires s != [] && SortedBy(s, key)
    ensures SortedBy(s[..|s| - 1], key)
  {
    var init := s[..|s| - 1];
    forall k | 0 < k < |init|
      ensures key(init[k - 1]) <= key(init[k])
    {
      assert init[k - 1] == s[k - 1] && init[k] == s[k];
    }
  }

  /** In an ordered list no key exceeds the last one, so neither does any
      key in one of its buckets. */
  lemma {:induction false} BucketAtMost(s: seq<int>, position: nat, d: int, key: int -> int)
    requires s != [] && SortedBy(s, key)
    ensures forall k :: 0 <= k < |Bucket(s, position, d)| ==> key(Bucket(s, position, d)[k]) <= key(s[|s| - 1])
  {
    var init, last := s[..|s| - 1], s[|s| - 1];
    var b := Bucket(init, position, d);
    if init != [] {
      SortedPrefix(s, key);
      BucketAtMost(init, position, d, key);
      assert key(init[|init| - 1]) <= key(last);
    } else {
      assert b == [];
    }
    assert forall k :: 0 <= k < |b| ==> key(b[k]) <= key(last);
  }

  /** After the pass on the digit at position `i`, a list that was ordered on
      its last `i` digits is ordered on its last `i + 1`. */
  lemma RadixPass(s: seq<int>, i: nat)
    requires SortedBy(s, LowDigits(i))
    ensures SortedBy(ByDigit(s, i), LowDigits(i + 1))
  {
    FirstBucketsRadix(s, i, 10);
    assert Buckets(s, i)[..10] == Buckets(s, i);
  }

  lemma {:induction false} FirstBucketsRadix(s: seq<int>, i: nat, n: nat)
    requires n <= 10 && SortedBy(s, LowDigits(i))
    ensures SortedBy(FirstBuckets(s, i, n), LowDigits(i + 1))
  {
    if n > 0 {
      var a, b := FirstBuckets(s, i, n - 1), Bucket(s, i, n - 1);
      FirstBucketsRadix(s, i, n - 1);
      FlattenStep(Buckets(s, i), n - 1);
      assert FirstBuckets(s, i, n) == a + b;
      BucketSorted(s, i, n - 1, LowDigits(i));
      BucketLowDigits(b, i, n - 1);
      if a != [] && b != [] {
        FirstBucketsOrdered(s, i, n - 1);
        DigitOrderKeys(a[|a| - 1], b[0], i);
      }
      SortedJoin(a, b, LowDigits(i + 1));
    }
  }

  /** Within a bucket the digit is fixed, so order on `i` digits is order on
      `i + 1`. */
  lemma BucketLowDigits(b: seq<int>, i: nat, d: int)
    requires forall k :: 0 <= k < |b| ==> GetDigit(b[k], i) == d
    requires SortedBy(b, LowDigits(i))
    ensures SortedBy(b, LowDigits(i + 1))
  {
    forall k | 0 <= k < |b|
      ensures b[k] % Pow10(i + 1) == d * Pow10(i) + b[k] % Pow10(i)
    {
      ModSplit(b[k], i);
    }
  }

  /** A smaller digit at position `i` means a smaller value on the last
      `i + 1` digits, whatever the lower digits are. */
  lemma DigitOrderKeys(x: int, y: int, i: nat)
    requires GetDigit(x, i) < GetDigit(y, i)
    ensures x % Pow10(i + 1) < y % Pow10(i + 1)
  {
    var p, dx, dy := Pow10(i), GetDigit(x, i), GetDigit(y, i);
    ModSplit(x, i);
    ModSplit(y, i);
    assert x % p < p && 0 <= y % p;
    MulMono(dx + 1, dy, p);
    assert dx * p + p == (dx + 1) * p;
  }
}
