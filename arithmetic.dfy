/** Facts about integer multiplication, division and remainder that the
    digit and hash computations rely on. Dafny's `/` and `%` are Euclidean;
    for a positive divisor they agree with Python's flooring `//` and `%`. */
module Arithmetic {
  /** Division with a remainder in `[0, m)` has exactly one answer. */
  lemma DivModUnique(x: int, m: int, a: int, b: int)
    requires m > 0 && x == a * m + b && 0 <= b < m
    ensures x / m == a && x % m == b
  {
    var q, r := x / m, x % m;
    var k := a - q;
    assert k * m == r - b by {
      assert a * m - q * m == k * m;
    }
    if k >= 1 {
      MulAtLeast(k, m);
    } else if k <= -1 {
      MulAtLeast(-k, m);
    }
  }

  lemma MulSucc(n: int, p: int)
    ensures (n - 1) * p + p == n * p
  {
  }

  lemma MulAtLeast(k: int, m: int)
    requires k >= 1 && m > 0
    ensures k * m >= m
  {
    assert k * m == (k - 1) * m + m;
  }

  lemma MulMono(a: int, b: int, p: int)
    requires a <= b && p > 0
    ensures a * p <= b * p
  {
    assert b * p - a * p == (b - a) * p;
  }

  /** Adding a multiple of the modulus does not change the remainder. */
  lemma ModAddMultiple(x: int, k: int, m: int)
    requires m > 0
    ensures (x + k * m) % m == x % m
  {
    DivModUnique(x + k * m, m, x / m + k, x % m);
  }

  /** Reducing a factor first does not change a remainder. */
  lemma ModMulAdd(a: int, b: int, c: int, m: int)
    requires m > 0
    ensures (a % m * b + c) % m == (a * b + c) % m
  {
    var q, r := a / m, a % m;
    assert a * b == r * b + (q * b) * m by {
      assert a == q * m + r;
    }
    ModAddMultiple(r * b + c, q * b, m);
  }

  /** Reducing both terms of `a - c * w` first does not change its remainder. */
  lemma ModSubMul(a: int, c: int, w: int, m: int)
    requires m > 0
    ensures (a % m - c * (w % m)) % m == (a - c * w) % m
  {
    var qa, qw := a / m, w / m;
    assert a - c * w == (a % m - c * (w % m)) + (qa - c * qw) * m by {
      assert a == qa * m + a % m;
      assert w == qw * m + w % m;
      assert c * w == c * (w % m) + (c * qw) * m;
    }
    ModAddMultiple(a % m - c * (w % m), qa - c * qw, m);
  }
}
