/** Rabin-Karp substring search: a polynomial hash of the pattern is compared
    with a rolling hash of each text window, and a hash hit is confirmed by
    comparing the characters
    (string-algorithms/rabin-karp-rolling-hash-string-search.py). */
module RabinKarpSearch {
  import opened Arithmetic

  /** The radix and modulus that `search` itself uses. */
  const Base: int := 256
  const Prime: int := 101

  /** A character's code point (Python's `ord`). */
  function Ord(c: char): int {
    c as int
  }

  function Pow(b: int, e: nat): int {
    if e == 0 then 1 else b * Pow(b, e - 1)
  }

  /** The polynomial value of `s[lo..hi]` in base 256, most significant
      character first, before reduction. */
  function Poly(s: seq<char>, lo: int, hi: int): int
    requires 0 <= lo <= hi <= |s|
    decreases hi - lo
  {
    if lo == hi then 0 else Poly(s, lo, hi - 1) * Base + Ord(s[hi - 1])
  }

  /** The hash of `s[lo..hi]`: its polynomial value modulo 101. */
  function Hash(s: seq<char>, lo: int, hi: int): (h: int)
    requires 0 <= lo <= hi <= |s|
    ensures 0 <= h < Prime
  {
    Poly(s, lo, hi) % Prime
  }

  /** `pattern` is a nonempty substring of `text` starting at `i`. */
  predicate IsOccurrence(text: seq<char>, pattern: seq<char>, i: int) {
    pattern != [] && 0 <= i && i + |pattern| <= |text| && text[i..i + |pattern|] == pattern
  }

  predicate StrictlyIncreasing(s: seq<int>) {
    forall k :: 0 < k < |s| ==> s[k - 1] < s[k]
  }

  /** The search object. Its constructor records a radix and a modulus, but
      `Search` uses the fixed `Base` and `Prime` whatever they are. */
  class RabinKarp {
    const base: int
    const prime: int

    constructor (base: int, prime: int)
      ensures this.base == base && this.prime == prime
    {
      this.base := base;
      this.prime := prime;
    }

    /** All start indices of `pattern` in `text`, in increasing order; none
        for an empty pattern or one longer than the text. */
    method Search(text: seq<char>, pattern: seq<char>) returns (result: seq<int>)
      ensures pattern == [] || |pattern| > |text| ==> result == []
      ensures forall k :: k in result <==> IsOccurrence(text, pattern, k)
      ensures StrictlyIncreasing(result)
    {
      if pattern == [] || |pattern| > |text| {
        return [];
      }
      var base, prime := 256, 101;
      var m, n := |text|, |pattern|;
      result := [];
      var patternHash, windowHash := 0, 0;
      for i := 0 to n
        invariant patternHash == Hash(pattern, 0, i) && windowHash == Hash(text, 0, i)
      {
        ModMulAdd(Poly(pattern, 0, i), base, Ord(pattern[i]), prime);
        ModMulAdd(Poly(text, 0, i), base, Ord(text[i]), prime);
        patternHash := (patternHash * base + Ord(pattern[i])) % prime;
        windowHash := (windowHash * base + Ord(text[i])) % prime;
      }
      var h := 1;
      for i := 0 to n - 1
        invariant h == Pow(Base, i) % Prime
      {
        ModMulAdd(Pow(Base, i), base, 0, prime);
        h := (h * base) % prime;
      }
      for i := 0 to m - n + 1
        invariant i + n <= m ==> windowHash == Hash(text, i, i + n)
        invariant forall k :: k in result <==> k < i && IsOccurrence(text, pattern, k)
        invariant StrictlyIncreasing(result)
        invariant forall k :: 0 <= k < |result| ==> result[k] < i
      {
        if windowHash == patternHash {
          if text[i..i + n] == pattern {
            result := result + [i];
          }
        } else {
          HashMismatch(text, pattern, i);
        }
        if i < m - n {
          RollHash(text, i, n);
          windowHash := (windowHash - Ord(text[i]) * h) % prime;
          windowHash := (windowHash * base + Ord(text[i + n])) % prime;
          // Python's `%` with a positive modulus is never negative, so the
          // correction below never fires.
          assert windowHash >= 0;
          if windowHash < 0 {
            windowHash := windowHash + prime;
          }
        }
      }
    }
  }

  /** Different hashes rule out a match, so skipping the character
      comparison on a hash miss loses no occurrence. */
  lemma HashMismatch(text: seq<char>, pattern: seq<char>, i: int)
    requires pattern != [] && 0 <= i && i + |pattern| <= |text|
    requires Hash(text, i, i + |pattern|) != Hash(pattern, 0, |pattern|)
    ensures !IsOccurrence(text, pattern, i)
  {
    if text[i..i + |pattern|] == pattern {
      forall k | 0 <= k < |pattern|
        ensures text[i + k] == pattern[k]
      {
        assert text[i..i + |pattern|][k] == text[i + k];
      }
      PolyAgree(text, i, pattern, |pattern|);
    }
  }

  /** A window equal to the pattern has the pattern's polynomial value. */
  lemma {:induction false} PolyAgree(s: seq<char>, lo: int, t: seq<char>, n: nat)
    requires 0 <= lo && lo + n <= |s| && n <= |t|
    requires forall k :: 0 <= k < n ==> s[lo + k] == t[k]
    ensures Poly(s, lo, lo + n) == Poly(t, 0, n)
  {
    if n > 0 {
      PolyAgree(s, lo, t, n - 1);
      assert s[lo + (n - 1)] == t[n - 1];
    }
  }

  /** The leading character of a window contributes its code point times
      `256^(length - 1)`. */
  lemma {:induction false} PolyFront(s: seq<char>, lo: int, hi: int)
    requires 0 <= lo < hi <= |s|
    ensures Poly(s, lo, hi) == Ord(s[lo]) * Pow(Base, hi - lo - 1) + Poly(s, lo + 1, hi)
  {
    if hi > lo + 1 {
      PolyFront(s, lo, hi - 1);
      var c, p := Ord(s[lo]), Pow(Base, hi - lo - 2);
      assert Pow(Base, hi - lo - 1) == Base * p;
      assert (c * p + Poly(s, lo + 1, hi - 1)) * Base == c * (Base * p) + Poly(s, lo + 1, hi - 1) * Base;
    }
  }

  /** Sliding the window one place: drop the leading character's
      contribution, shift, and add the new character. */
  lemma RollHash(text: seq<char>, i: int, n: int)
    requires 0 <= i && 0 < n && i + n < |text|
    ensures Hash(text, i + 1, i + 1 + n)
         == (((Hash(text, i, i + n) - Ord(text[i]) * (Pow(Base, n - 1) % Prime)) % Prime) * Base
             + Ord(text[i + n])) % Prime
  {
    var p, c, w := Poly(text, i, i + n), Ord(text[i]), Pow(Base, n - 1);
    PolyFront(text, i, i + n);
    assert Poly(text, i + 1, i + 1 + n) == (p - c * w) * Base + Ord(text[i + n]);
    ModSubMul(p, c, w, Prime);
    ModMulAdd(p - c * w, Base, Ord(text[i + n]), Prime);
  }
}
