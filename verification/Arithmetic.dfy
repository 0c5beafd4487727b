/** Division with remainder, for the modules that count in blocks. */
module Arithmetic {

  lemma ProductAtLeast(k: int, n: int)
    requires k >= 1 && n >= 0
    ensures k * n >= n
  {
    assert k * n == (k - 1) * n + n;
    assert (k - 1) * n >= 0;
  }

  lemma ProductMonotone(p: nat, a: int, b: int)
    requires a <= b
    ensures p * a <= p * b
  {
    assert p * b == p * a + p * (b - a);
    if p > 0 && b > a {
      ProductAtLeast(b - a, p);
      assert p * (b - a) == (b - a) * p;
    }
  }

  /** Quotient and remainder are unique. */
  lemma DivModUnique(x: int, q: int, r: int, n: int)
    requires n > 0 && 0 <= r < n && x == q * n + r
    ensures x / n == q && x % n == r
  {
    var q', r' := x / n, x % n;
    assert x == q' * n + r';
    assert (q' - q) * n == r - r';
    if q' > q {
      ProductAtLeast(q' - q, n);
    } else if q > q' {
      assert (q - q') * n == r' - r;
      ProductAtLeast(q - q', n);
    }
  }

  /** Counting one further either stays in the block or opens the next one. */
  lemma DivModStep(x: int, n: int)
    requires n > 0
    ensures if x % n + 1 < n then (x + 1) / n == x / n && (x + 1) % n == x % n + 1
            else (x + 1) / n == x / n + 1 && (x + 1) % n == 0
  {
    var q, r := x / n, x % n;
    assert x == q * n + r;
    if r + 1 < n {
      DivModUnique(x + 1, q, r + 1, n);
    } else {
      assert (q + 1) * n == q * n + n;
      DivModUnique(x + 1, q + 1, 0, n);
    }
  }
}
