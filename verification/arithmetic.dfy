/** Facts about Euclidean division that the clock and cycle arithmetic rely on. */
module Arithmetic {

  /** A positive multiple of a positive number is at least that number. */
  lemma MultipleAtLeast(d: int, n: int)
    requires d >= 1 && n > 0
    ensures d * n >= n
  {
  }

  /** Quotient and remainder are determined by any decomposition `a == q * n + r` with `0 <= r < n`. */
  lemma ModOfDecomposition(a: int, n: int, q: int, r: int)
    requires n > 0 && 0 <= r < n && a == q * n + r
    ensures a % n == r && a / n == q
  {
    var d := a / n - q;
    assert d * n == r - a % n;
    if d > 0 {
      MultipleAtLeast(d, n);
    } else if d < 0 {
      MultipleAtLeast(-d, n);
    }
  }

  /** For `0 <= a < 2n`, reducing modulo `n` subtracts `n` at most once. */
  lemma ModOnce(a: int, n: int)
    requires n > 0 && 0 <= a < 2 * n
    ensures a % n == if a < n then a else a - n
  {
    if a < n {
      ModOfDecomposition(a, n, 0, a);
    } else {
      ModOfDecomposition(a, n, 1, a - n);
    }
  }

  /** Shifting by `k` whole periods leaves the remainder unchanged. */
  lemma ModShift(a: int, n: int, k: int)
    requires n > 0
    ensures (a + k * n) % n == a % n
  {
    var q := a / n;
    assert a == q * n + a % n;
    assert a + k * n == (q + k) * n + a % n;
    ModOfDecomposition(a + k * n, n, q + k, a % n);
  }

  /** Taking the cyclic successor commutes with reduction modulo `n`. */
  lemma ModSuccessor(a: int, n: int)
    requires n > 0
    ensures (if a % n + 1 < n then a % n + 1 else 0) == (a + 1) % n
  {
    var q := a / n;
    assert a == q * n + a % n;
    if a % n + 1 < n {
      ModOfDecomposition(a + 1, n, q, a % n + 1);
    } else {
      assert a + 1 == (q + 1) * n;
      ModOfDecomposition(a + 1, n, q + 1, 0);
    }
  }

  /** Adding `j` to `a` moves the remainder `j` steps forward around the cycle. */
  lemma ModAdvance(a: int, n: int, j: int)
    requires n > 0 && 0 <= j < n
    ensures (a + j) % n == if a % n + j < n then a % n + j else a % n + j - n
  {
    var q := a / n;
    assert a == q * n + a % n;
    if a % n + j < n {
      ModOfDecomposition(a + j, n, q, a % n + j);
    } else {
      ModOfDecomposition(a + j, n, q + 1, a % n + j - n);
    }
  }
}
