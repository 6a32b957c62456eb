/**
 Facts about Euclidean division and remainder by a positive dimension `n`.
 Every index computation of the kernel (row = id / n, column = id % n, the
 cyclic cursors `(x + 1) % n`) reduces to these.
 */
module Arith {

  /** Division and remainder are determined by any decomposition `a == q * n + r`
      whose remainder lies in `[0, n)`. */
  lemma DivModUnique(a: int, n: int, q: int, r: int)
    requires 0 < n
    requires 0 <= r < n
    requires a == q * n + r
    ensures a / n == q
    ensures a % n == r
  {
    var q0, r0 := a / n, a % n;
    assert a == q0 * n + r0;
    assert (q - q0) * n == r0 - r;
    SmallMultipleIsZero(q - q0, n);
  }

  /** The only multiple of `n` strictly between `-n` and `n` is zero. */
  lemma SmallMultipleIsZero(d: int, n: int)
    requires 0 < n
    requires -n < d * n < n
    ensures d == 0
  {
  }

  /** Adding a multiple of `n` does not change the remainder. */
  lemma ModAddMultiple(q: int, r: int, n: int)
    requires 0 < n
    ensures (q * n + r) % n == r % n
  {
    var r' := r % n;
    assert r == (r / n) * n + r';
    assert q * n + r == (q + r / n) * n + r';
    DivModUnique(q * n + r, n, q + r / n, r');
  }

  /** Reducing one summand modulo `n` first does not change the remainder of the sum. */
  lemma ModAddMod(x: int, y: int, n: int)
    requires 0 < n
    ensures (x % n + y) % n == (x + y) % n
  {
    assert x + y == (x / n) * n + (x % n + y);
    ModAddMultiple(x / n, x % n + y, n);
  }

  /** A value below `2 * n` is reduced by at most one subtraction of `n`. */
  lemma ModBelowTwice(v: int, n: int)
    requires 0 < n
    requires 0 <= v < 2 * n
    ensures v % n == if v < n then v else v - n
  {
    if v < n {
      DivModUnique(v, n, 0, v);
    } else {
      DivModUnique(v, n, 1, v - n);
    }
  }

  /** Stepping `k` to `k + 1` carries into the quotient exactly when the
      remainder was `n - 1`. */
  lemma DivModStep(k: nat, n: nat)
    requires 0 < n
    ensures (k + 1) / n == k / n + (if k % n == n - 1 then 1 else 0)
    ensures (k + 1) % n == (if k % n == n - 1 then 0 else k % n + 1)
  {
    var q, r := k / n, k % n;
    assert k == q * n + r;
    if r == n - 1 {
      DivModUnique(k + 1, n, q + 1, 0);
    } else {
      DivModUnique(k + 1, n, q, r + 1);
    }
  }

  /** A row-major linear index `row * n + column` of an in-range cell lies in `[0, n * n)`. */
  lemma LinearIndexBound(row: nat, column: nat, n: nat)
    requires row < n && column < n
    ensures row * n + column < n * n
  {
    assert row * n <= (n - 1) * n;
  }

  /** The quotient of an index below `n * n` is below `n`. */
  lemma QuotientBound(id: nat, n: nat)
    requires 0 < n
    requires id < n * n
    ensures id / n < n
  {
  }
}
