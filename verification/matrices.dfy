/**
 Square integer matrices in row-major order and the canonical matrix product,
 the reference the rotated kernel is proved against. A matrix of dimension `n`
 is a sequence of `n * n` integers; element `(row, column)` sits at index
 `row * n + column`.
 */
module Matrices {
  import Arith
  import opened Partition

  /** `m` holds exactly the `n * n` elements of an `n`-by-`n` matrix. */
  predicate IsSquare(m: seq<int>, n: nat) {
    |m| == n * n
  }

  /** The sum of a sequence, adding the last element last (the order in which the
      kernel accumulates). */
  function Sum(s: seq<int>): int {
    if |s| == 0 then 0 else Sum(s[..|s| - 1]) + s[|s| - 1]
  }

  /** Summing a concatenation sums the parts. */
  lemma {:induction false} SumConcat(s: seq<int>, t: seq<int>)
    ensures Sum(s + t) == Sum(s) + Sum(t)
  {
    if |t| == 0 {
      assert s + t == s;
    } else {
      var t' := t[..|t| - 1];
      assert (s + t)[..|s + t| - 1] == s + t';
      SumConcat(s, t');
    }
  }

  /** The `k`-th product of row `c.row` of `a` with column `c.column` of `b`. */
  function Term(a: seq<int>, b: seq<int>, n: nat, c: Coord, k: nat): int
    requires IsSquare(a, n) && IsSquare(b, n)
    requires InRange(c, n) && k < n
  {
    Arith.LinearIndexBound(c.row, k, n);
    Arith.LinearIndexBound(k, c.column, n);
    a[c.row * n + k] * b[k * n + c.column]
  }

  /** The `n` products of the dot product for cell `c`, in canonical order `k = 0 .. n-1`. */
  function Terms(a: seq<int>, b: seq<int>, n: nat, c: Coord): seq<int>
    requires IsSquare(a, n) && IsSquare(b, n)
    requires InRange(c, n)
  {
    seq(n, k requires 0 <= k < n => Term(a, b, n, c, k))
  }

  /** The canonical dot product `Σ_{k < n} a[row*n + k] * b[k*n + column]`. */
  function Dot(a: seq<int>, b: seq<int>, n: nat, c: Coord): int
    requires IsSquare(a, n) && IsSquare(b, n)
    requires InRange(c, n)
  {
    Sum(Terms(a, b, n, c))
  }

  /** The matrix product of `a` and `b`: the cell owned by worker `i` is the dot
      product of its row of `a` with its column of `b`. */
  function Product(a: seq<int>, b: seq<int>, n: nat): (p: seq<int>)
    requires 0 < n
    requires IsSquare(a, n) && IsSquare(b, n)
    ensures IsSquare(p, n)
  {
    seq(n * n, i requires 0 <= i < n * n => Dot(a, b, n, CellOf(i, n)))
  }

  /** Cell `(row, column)` of the product is row `row` of `a` times column `column` of `b`. */
  lemma ProductAt(a: seq<int>, b: seq<int>, n: nat, c: Coord)
    requires 0 < n
    requires IsSquare(a, n) && IsSquare(b, n)
    requires InRange(c, n)
    ensures Product(a, b, n)[LinearIndex(c, n)] == Dot(a, b, n, c)
  {
    CellOfLinearIndex(c, n);
  }
}
