/**
 The partitioner: each worker (UPC thread) `threadId` in `[0, n * n)` owns exactly
 one cell of the result matrix, the one at `row = threadId / n`,
 `column = threadId % n` in row-major order.
 */
module Partition {
  import Arith

  /** A cell of an `n`-by-`n` matrix. */
  datatype Coord = Coord(row: nat, column: nat)

  /** The cell is inside an `n`-by-`n` matrix. */
  predicate InRange(c: Coord, n: nat) {
    c.row < n && c.column < n
  }

  /** The row-major linear index of a cell. */
  function LinearIndex(c: Coord, n: nat): (i: nat)
    requires InRange(c, n)
    ensures i < n * n
  {
    Arith.LinearIndexBound(c.row, c.column, n);
    c.row * n + c.column
  }

  /** The cell owned by worker `threadId`: its row and column both lie in
      `[0, n)` and together they recover the worker's linear index. */
  function CellOf(threadId: nat, n: nat): (c: Coord)
    requires 0 < n
    requires threadId < n * n
    ensures InRange(c, n)
    ensures c.row * n + c.column == threadId
  {
    Arith.QuotientBound(threadId, n);
    Coord(threadId / n, threadId % n)
  }

  /** `CellOf` inverts `LinearIndex`: distinct workers own distinct cells and every
      cell has an owner, so the result matrix has exactly one writer per cell. */
  lemma CellOfLinearIndex(c: Coord, n: nat)
    requires InRange(c, n)
    ensures CellOf(LinearIndex(c, n), n) == c
  {
    Arith.DivModUnique(LinearIndex(c, n), n, c.row, c.column);
  }
}
