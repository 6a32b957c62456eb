/**
 The shift engine: the body of the `upc_forall` in `main`. Worker `threadId`
 walks row `row` of A and column `column` of B with two cyclic cursors that
 start at `(row + column) % n` and are advanced by one (modulo `n`) before each
 of the `n` products is accumulated into the worker's own result cell.
 */
module ShiftEngine {
  import Arith
  import opened Partition
  import opened Matrices

  /** The two cursors of a worker: the column of A and the row of B it reads next. */
  datatype Cursors = Cursors(aMatrixColumn: nat, bMatrixRow: nat)

  /** Initial cursors of the worker owning cell `c`. */
  function Start(c: Coord, n: nat): Cursors
    requires 0 < n
  {
    Cursors((c.column + c.row) % n, (c.row + c.column) % n)
  }

  /** One shift step: both cursors move one place to the right, wrapping at `n`. */
  function Advance(cur: Cursors, n: nat): Cursors
    requires 0 < n
  {
    Cursors((cur.aMatrixColumn + 1) % n, (cur.bMatrixRow + 1) % n)
  }

  /** The cursors after `k` shift steps. */
  function AfterShifts(c: Coord, n: nat, k: nat): Cursors
    requires 0 < n
  {
    if k == 0 then Start(c, n) else Advance(AfterShifts(c, n, k - 1), n)
  }

  /** The cursors never disagree, stay inside `[0, n)`, and after `k` steps both
      equal `(row + column + k) % n`. */
  lemma {:induction false} CursorsAfterShifts(c: Coord, n: nat, k: nat)
    requires 0 < n
    ensures AfterShifts(c, n, k).aMatrixColumn == AfterShifts(c, n, k).bMatrixRow
    ensures AfterShifts(c, n, k).aMatrixColumn == (c.row + c.column + k) % n
    ensures AfterShifts(c, n, k).aMatrixColumn < n
  {
    if k > 0 {
      CursorsAfterShifts(c, n, k - 1);
      Arith.ModAddMod(c.row + c.column + k - 1, 1, n);
    }
  }

  /** The column of A (equally, the row of B) read at 0-based step `shift`. */
  function Offset(c: Coord, n: nat, shift: nat): nat
    requires 0 < n
  {
    (c.row + c.column + shift + 1) % n
  }

  /** The offset used at step `shift` is the cursor value after `shift + 1` advances. */
  lemma OffsetIsAdvancedCursor(c: Coord, n: nat, shift: nat)
    requires 0 < n
    ensures Offset(c, n, shift) == AfterShifts(c, n, shift + 1).aMatrixColumn
    ensures Offset(c, n, shift) == AfterShifts(c, n, shift + 1).bMatrixRow
  {
    CursorsAfterShifts(c, n, shift + 1);
  }

  /** The offset at step `shift` is `(start + shift) % n` for the first offset `start`. */
  lemma OffsetFromStart(c: Coord, n: nat, shift: nat)
    requires 0 < n
    ensures Offset(c, n, shift) == (Offset(c, n, 0) + shift) % n
  {
    Arith.ModAddMod(c.row + c.column + 1, shift, n);
  }

  /** The offsets of the `n` steps, in step order. */
  function Offsets(c: Coord, n: nat): seq<nat>
    requires 0 < n
  {
    seq(n, shift requires 0 <= shift < n => Offset(c, n, shift))
  }

  /** Two different steps never use the same offset. */
  lemma OffsetsDistinct(c: Coord, n: nat, s: nat, t: nat)
    requires 0 < n
    requires s < t < n
    ensures Offset(c, n, s) != Offset(c, n, t)
  {
    var start := Offset(c, n, 0);
    OffsetFromStart(c, n, s);
    OffsetFromStart(c, n, t);
    Arith.ModBelowTwice(start + s, n);
    Arith.ModBelowTwice(start + t, n);
  }

  /** The step at which the offset is `v`. */
  lemma OffsetReaches(c: Coord, n: nat, v: nat) returns (s: nat)
    requires 0 < n
    requires v < n
    ensures s < n
    ensures Offset(c, n, s) == v
  {
    var start := Offset(c, n, 0);
    s := if start <= v then v - start else v - start + n;
    OffsetFromStart(c, n, s);
    Arith.ModBelowTwice(start + s, n);
  }

  /** Over the `n` steps the offsets visit every value of `[0, n)` exactly once:
      they stay in range, no two steps share an offset, and every value is hit. */
  lemma OffsetsArePermutation(c: Coord, n: nat)
    requires 0 < n
    ensures |Offsets(c, n)| == n
    ensures forall s :: 0 <= s < n ==> Offsets(c, n)[s] < n
    ensures forall s, t :: 0 <= s < t < n ==> Offsets(c, n)[s] != Offsets(c, n)[t]
    ensures forall v :: 0 <= v < n ==> v in Offsets(c, n)
  {
    var offs := Offsets(c, n);
    forall s, t | 0 <= s < t < n
      ensures offs[s] != offs[t]
    {
      OffsetsDistinct(c, n, s, t);
    }
    forall v | 0 <= v < n
      ensures v in offs
    {
      var s := OffsetReaches(c, n, v);
      assert offs[s] == v;
    }
  }

  /** Every index the kernel reads is in bounds: `row*n + offset` for A and
      `offset*n + column` for B both lie in `[0, n * n)`. */
  lemma KernelIndicesInBounds(c: Coord, n: nat, shift: nat)
    requires 0 < n
    requires InRange(c, n)
    ensures c.row * n + Offset(c, n, shift) < n * n
    ensures Offset(c, n, shift) * n + c.column < n * n
  {
    Arith.LinearIndexBound(c.row, Offset(c, n, shift), n);
    Arith.LinearIndexBound(Offset(c, n, shift), c.column, n);
  }

  /** `s` rotated left by `k` places. */
  function Rotate(s: seq<int>, k: nat): seq<int>
    requires k <= |s|
  {
    s[k..] + s[..k]
  }

  /** Rotating a sequence does not change its sum. */
  lemma SumRotate(s: seq<int>, k: nat)
    requires k <= |s|
    ensures Sum(Rotate(s, k)) == Sum(s)
  {
    SumConcat(s[k..], s[..k]);
    SumConcat(s[..k], s[k..]);
    assert s[..k] + s[k..] == s;
  }

  /** The `n` products in the order the kernel accumulates them. */
  function RotatedTerms(a: seq<int>, b: seq<int>, n: nat, c: Coord): seq<int>
    requires 0 < n
    requires IsSquare(a, n) && IsSquare(b, n)
    requires InRange(c, n)
  {
    seq(n, shift requires 0 <= shift < n => Term(a, b, n, c, Offset(c, n, shift)))
  }

  /** The kernel's order is the canonical order rotated by the first offset. */
  lemma RotatedTermsAreRotation(a: seq<int>, b: seq<int>, n: nat, c: Coord)
    requires 0 < n
    requires IsSquare(a, n) && IsSquare(b, n)
    requires InRange(c, n)
    ensures RotatedTerms(a, b, n, c) == Rotate(Terms(a, b, n, c), Offset(c, n, 0))
  {
    var t := Terms(a, b, n, c);
    var start := Offset(c, n, 0);
    var r := Rotate(t, start);
    forall s | 0 <= s < n
      ensures RotatedTerms(a, b, n, c)[s] == r[s]
    {
      OffsetFromStart(c, n, s);
      Arith.ModBelowTwice(start + s, n);
    }
  }

  /** The rotated accumulation equals the canonical dot product: the product of
      row `row` of A with column `column` of B, whatever the starting offset. */
  lemma RotatedSumIsDot(a: seq<int>, b: seq<int>, n: nat, c: Coord)
    requires 0 < n
    requires IsSquare(a, n) && IsSquare(b, n)
    requires InRange(c, n)
    ensures Sum(RotatedTerms(a, b, n, c)) == Dot(a, b, n, c)
  {
    RotatedTermsAreRotation(a, b, n, c);
    SumRotate(Terms(a, b, n, c), Offset(c, n, 0));
  }

  /** One shift step of worker `c` at 0-based step `shift`, stated over the
      kernel's own variables: advancing the cursor gives the step's offset, both
      linear indices are in bounds, and the product read is the step's term. */
  lemma ShiftStep(a: seq<int>, b: seq<int>, n: nat, c: Coord, rowDimension: int, shift: nat, cursor: int)
    requires 0 < n
    requires IsSquare(a, n) && IsSquare(b, n)
    requires InRange(c, n) && shift < n
    requires rowDimension == c.row * n
    requires cursor == (c.row + c.column + shift) % n
    ensures (cursor + 1) % n == Offset(c, n, shift)
    ensures 0 <= rowDimension + (cursor + 1) % n < |a|
    ensures 0 <= (cursor + 1) % n * n + c.column < |b|
    ensures a[rowDimension + (cursor + 1) % n] * b[(cursor + 1) % n * n + c.column]
         == RotatedTerms(a, b, n, c)[shift]
  {
    Arith.ModAddMod(c.row + c.column + shift, 1, n);
    var offset := (cursor + 1) % n;
    assert offset == Offset(c, n, shift);
    ReadsAtOffset(a, b, n, c, shift, offset);
  }

  /** The reads of step `shift`, given its offset. */
  lemma ReadsAtOffset(a: seq<int>, b: seq<int>, n: nat, c: Coord, shift: nat, offset: nat)
    requires 0 < n
    requires IsSquare(a, n) && IsSquare(b, n)
    requires InRange(c, n) && shift < n
    requires offset == Offset(c, n, shift)
    ensures c.row * n + offset < |a|
    ensures offset * n + c.column < |b|
    ensures a[c.row * n + offset] * b[offset * n + c.column] == RotatedTerms(a, b, n, c)[shift]
  {
    KernelIndicesInBounds(c, n, shift);
  }

  /** One body of the `upc_forall`, as worker `threadId` runs it: it adds the
      product of its row of A and its column of B into `result[threadId]` and
      leaves every other cell alone. */
  method ShiftAccumulate(a: seq<int>, b: seq<int>, n: nat, threadId: nat, result: seq<int>)
    returns (result': seq<int>)
    requires 0 < n
    requires IsSquare(a, n) && IsSquare(b, n) && IsSquare(result, n)
    requires threadId < n * n
    ensures |result'| == |result|
    ensures result'[threadId] == result[threadId] + Dot(a, b, n, CellOf(threadId, n))
    ensures forall i :: 0 <= i < |result| && i != threadId ==> result'[i] == result[i]
    ensures result' == result[threadId := result[threadId] + Dot(a, b, n, CellOf(threadId, n))]
  {
    ghost var cell := CellOf(threadId, n);
    var row := threadId / n;
    var column := threadId % n;
    var aMatrixColumn: nat := (column + row) % n;
    var bMatrixRow: nat := (row + column) % n;
    var rowDimension := row * n;
    assert cell.row == row && cell.column == column;
    ghost var terms := RotatedTerms(a, b, n, cell);
    result' := result;
    var shift := 0;
    while shift < n
      invariant shift <= n
      invariant Cursors(aMatrixColumn, bMatrixRow) == AfterShifts(cell, n, shift)
      invariant |result'| == |result|
      invariant result'[threadId] == result[threadId] + Sum(terms[..shift])
      invariant forall i :: 0 <= i < |result| && i != threadId ==> result'[i] == result[i]
    {
      CursorsAfterShifts(cell, n, shift);
      ShiftStep(a, b, n, cell, rowDimension, shift, aMatrixColumn);
      aMatrixColumn := (aMatrixColumn + 1) % n;
      bMatrixRow := (bMatrixRow + 1) % n;
      var indexA := rowDimension + aMatrixColumn;
      var indexB := bMatrixRow * n + column;
      assert Sum(terms[..shift + 1]) == Sum(terms[..shift]) + terms[shift] by {
        assert terms[..shift + 1][..shift] == terms[..shift];
      }
      result' := result'[threadId := result'[threadId] + a[indexA] * b[indexB]];
      shift := shift + 1;
    }
    assert terms[..n] == terms;
    RotatedSumIsDot(a, b, n, cell);
    assert result' == result[threadId := result[threadId] + Dot(a, b, n, cell)];
  }
}
