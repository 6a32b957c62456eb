/**
 The compute phase of `main`: the `upc_forall` over all worker ids, each body
 reading and writing only the result cell the worker owns. Because each body
 touches no other result cell, reads only A and B, which no body writes, and
 each cell has a single writer, the phase is modelled as the bodies run one
 after another; the order does not matter, which `AnyScheduleComputesProduct`
 proves.
 */
module Compute {
  import opened Partition
  import opened Matrices
  import opened ShiftEngine

  /** The result matrix as the compute phase finds it: shared arrays start zeroed. */
  function Zeros(n: nat): seq<int> {
    seq(n * n, _ => 0)
  }

  /** The effect of worker `id`'s body on the result matrix: exactly the result
      that `ShiftAccumulate` is proved to return. */
  function RunBody(a: seq<int>, b: seq<int>, n: nat, result: seq<int>, id: nat): seq<int>
    requires 0 < n
    requires IsSquare(a, n) && IsSquare(b, n) && IsSquare(result, n)
    requires id < n * n
  {
    result[id := result[id] + Dot(a, b, n, CellOf(id, n))]
  }

  /** Every id of `ids` names a worker. */
  predicate AllWorkers(ids: seq<nat>, n: nat) {
    forall k :: 0 <= k < |ids| ==> ids[k] < n * n
  }

  /** No worker appears twice in `ids`. */
  predicate Distinct(ids: seq<nat>) {
    forall j, k :: 0 <= j < k < |ids| ==> ids[j] != ids[k]
  }

  /** `ids` is one possible execution order of the `upc_forall`: every worker
      exactly once. */
  predicate IsSchedule(ids: seq<nat>, n: nat) {
    && AllWorkers(ids, n)
    && Distinct(ids)
    && forall id :: 0 <= id < n * n ==> id in ids
  }

  /** The bodies of the workers in `ids`, run in that order. */
  function RunInOrder(a: seq<int>, b: seq<int>, n: nat, result: seq<int>, ids: seq<nat>): (r: seq<int>)
    requires 0 < n
    requires IsSquare(a, n) && IsSquare(b, n) && IsSquare(result, n)
    requires AllWorkers(ids, n)
    ensures IsSquare(r, n)
    decreases |ids|
  {
    if |ids| == 0 then result
    else RunInOrder(a, b, n, RunBody(a, b, n, result, ids[0]), ids[1..])
  }

  /** After running the distinct workers `ids`, exactly their cells have received
      their dot product and every other cell is unchanged. */
  lemma {:induction false} RunInOrderCells(a: seq<int>, b: seq<int>, n: nat, result: seq<int>, ids: seq<nat>)
    requires 0 < n
    requires IsSquare(a, n) && IsSquare(b, n) && IsSquare(result, n)
    requires AllWorkers(ids, n) && Distinct(ids)
    ensures forall i :: 0 <= i < n * n ==>
      RunInOrder(a, b, n, result, ids)[i]
        == result[i] + (if i in ids then Dot(a, b, n, CellOf(i, n)) else 0)
    decreases |ids|
  {
    if |ids| > 0 {
      var result' := RunBody(a, b, n, result, ids[0]);
      var rest := ids[1..];
      assert AllWorkers(rest, n);
      assert Distinct(rest);
      RunInOrderCells(a, b, n, result', rest);
      forall i | 0 <= i < n * n
        ensures (i in ids) == (i == ids[0] || i in rest)
        ensures i == ids[0] ==> i !in rest
      {
        assert ids == [ids[0]] + rest;
      }
    }
  }

  /** Whatever order the workers run in, the compute phase leaves the matrix
      product in the zeroed result matrix. */
  lemma AnyScheduleComputesProduct(a: seq<int>, b: seq<int>, n: nat, ids: seq<nat>)
    requires 0 < n
    requires IsSquare(a, n) && IsSquare(b, n)
    requires IsSchedule(ids, n)
    ensures RunInOrder(a, b, n, Zeros(n), ids) == Product(a, b, n)
  {
    RunInOrderCells(a, b, n, Zeros(n), ids);
  }

  /** The compute phase with the workers taken in id order: starting from the
      zeroed result, every cell ends up holding the matrix product. */
  method Multiply(a: seq<int>, b: seq<int>, n: nat) returns (result: seq<int>)
    requires 0 < n
    requires IsSquare(a, n) && IsSquare(b, n)
    ensures result == Product(a, b, n)
  {
    result := Zeros(n);
    var threadId := 0;
    while threadId < n * n
      invariant threadId <= n * n
      invariant |result| == n * n
      invariant forall i :: 0 <= i < threadId ==> result[i] == Product(a, b, n)[i]
      invariant forall i :: threadId <= i < n * n ==> result[i] == 0
    {
      result := ShiftAccumulate(a, b, n, threadId, result);
      threadId := threadId + 1;
    }
  }

  /** The two-by-two example: [1 2; 3 4] times [5 6; 7 8] is [19 22; 43 50]. */
  lemma TwoByTwoExample()
    ensures Product([1, 2, 3, 4], [5, 6, 7, 8], 2) == [19, 22, 43, 50]
  {
    var a, b := [1, 2, 3, 4], [5, 6, 7, 8];
    assert Terms(a, b, 2, Coord(0, 0)) == [5, 14];
    assert Terms(a, b, 2, Coord(0, 1)) == [6, 16];
    assert Terms(a, b, 2, Coord(1, 0)) == [15, 28];
    assert Terms(a, b, 2, Coord(1, 1)) == [18, 32];
    assert Sum([5, 14]) == 19 && Sum([6, 16]) == 22;
    assert Sum([15, 28]) == 43 && Sum([18, 32]) == 50;
    assert CellOf(0, 2) == Coord(0, 0) && CellOf(1, 2) == Coord(0, 1);
    assert CellOf(2, 2) == Coord(1, 0) && CellOf(3, 2) == Coord(1, 1);
  }

  /** The one-by-one example: [7] times [6] is [42]. */
  lemma OneByOneExample()
    ensures Product([7], [6], 1) == [42]
  {
  }
}
