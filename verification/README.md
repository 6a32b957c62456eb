# Cyclic-shift matrix multiplication in UPC — a Dafny model

The program multiplies two `n`-by-`n` integer matrices with `n * n` UPC
threads. Each thread owns one cell of the result. Thread `threadId` sits at
`row = threadId / n`, `column = threadId % n`. It starts two cursors, the column
of A and the row of B, at `(row + column) % n`. Over `n` steps it advances both
cursors by one, modulo `n`, and adds `A[row*n + cursor] * B[cursor*n + column]`
into `resultMatrix[threadId]`. Matrices are read from and written to text files
in row-major order: every element is followed by a tab, and a newline ends each
row.

The project has one module per component:

- `arith.dfy` (`Arith`): facts about Euclidean division and remainder that the
  index arithmetic relies on.
- `partition.dfy` (`Partition`): maps a thread id to the cell it owns. This is
  a bijection between `[0, n*n)` and the in-range cells.
- `matrices.dfy` (`Matrices`): matrices as `seq<int>` of length `n * n`. Holds
  the canonical dot product `Σ_k A[row*n+k]·B[k*n+column]` and the matrix
  product built from it. This product is the reference the kernel is proved
  against.
- `shift_engine.dfy` (`ShiftEngine`): the body of the `upc_forall`. It covers
  the cursors, the offsets used at each step and the rotation argument. The
  method `ShiftAccumulate` mirrors the C loop statement by statement.
- `compute.dfy` (`Compute`): the whole `upc_forall`, run sequentially.
  `AnyScheduleComputesProduct` shows the thread order does not matter.
- `layout.dfy` (`Layout`): the text layout at token level (`Num(v)`, `Tab`,
  `Newline`). It models `saveMatrix`, `printMatrix` and `readMatrix`, plus the
  round trip.

Modelling assumptions:

- `n > 0`, and both operands have exactly `n * n` elements. These are
  preconditions.
- Integers are unbounded.
- The result matrix starts zeroed, as UPC shared arrays do.

Two details of `main.c` shape the model:

- The kernel adds each product straight into `resultMatrix[threadId]`
  (main.c:174), starting from the zero-initialised shared array. It keeps no
  private running sum.
- `readMatrix` reads only the first `n * n` integers of a file (main.c:46) and
  ignores anything after them.

## Model

| member | source | states |
|---|---|---|
| Partition.CellOf | main.c:154-155 | the row and column a thread derives both lie in `[0, n)`, and `row * n + column` gives back the thread id |
| Partition.CellOfLinearIndex | main.c:151-155 | deriving the cell from a cell's own linear index gives that cell back, so every result cell has exactly one owning thread |
| Matrices.ProductAt | main.c:162 | cell `(row, column)` of the product is row `row` of A times column `column` of B, the canonical dot product over `k = 0 .. n-1` |
| ShiftEngine.CursorsAfterShifts | main.c:158-167 | the A-column and B-row cursors are equal at the start and after every shift, both stay in `[0, n)`, and after `k` shifts they equal `(row + column + k) % n` |
| ShiftEngine.OffsetIsAdvancedCursor | main.c:163-167 | the offset read at 0-based step `shift` is `(row + column + shift + 1) % n`, which is the cursor value after `shift + 1` advances |
| ShiftEngine.OffsetFromStart | main.c:163-167 | each step's offset is the first step's offset plus the step number, taken modulo `n` |
| ShiftEngine.OffsetsDistinct | main.c:163-167 | two different steps never read the same offset |
| ShiftEngine.OffsetReaches | main.c:163-167 | every value in `[0, n)` is the offset of some step in `[0, n)` |
| ShiftEngine.OffsetsArePermutation | main.c:163-167 | over the `n` steps the offsets visit every value of `[0, n)` exactly once: all in range, pairwise distinct, and every value hit |
| ShiftEngine.KernelIndicesInBounds | main.c:170-171 | `indexA = row*n + offset` and `indexB = offset*n + column` both lie in `[0, n*n)` |
| ShiftEngine.SumRotate | main.c:162-175 | accumulating the products in rotated order gives the same sum as the canonical order |
| ShiftEngine.RotatedTermsAreRotation | main.c:158-171 | the products the kernel reads, in its order, are the canonical products rotated by the first offset `(row + column + 1) % n` |
| ShiftEngine.RotatedSumIsDot | main.c:162-175 | the rotated accumulation equals the canonical dot product of the thread's row of A and column of B |
| ShiftEngine.ShiftStep | main.c:166-174 | one shift step advances the cursor to the step's offset, keeps both indices in bounds, and reads that step's product |
| ShiftEngine.ReadsAtOffset | main.c:170-174 | at a step's offset, both linear indices are in bounds and `A[indexA] * B[indexB]` is that step's product |
| ShiftEngine.ShiftAccumulate | main.c:151-176 | one body of the `upc_forall`, with its cursors checked against `AfterShifts` at every shift, adds the dot product of its row of A and column of B to `resultMatrix[threadId]` and changes no other result cell; its result is the single-cell update that the schedule lemmas in `Compute` run |
| Compute.RunInOrderCells | main.c:151-176 | after the bodies of any list of distinct threads run, each listed thread's cell has gained its dot product and every other cell is unchanged |
| Compute.AnyScheduleComputesProduct | main.c:151-176 | in any order that runs every thread exactly once, the compute phase turns the zeroed result into the matrix product |
| Compute.Multiply | main.c:147-179 | running the threads in id order over the zeroed result leaves exactly the matrix product |
| Compute.TwoByTwoExample | main.c:151-176 | `[1 2; 3 4] × [5 6; 7 8] = [19 22; 43 50]` |
| Compute.OneByOneExample | main.c:151-176 | `[7] × [6] = [42]` |
| Layout.ElementTokensContents | main.c:70-77 | each element writes its own number and one tab, plus one newline exactly when `i % n == n - 1` |
| Layout.SavePrefixContents | main.c:70-78 | after `k` iterations the output holds the first `k` elements in index order, `k / n` newlines, and `2k + k/n` tokens |
| Layout.SavePrefixPositions | main.c:70-77 | element `i` is written as its number then a tab; the next token is a newline when `i` ends a row, otherwise element `i + 1` |
| Layout.SaveMatrix | main.c:62-81 | the saved layout holds exactly the matrix's `n*n` numbers in index order, exactly `n` newlines, and `2n² + n` tokens |
| Layout.SaveMatrixPositions | main.c:70-77 | in the saved layout, element `i` sits at position `p = 2i + i/n`, followed by a tab, followed by a newline exactly when `i % n == n - 1` |
| Layout.PrintMatrix | main.c:22-35 | the console dump is exactly the saved layout (every element followed by a tab, a newline after each row) followed by one more newline: it holds the matrix's numbers in order, `n + 1` newlines, and `2n² + n + 1` tokens |
| Layout.PrintMatrixPositions | main.c:25-33 | on the console, element `i` sits at position `p = 2i + i/n`, followed by a tab, followed by a newline exactly when `i % n == n - 1` |
| Layout.ReadMatrix | main.c:43-54 | reading succeeds exactly when the input holds at least `n*n` integers; index `i` then gets the `i`-th integer, and later integers are ignored |
| Layout.SaveThenRead | main.c:43-81 | reading back what `saveMatrix` wrote reproduces the original matrix |

## Left out

- UPC barriers (`upc_barrier`, main.c:148 and 179) and spreading the `upc_forall` across threads are left out. They are about concurrency. The compute phase is a sequential loop, which is sound because each result cell has one writer, each body reads and writes only its own result cell, and it reads only A and B, which no body writes. `AnyScheduleComputesProduct` covers every execution order.
- The perfect-square check on the thread count (main.c:90) and `DIMENSION = (int)sqrt(THREADS)` (main.c:12) are left out. They use floating point. The model takes `n > 0` and `|A| == |B| == n * n` as preconditions instead.
- File I/O is left out: `fopen`/`fclose`, decimal text formatting and parsing in `fprintf`/`fscanf`/`printf`, and the error returns at main.c:115-120, 131-136 and 192-197. These are calls into the C library. Only the token-level layout is modelled.
- Command-line handling and `strcpy` into fixed buffers (main.c:99-112) are plumbing and are left out.
- The `VERBOSE` flag and its console messages are left out. They do not affect computed values. `printMatrix` is modelled for its layout only.
- The `MASTER` role check (main.c:97 and 182) is left out. Which thread does the I/O does not change what is computed.
- `int` overflow is not modelled. The C accumulator and products are 32-bit `int`; the model uses unbounded integers.
- Layout.ReadMatrix: when the file holds fewer than `n * n` integers, `fscanf` fails and the C code stores an uninitialised value. The model returns `None` instead of inventing that value. Non-integer text in the file is not modelled either, because the reader sees tokens, not characters.
