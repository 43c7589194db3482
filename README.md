# matrix.h in Dafny

A model of the dense-matrix header `src/matrix.h` and proofs about it. The
header defines a `Matrix` struct (a grid `data[row][col]` with its two
extents) and the free functions that build, fill, read and combine such
grids: `m`, `magic`, `zeros`, `matmul` (an element-wise product), `row`,
`col`, `rowcol`, `length`, `arange`, `sdiagonal`, `sdiagonalreverse`,
`msum` and `mcolcat`.

The model has three modules:

- `Grids` (grids.dfy) holds the pure specification. A grid is a
  `seq<seq<real>>`. It defines what each operation computes from its input
  grids: `Zeroed`, `RowMajor`, `Hadamard`, `Column`, `ColCat`, `ColumnSums`,
  `Diagonal`, `DiagonalReverse`. It also holds the lemmas that say what
  these functions mean.
- `Matrices` (matrix.dfy) holds the `Matrix` class, with the struct's fields
  `data`, `row` and `col`. The grid is an `array2<real>`. `Valid()` ties the
  recorded extents to the array, and `Cells()` reads the array as a `Grid`.
  Operations that change a grid or fill a fresh one cell by cell are methods
  with the header's loops. Each is proved to produce the `Grids` function of
  its inputs. The pure accessors `row`, `rowcol` and `length` are functions.
- `Ranges` (arange.dfy) holds `arange`, its specification `Values`, and the
  facts about it.

Cells are exact reals. The model is about shapes, index maps and loop
coverage, not float32 rounding. The loop that each method runs is the
header's: the same bounds, the same order, the same index arithmetic. This
includes the pointer switch in `mcolcat` and the down-counting `j` and
up-counting `colindex` in `sdiagonalreverse`.

Where the header logs a problem, or checks nothing, and then reads memory
anyway, the model turns the read into a precondition. `mcolcat` logs a
row-count mismatch and `rowcol` logs a bad index; `matmul` never looks at
the row counts, and the two diagonal walks check nothing at all. Where the
header returns NULL, the model returns `None`.
`matmul` and `mcolcat` return `None` exactly when the column counts differ,
as the code does. A stricter contract would also reject a row-count
mismatch (and for `mcolcat`, drop the column test). This model does not
adopt it, because the code does neither.

## Model

| member | source | states |
|---|---|---|
| Matrices.Matrix.constructor | src/matrix.h:23-38 | `m(row, col)` gives a fresh grid of `row` rows and `col` columns, and the recorded extents match it |
| Matrices.Matrix.Magic | src/matrix.h:48-54 | every cell is overwritten, row by row, with the next value that `rand()` returns; the extents stay |
| Grids.EveryDrawLands | src/matrix.h:49-51 | the k-th random value lands in row `k / col`, column `k % col`, inside the grid |
| Grids.RowMajorIndexInjective | src/matrix.h:49-51 | two different cells are never given the same draw |
| Matrices.Matrix.Zeros | src/matrix.h:64-70 | afterwards the grid is the old grid with every cell zero; `row` and `col` are unchanged |
| Grids.ZeroedCells | src/matrix.h:64-70 | zeroing keeps the `row` by `col` shape and every cell in range is 0 |
| Grids.ZeroedIdempotent | src/matrix.h:64-70 | zeroing twice gives the same grid as zeroing once |
| Matrices.MatMul | src/matrix.h:99-114 | `None` exactly when the column counts differ (rows never compared); otherwise a fresh `m1.row` by `m1.col` grid that is the element-wise product, also when neither has a column and `m2` has fewer rows; neither input changes |
| Grids.HadamardCells | src/matrix.h:108-112 | the product has the first operand's shape and `result[i][j] = m1[i][j] * m2[i][j]`; with no columns it needs no rows of `m2` |
| Grids.HadamardCommutes | src/matrix.h:110 | on equally shaped operands the product does not depend on their order |
| Matrices.Matrix.Row | src/matrix.h:126-133 | the contents of row `r` exactly when `r < row`, `None` otherwise (corrected guard, see Findings) |
| Matrices.Matrix.Col | src/matrix.h:145-157 | a fresh copy of column `c` (length `row`, `mcol[i] = data[i][c]`) exactly when `c < col`, `None` otherwise (corrected guard, see Findings) |
| Matrices.Matrix.RowCol | src/matrix.h:170-176 | the cell in column `c` of row `r`, the same value the row and column views hold there |
| Matrices.AccessorsAgree | src/matrix.h:126-176 | `row`, `col` and `rowcol` report the same value for every cell |
| Matrices.GuardAdmitsPastEnd | src/matrix.h:146 | the header's guard `matrix->col < col` lets `col == matrix->col` through, an index with no cell (likewise for `row`) |
| Matrices.Matrix.Length | src/matrix.h:187-189 | `length` equals the number of cells of the grid |
| Grids.CellCountOfShape | src/matrix.h:187-189 | a `row` by `col` grid has `row * col` cells |
| Ranges.ARange | src/matrix.h:202-217 | `None` exactly when `start >= end`; otherwise a fresh buffer holding `start + k * step` for `k = 0 .. (end - start) / step`, in order |
| Ranges.ValuesIncreasing | src/matrix.h:211-215 | the range starts at `start`, each value exceeds the previous by `step`, and none exceeds `end` |
| Ranges.ValuesMaximal | src/matrix.h:211 | the last value is the last step boundary: one more step passes `end` |
| Ranges.ValuesOnGrid | src/matrix.h:211-215 | every value lies in `[start, end]` on a step boundary |
| Ranges.ValuesMembership | src/matrix.h:211-215 | a number is in the range if and only if it lies in `[start, end]` on a step boundary |
| Ranges.ValuesExample | src/matrix.h:202-217 | `arange(0, 10, 2)` is `[0, 2, 4, 6, 8, 10]` |
| Ranges.CapacityTooSmall | src/matrix.h:208 | from `start = 0` the allocated `(start + end) / step` slots are fewer than the values written; `(0, 10, 2)` allocates 5 and writes 6 |
| Matrices.SDiagonal | src/matrix.h:229-245 | a fresh `row` by `col - 3` grid with `result[i][j] = data[i][i + j]` |
| Matrices.SDiagonalReverse | src/matrix.h:257-278 | a fresh `row` by `col - 3` grid with `result[i][k] = data[i][col - 1 - i - k]`, written left to right as `j` counts down |
| Grids.DiagonalCells | src/matrix.h:234-267 | both bands have `row` rows of `col - 3` cells, read at the stated in-range positions |
| Grids.BandInBoundsExact | src/matrix.h:234-267 | every read `i + j` (forward) and `j - (i + 1)` (reverse) is in range if and only if `col == 3` or `row <= 4` |
| Grids.FiveByFiveOutOfBand | src/matrix.h:235-267 | on a 5 by 5 matrix the forward walk reads column 5 of row 4, and the reverse walk reads column -1 of row 4 |
| Grids.DiagonalReverseIsMirroredDiagonal | src/matrix.h:263-269 | the reverse band equals the forward band of the matrix with each row mirrored |
| Matrices.MSum | src/matrix.h:289-300 | a fresh buffer of length `col` whose entry `c` is the sum, top to bottom, of column `c` |
| Grids.ColumnSumsOfZeroed | src/matrix.h:293-297 | after `zeros`, every column sum is 0 |
| Grids.ColumnSumsOfColCat | src/matrix.h:293-297 | for operands with equal row counts, the column sums of `mcolcat(a, b)` are those of `a` followed by those of `b` |
| Matrices.MColCat | src/matrix.h:311-336 | `None` exactly when the column counts differ (a row mismatch is only logged); otherwise a fresh `m1.row` by `m1.col + m2.col` grid whose row `r` is `m1`'s row `r` followed by `m2`'s row `r`; with no columns, `m1.row` empty rows whatever `m2.row` is |
| Grids.ColumnOfColCat | src/matrix.h:325-333 | column `c < m1.col` of the result is column `c` of `m1`; column `c >= m1.col` is column `c - m1.col` of `m2`, cut to `m1.row` rows |

## Left out

- `mprint` (src/matrix.h:80-87) only writes text to standard output, so it is not modelled.
- Matrices.Matrix.Magic: the values come from `rand()`. The model takes them as a parameter `draws`, the numbers `rand()` returns in call order. Their conversion to float is exact here.
- Float32 arithmetic is not modelled. Cells are exact reals, so the rounding of the product in `matmul`, of the sums in `msum`, and of the large integers in `magic` and `arange` is left out. The summation order of `msum` is kept.
- Matrices.Matrix.Length: does not model overflow of the C `int` product `col * row`; the model's integers are unbounded.
- Allocation is not modelled: byte counts passed to `malloc`, failed allocations that leave half-built grids, and leaks. This includes the column copy that `msum` never frees, and the diagonal functions' `sizeof(float)` for row pointers and `sizeof(float) * matrix->col - 3`.
- The grid is an `array2`. Two rows of one matrix therefore cannot alias, and `row` returns the row's contents rather than a pointer into the matrix.
- Extents and indices are `nat`. Negative dimensions given to `m`, and negative indices given to `row`, `col` or `rowcol`, are not modelled.
- Matrices.Matrix.RowCol: requires both indices in range, because the header only logs a bad index and then reads the cell anyway.
- Matrices.MatMul and Matrices.MColCat: require `m2.row >= m1.row` when the column counts agree and are not zero. The header then reads `m1.row` rows of `m2`: `matmul` never compares the row counts, and `mcolcat` compares them (src/matrix.h:316-317) but only logs a mismatch. With zero columns it reads nothing from `m2`, so no row count is required.
- Matrices.SDiagonal and Matrices.SDiagonalReverse: require `col >= 3`, and `row <= 4` unless `col == 3`. With more rows the reads leave the row, as Grids.BandInBoundsExact shows. With `col < 3`, the unsigned bound `col - 3` of `sdiagonal`'s inner loop wraps around and the loop reads far past the row. `sdiagonalreverse` reads nothing then, since its loop `j > 3` never runs, but it records `col - 3`, a negative extent, which the model's `nat` extents cannot hold.
- Ranges.ARange: when `start < end` it requires `start >= 0` and `step > 0`. With `step == 0` the header divides by zero when it sizes the buffer, before the loop starts. A negative step or a negative start makes the unsigned loop counter wrap around.
- Matrices.MSum: the accumulators start at zero. The header relies on `malloc` returning zeroed memory, which C does not promise.

## Findings

| source | as written | input that shows it | evidently intended | confidence | as-written member | corrected member |
|---|---|---|---|---|---|---|
| src/matrix.h:146 | `col` returns NULL only when `col > matrix->col`, then reads `data[i][col]` | a 2 by 2 matrix and `col = 2` | return NULL for every `col >= matrix->col` | high; not executed | Matrices.GuardAdmitsPastEnd | Matrices.Matrix.Col |
| src/matrix.h:127 | `row` returns NULL only when `row > matrix->row`, then returns `data[row]` | a 2 by 2 matrix and `row = 2` | return NULL for every `row >= matrix->row` | high; not executed | Matrices.GuardAdmitsPastEnd | Matrices.Matrix.Row |
| src/matrix.h:208 | `arange` allocates `(start + end) / step` slots | `arange(0, 10, 2)` allocates 5 slots and writes 6 values | allocate `(end - start) / step + 1` slots | high; not executed | Ranges.CapacityTooSmall | Ranges.ARange |
