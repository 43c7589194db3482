/**
 * The value a matrix holds, as a grid of rows, and what each operation of the
 * matrix header computes from such grids. The imperative operations in module
 * Matrices are proved against these functions; the lemmas below state what the
 * functions mean.
 */
module Grids {

  datatype Option<T> = None | Some(value: T)

  /** `g[i][j]` is the cell in row `i`, column `j`. */
  type Grid = seq<seq<real>>

  /** The band width that both diagonal walks subtract from the column count. */
  const Band: nat := 3

  /** `g` has `rows` rows of `cols` cells each. */
  predicate IsShape(g: Grid, rows: nat, cols: nat) {
    |g| == rows && forall i :: 0 <= i < rows ==> |g[i]| == cols
  }

  /** Two grids of one shape that agree on every cell are the same grid. */
  lemma SameCells(a: Grid, b: Grid, rows: nat, cols: nat)
    requires IsShape(a, rows, cols) && IsShape(b, rows, cols)
    requires forall i, j :: 0 <= i < rows && 0 <= j < cols ==> a[i][j] == b[i][j]
    ensures a == b
  {
    forall i | 0 <= i < rows
      ensures a[i] == b[i]
    {
      assert |a[i]| == |b[i]| == cols;
    }
  }

  // ---------------------------------------------------------------- length

  /** The number of cells of `g`, counted row by row. */
  function CellCount(g: Grid): nat {
    if g == [] then 0 else |g[0]| + CellCount(g[1..])
  }

  /** A `rows` by `cols` grid has `rows * cols` cells. */
  lemma {:induction false} CellCountOfShape(g: Grid, rows: nat, cols: nat)
    requires IsShape(g, rows, cols)
    ensures CellCount(g) == rows * cols
  {
    if rows > 0 {
      assert IsShape(g[1..], rows - 1, cols);
      CellCountOfShape(g[1..], rows - 1, cols);
      calc {
        CellCount(g);
        cols + CellCount(g[1..]);
        cols + (rows - 1) * cols;
        rows * cols;
      }
    }
  }

  // ---------------------------------------------------------------- magic

  /** Where the cell in row `i`, column `j` falls when the cells are visited row by row. */
  function RowMajorIndex(i: int, j: int, cols: int): int {
    i * cols + j
  }

  /** Visiting a `rows` by `cols` grid row by row numbers its cells below `rows * cols`. */
  lemma RowMajorIndexInRange(i: nat, j: nat, rows: nat, cols: nat)
    requires i < rows && j < cols
    ensures 0 <= RowMajorIndex(i, j, cols) < rows * cols
  {
    assert (rows - 1 - i) * cols >= 0;
  }

  /** Multiplying by a non-negative number keeps a strict order at least one factor apart. */
  lemma MulStep(a: int, b: int, c: int)
    ensures a < b && 0 <= c ==> a * c + c <= b * c
  {
    if a < b && 0 <= c {
      assert (b - a - 1) * c >= 0;
    }
  }

  /** No two cells get the same number. */
  lemma RowMajorIndexInjective(i: nat, j: nat, i2: nat, j2: nat, cols: nat)
    requires j < cols && j2 < cols
    requires RowMajorIndex(i, j, cols) == RowMajorIndex(i2, j2, cols)
    ensures i == i2 && j == j2
  {
    MulStep(i, i2, cols);
    MulStep(i2, i, cols);
  }

  /** The grid that takes the `k`-th value of `draws` into the `k`-th cell visited row by row. */
  function RowMajor(draws: seq<int>, rows: nat, cols: nat): Grid
    requires |draws| == rows * cols
  {
    seq(rows, i requires 0 <= i < rows =>
      seq(cols, j requires 0 <= j < cols =>
        RowMajorIndexInRange(i, j, rows, cols); draws[RowMajorIndex(i, j, cols)] as real))
  }

  /** Multiplying by a non-negative number keeps the order. */
  lemma MulMonotone(a: int, b: int, c: int)
    ensures a <= b && 0 <= c ==> a * c <= b * c
  {
    if a <= b && 0 <= c {
      assert (b - a) * c >= 0;
    }
  }

  /** The `k`-th value of `draws` lands in row `k / cols`, column `k % cols` of the row-by-row fill. */
  lemma EveryDrawLands(draws: seq<int>, rows: nat, cols: nat, k: nat)
    requires |draws| == rows * cols && k < rows * cols
    ensures IsShape(RowMajor(draws, rows, cols), rows, cols)
    ensures 0 < cols && k / cols < rows
    ensures RowMajorIndex(k / cols, k % cols, cols) == k
    ensures RowMajor(draws, rows, cols)[k / cols][k % cols] == draws[k] as real
  {
    MulMonotone(cols, 0, rows);
    assert 0 < cols;
    var i, j := k / cols, k % cols;
    assert RowMajorIndex(i, j, cols) == k;
    MulMonotone(rows, i, cols);
  }

  // ---------------------------------------------------------------- zeros

  /** `g` with every cell overwritten by zero. */
  function Zeroed(g: Grid): Grid {
    seq(|g|, i requires 0 <= i < |g| => seq(|g[i]|, _ => 0.0))
  }

  /** Zeroing keeps the shape and leaves only zeros. */
  lemma ZeroedCells(g: Grid, rows: nat, cols: nat)
    requires IsShape(g, rows, cols)
    ensures IsShape(Zeroed(g), rows, cols)
    ensures forall i, j :: 0 <= i < rows && 0 <= j < cols ==> Zeroed(g)[i][j] == 0.0
  {
  }

  /** Zeroing twice gives the grid that zeroing once gives. */
  lemma ZeroedIdempotent(g: Grid)
    ensures Zeroed(Zeroed(g)) == Zeroed(g)
  {
    var z := Zeroed(g);
    forall i | 0 <= i < |g|
      ensures Zeroed(z)[i] == z[i]
    {
      assert |Zeroed(z)[i]| == |z[i]| == |g[i]|;
    }
  }

  // ---------------------------------------------------------------- matmul

  /**
   * The element-wise product of `a` and `b`, shaped like `a`. An empty row of
   * `a` reads nothing from `b`, so it needs no partner row there.
   */
  function Hadamard(a: Grid, b: Grid): Grid
    requires forall i :: 0 <= i < |a| && 0 < |a[i]| ==> i < |b| && |a[i]| <= |b[i]|
  {
    seq(|a|, i requires 0 <= i < |a| =>
      seq(|a[i]|, j requires 0 <= j < |a[i]| => a[i][j] * b[i][j]))
  }

  /** The product of two grids has the first one's shape and multiplies cell by cell. */
  lemma HadamardCells(a: Grid, b: Grid, rows: nat, cols: nat)
    requires IsShape(a, rows, cols)
    requires 0 < cols ==> rows <= |b| && forall i :: 0 <= i < rows ==> |b[i]| == cols
    ensures IsShape(Hadamard(a, b), rows, cols)
    ensures forall i, j :: 0 <= i < rows && 0 <= j < cols ==> Hadamard(a, b)[i][j] == a[i][j] * b[i][j]
  {
  }

  /** On two grids of one shape the product does not depend on the operand order. */
  lemma HadamardCommutes(a: Grid, b: Grid, rows: nat, cols: nat)
    requires IsShape(a, rows, cols) && IsShape(b, rows, cols)
    ensures Hadamard(a, b) == Hadamard(b, a)
  {
    HadamardCells(a, b, rows, cols);
    HadamardCells(b, a, rows, cols);
    SameCells(Hadamard(a, b), Hadamard(b, a), rows, cols);
  }

  // ---------------------------------------------------------------- col

  /** Column `c` of `g`, top to bottom. */
  function Column(g: Grid, c: nat): seq<real>
    requires forall i :: 0 <= i < |g| ==> c < |g[i]|
  {
    seq(|g|, i requires 0 <= i < |g| => g[i][c])
  }

  // ---------------------------------------------------------------- mcolcat

  /**
   * The first `|a|` rows of `b` appended, row by row, to the right of `a`. A
   * row of `a` with no partner in `b` is kept as it is; the header only gets
   * there when neither operand has a column, so nothing is appended anyway.
   */
  function ColCat(a: Grid, b: Grid): Grid {
    seq(|a|, r requires 0 <= r < |a| => if r < |b| then a[r] + b[r] else a[r])
  }

  /**
   * Concatenation widens each row by `b`'s width, and each of its columns is a
   * column of `a` (left part) or of `b` cut to `a`'s rows (right part).
   */
  lemma ColumnOfColCat(a: Grid, b: Grid, rows: nat, cols1: nat, cols2: nat, c: nat)
    requires IsShape(a, rows, cols1) && rows <= |b|
    requires forall i :: 0 <= i < |b| ==> |b[i]| == cols2
    requires c < cols1 + cols2
    ensures IsShape(ColCat(a, b), rows, cols1 + cols2)
    ensures c < cols1 ==> Column(ColCat(a, b), c) == Column(a, c)
    ensures cols1 <= c ==> Column(ColCat(a, b), c) == Column(b, c - cols1)[..rows]
  {
    var g := ColCat(a, b);
    if c < cols1 {
      forall i | 0 <= i < rows
        ensures Column(g, c)[i] == Column(a, c)[i]
      {
        assert g[i] == a[i] + b[i];
      }
    } else {
      forall i | 0 <= i < rows
        ensures Column(g, c)[i] == Column(b, c - cols1)[..rows][i]
      {
        assert g[i] == a[i] + b[i];
      }
    }
  }

  // ---------------------------------------------------------------- msum

  /** The sum of `s`, accumulated from the first element to the last. */
  function Sum(s: seq<real>): real {
    if s == [] then 0.0 else Sum(s[..|s| - 1]) + s[|s| - 1]
  }

  /** A sequence of zeros sums to zero. */
  lemma {:induction false} SumOfZeros(s: seq<real>)
    requires forall k :: 0 <= k < |s| ==> s[k] == 0.0
    ensures Sum(s) == 0.0
  {
    if s != [] {
      SumOfZeros(s[..|s| - 1]);
    }
  }

  /** The sum of every column of a grid whose rows are `cols` wide. */
  function ColumnSums(g: Grid, cols: nat): seq<real>
    requires forall i :: 0 <= i < |g| ==> |g[i]| == cols
  {
    seq(cols, c requires 0 <= c < cols => Sum(Column(g, c)))
  }

  /** A zeroed grid has all column sums zero. */
  lemma ColumnSumsOfZeroed(g: Grid, rows: nat, cols: nat)
    requires IsShape(g, rows, cols)
    ensures IsShape(Zeroed(g), rows, cols)
    ensures ColumnSums(Zeroed(g), cols) == seq(cols, _ => 0.0)
  {
    ZeroedCells(g, rows, cols);
    forall c | 0 <= c < cols
      ensures ColumnSums(Zeroed(g), cols)[c] == 0.0
    {
      SumOfZeros(Column(Zeroed(g), c));
    }
  }

  /** The column sums of a concatenation are the column sums of its two parts, side by side. */
  lemma ColumnSumsOfColCat(a: Grid, b: Grid, rows: nat, cols1: nat, cols2: nat)
    requires IsShape(a, rows, cols1) && IsShape(b, rows, cols2)
    ensures IsShape(ColCat(a, b), rows, cols1 + cols2)
    ensures ColumnSums(ColCat(a, b), cols1 + cols2) == ColumnSums(a, cols1) + ColumnSums(b, cols2)
  {
    var g := ColCat(a, b);
    forall c | 0 <= c < cols1 + cols2
      ensures ColumnSums(g, cols1 + cols2)[c] == (ColumnSums(a, cols1) + ColumnSums(b, cols2))[c]
    {
      ColumnOfColCat(a, b, rows, cols1, cols2, c);
      if cols1 <= c {
        assert Column(b, c - cols1)[..rows] == Column(b, c - cols1);
      }
    }
  }

  // ---------------------------------------------------------------- sdiagonal, sdiagonalreverse

  /**
   * Both diagonal walks read only inside a `rows` by `cols` grid: the band fits
   * in a row, and either it is empty or there are at most `Band + 1` rows.
   */
  predicate BandInBounds(rows: nat, cols: nat) {
    Band <= cols && (cols == Band || rows <= Band + 1)
  }

  /** The column the forward walk reads for row `i`, band cell `j`. */
  function ForwardIndex(i: int, j: int): int {
    i + j
  }

  /** The column the reverse walk reads for row `i`, band cell `k`, in a row `cols` wide. */
  function ReverseIndex(i: int, k: int, cols: int): int {
    cols - 1 - i - k
  }

  /** BandInBounds is exactly the condition under which both walks read inside every row. */
  lemma BandInBoundsExact(rows: nat, cols: nat)
    requires Band <= cols
    ensures BandInBounds(rows, cols) <==>
      (forall i, j :: 0 <= i < rows && 0 <= j < cols - Band ==> ForwardIndex(i, j) < cols)
    ensures BandInBounds(rows, cols) <==>
      (forall i, k :: 0 <= i < rows && 0 <= k < cols - Band ==> 0 <= ReverseIndex(i, k, cols))
  {
    if !BandInBounds(rows, cols) {
      var i, j := rows - 1, cols - Band - 1;
      assert 0 <= i < rows && 0 <= j < cols - Band && !(ForwardIndex(i, j) < cols);
      assert !(0 <= ReverseIndex(i, j, cols));
    }
  }

  /**
   * On a 5 by 5 grid, band cell 1 of row 4 is read past the end of the row by
   * the forward walk and before its start by the reverse walk.
   */
  lemma FiveByFiveOutOfBand()
    ensures !BandInBounds(5, 5)
    ensures 4 < 5 && 1 < 5 - Band
    ensures ForwardIndex(4, 1) == 5 && !(ForwardIndex(4, 1) < 5)
    ensures ReverseIndex(4, 1, 5) == -1 && ReverseIndex(4, 1, 5) < 0
  {
  }

  /** The forward band: row `i`, cell `j` is cell `i + j` of row `i`. */
  function Diagonal(g: Grid, cols: nat): Grid
    requires IsShape(g, |g|, cols) && BandInBounds(|g|, cols)
  {
    seq(|g|, i requires 0 <= i < |g| =>
      seq(cols - Band, j requires 0 <= j < cols - Band => g[i][i + j]))
  }

  /** The reverse band: row `i`, cell `k` is cell `cols - 1 - i - k` of row `i`. */
  function DiagonalReverse(g: Grid, cols: nat): Grid
    requires IsShape(g, |g|, cols) && BandInBounds(|g|, cols)
  {
    seq(|g|, i requires 0 <= i < |g| =>
      seq(cols - Band, k requires 0 <= k < cols - Band => g[i][cols - 1 - i - k]))
  }

  /** Every row of `g` read from right to left. */
  function MirrorRows(g: Grid): Grid {
    seq(|g|, i requires 0 <= i < |g| =>
      seq(|g[i]|, j requires 0 <= j < |g[i]| => g[i][|g[i]| - 1 - j]))
  }

  /** Both bands have `rows` rows of `cols - Band` cells, taken at the stated positions. */
  lemma DiagonalCells(g: Grid, rows: nat, cols: nat)
    requires IsShape(g, rows, cols) && BandInBounds(rows, cols)
    ensures IsShape(Diagonal(g, cols), rows, cols - Band)
    ensures IsShape(DiagonalReverse(g, cols), rows, cols - Band)
    ensures forall i, j :: 0 <= i < rows && 0 <= j < cols - Band ==>
      i + j < cols && Diagonal(g, cols)[i][j] == g[i][i + j]
    ensures forall i, k :: 0 <= i < rows && 0 <= k < cols - Band ==>
      0 <= cols - 1 - i - k && DiagonalReverse(g, cols)[i][k] == g[i][cols - 1 - i - k]
  {
  }

  /** The reverse band of a grid is the forward band of its mirror image. */
  lemma DiagonalReverseIsMirroredDiagonal(g: Grid, rows: nat, cols: nat)
    requires IsShape(g, rows, cols) && BandInBounds(rows, cols)
    ensures IsShape(MirrorRows(g), rows, cols)
    ensures DiagonalReverse(g, cols) == Diagonal(MirrorRows(g), cols)
  {
    var m := MirrorRows(g);
    assert IsShape(m, rows, cols);
    DiagonalCells(g, rows, cols);
    DiagonalCells(m, rows, cols);
    forall i, k | 0 <= i < rows && 0 <= k < cols - Band
      ensures DiagonalReverse(g, cols)[i][k] == Diagonal(m, cols)[i][k]
    {
      assert m[i][i + k] == g[i][cols - 1 - (i + k)];
    }
    SameCells(DiagonalReverse(g, cols), Diagonal(m, cols), rows, cols - Band);
  }
}
