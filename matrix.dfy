/**
 * The `Matrix` struct of the matrix header and the operations on it. The
 * row-pointer grid `data[row][col]` is a two-dimensional array here; each
 * operation that fills or builds a grid cell by cell is a method with loops,
 * proved against the grid functions of module Grids.
 */
module Matrices {
  import opened Grids

  /** A grid of `row` rows of `col` cells each. */
  class Matrix {
    var data: array2<real>
    var row: nat
    var col: nat

    /** The extents recorded in the struct are those of the grid. */
    ghost predicate Valid()
      reads this
    {
      data.Length0 == row && data.Length1 == col
    }

    /** The cells of the matrix, row by row. */
    function Cells(): (g: Grid)
      reads this, data
      ensures IsShape(g, data.Length0, data.Length1)
      ensures forall i, j :: 0 <= i < data.Length0 && 0 <= j < data.Length1 ==> g[i][j] == data[i, j]
    {
      var d := data;
      seq(d.Length0, i requires 0 <= i < d.Length0 reads d =>
        seq(d.Length1, j requires 0 <= j < d.Length1 reads d => d[i, j]))
    }

    /** `m(row, col)`: a new `row` by `col` matrix whose cells are not yet set. */
    constructor (row: nat, col: nat)
      ensures Valid() && fresh(data)
      ensures this.row == row && this.col == col
    {
      data := new real[row, col];
      this.row := row;
      this.col := col;
    }

    /**
     * `magic`: overwrites every cell, row by row, with the next pseudo-random
     * number. `draws` stands for the numbers `rand()` returns, in order.
     */
    method Magic(draws: seq<int>)
      requires Valid() && |draws| == row * col
      modifies data
      ensures Valid() && Cells() == RowMajor(draws, row, col)
    {
      var i := 0;
      while i < row
        invariant 0 <= i <= row
        invariant forall p, q :: 0 <= p < i && 0 <= q < col ==> data[p, q] == RowMajor(draws, row, col)[p][q]
      {
        var j := 0;
        while j < col
          invariant 0 <= j <= col
          invariant forall p, q :: 0 <= p < i && 0 <= q < col ==> data[p, q] == RowMajor(draws, row, col)[p][q]
          invariant forall q :: 0 <= q < j ==> data[i, q] == RowMajor(draws, row, col)[i][q]
        {
          RowMajorIndexInRange(i, j, row, col);
          data[i, j] := draws[RowMajorIndex(i, j, col)] as real;
          j := j + 1;
        }
        i := i + 1;
      }
      SameCells(Cells(), RowMajor(draws, row, col), row, col);
    }

    /** `zeros`: overwrites every cell with zero, keeping the shape. */
    method Zeros()
      requires Valid()
      modifies data
      ensures Valid() && Cells() == Zeroed(old(Cells()))
    {
      var i := 0;
      while i < row
        invariant 0 <= i <= row
        invariant forall p, q :: 0 <= p < i && 0 <= q < col ==> data[p, q] == 0.0
      {
        var j := 0;
        while j < col
          invariant 0 <= j <= col
          invariant forall p, q :: 0 <= p < i && 0 <= q < col ==> data[p, q] == 0.0
          invariant forall q :: 0 <= q < j ==> data[i, q] == 0.0
        {
          data[i, j] := 0.0;
          j := j + 1;
        }
        i := i + 1;
      }
      ZeroedCells(old(Cells()), row, col);
      SameCells(Cells(), Zeroed(old(Cells())), row, col);
    }

    /** `length`: the number of cells, `row * col`. */
    function Length(): (n: int)
      requires Valid()
      reads this, data
      ensures n == CellCount(Cells())
    {
      CellCountOfShape(Cells(), row, col);
      col * row
    }

    /** `row`: the cells of row `r`, or None when there is no such row. */
    function Row(r: nat): (x: Option<seq<real>>)
      requires Valid()
      reads this, data
      ensures x.Some? <==> r < row
      ensures x.Some? ==> |x.value| == col && forall j :: 0 <= j < col ==> x.value[j] == data[r, j]
    {
      if row <= r then None else Some(Cells()[r])
    }

    /** `col`: a fresh copy of column `c`, or None when there is no such column. */
    method Col(c: nat) returns (x: Option<array<real>>)
      requires Valid()
      ensures x.None? <==> col <= c
      ensures x.Some? ==> fresh(x.value) && x.value[..] == Column(Cells(), c)
    {
      if col <= c {
        return None;
      }
      var mcol := new real[row];
      var i := 0;
      while i < row
        invariant 0 <= i <= row
        invariant forall k :: 0 <= k < i ==> mcol[k] == data[k, c]
      {
        mcol[i] := data[i, c];
        i := i + 1;
      }
      x := Some(mcol);
    }

    /** `rowcol`: the cell in column `c` of row `r`. */
    function RowCol(c: nat, r: nat): (x: real)
      requires Valid() && c < col && r < row
      reads this, data
      ensures x == Cells()[r][c]
      ensures x == Column(Cells(), c)[r]
    {
      data[r, c]
    }
  }

  /** Row, column and cell access agree on every cell. */
  lemma AccessorsAgree(m: Matrix, i: nat, j: nat)
    requires m.Valid() && i < m.row && j < m.col
    ensures m.Row(i).Some? && m.Row(i).value[j] == m.RowCol(j, i)
    ensures Column(m.Cells(), j)[i] == m.RowCol(j, i)
  {
  }

  /**
   * The guard of `row` and `col` as the header writes it: an index is refused
   * only when it is greater than the extent.
   */
  predicate GuardAdmits(extent: int, index: int) {
    !(extent < index)
  }

  /** The header's guard admits the index equal to the extent, which names no cell. */
  lemma GuardAdmitsPastEnd(m: Matrix)
    requires m.Valid()
    ensures GuardAdmits(m.col, m.col) && !(m.col < m.data.Length1)
    ensures GuardAdmits(m.row, m.row) && !(m.row < m.data.Length0)
  {
  }

  /**
   * `matmul`: the element-wise product, or None when the column counts differ.
   * The row counts are not compared; when there are columns the header reads
   * row `i` of `m2` for every row `i` of `m1`, so `m2` must then have at least
   * as many rows. Without columns nothing of `m2` is read.
   */
  method MatMul(m1: Matrix, m2: Matrix) returns (r: Option<Matrix>)
    requires m1.Valid() && m2.Valid()
    requires m1.col == m2.col && 0 < m1.col ==> m1.row <= m2.row
    ensures r.None? <==> m1.col != m2.col
    ensures r.Some? ==> fresh(r.value) && fresh(r.value.data) && r.value.Valid()
    ensures r.Some? ==> r.value.row == m1.row && r.value.col == m1.col
    ensures r.Some? ==> r.value.Cells() == Hadamard(m1.Cells(), m2.Cells())
  {
    if m1.col != m2.col {
      return None;
    }
    var result := new Matrix(m1.row, m1.col);
    var i := 0;
    while i < m1.row
      invariant 0 <= i <= m1.row
      modifies result.data
      invariant forall p, q :: 0 <= p < i && 0 <= q < m1.col ==>
        result.data[p, q] == m1.data[p, q] * m2.data[p, q]
    {
      var j := 0;
      while j < m1.col
        invariant 0 <= j <= m1.col
        modifies result.data
        invariant forall p, q :: 0 <= p < i && 0 <= q < m1.col ==>
          result.data[p, q] == m1.data[p, q] * m2.data[p, q]
        invariant forall q :: 0 <= q < j ==> result.data[i, q] == m1.data[i, q] * m2.data[i, q]
      {
        result.data[i, j] := m1.data[i, j] * m2.data[i, j];
        j := j + 1;
      }
      i := i + 1;
    }
    HadamardCells(m1.Cells(), m2.Cells(), m1.row, m1.col);
    SameCells(result.Cells(), Hadamard(m1.Cells(), m2.Cells()), m1.row, m1.col);
    r := Some(result);
  }

  /**
   * `sdiagonal`: for each row `i`, the `col - Band` cells starting at column `i`.
   * The reads stay inside the grid only under BandInBounds.
   */
  method SDiagonal(m: Matrix) returns (r: Matrix)
    requires m.Valid() && BandInBounds(m.row, m.col)
    ensures fresh(r) && fresh(r.data) && r.Valid()
    ensures r.row == m.row && r.col == m.col - Band
    ensures r.Cells() == Diagonal(m.Cells(), m.col)
  {
    r := new Matrix(m.row, m.col - Band);
    var i := 0;
    while i < m.row
      invariant 0 <= i <= m.row
      modifies r.data
      invariant forall p, q :: 0 <= p < i && 0 <= q < m.col - Band ==> r.data[p, q] == m.data[p, p + q]
    {
      var j := 0;
      while j < m.col - Band
        invariant 0 <= j <= m.col - Band
        modifies r.data
        invariant forall p, q :: 0 <= p < i && 0 <= q < m.col - Band ==> r.data[p, q] == m.data[p, p + q]
        invariant forall q :: 0 <= q < j ==> r.data[i, q] == m.data[i, i + q]
      {
        r.data[i, j] := m.data[i, i + j];
        j := j + 1;
      }
      i := i + 1;
    }
    DiagonalCells(m.Cells(), m.row, m.col);
    SameCells(r.Cells(), Diagonal(m.Cells(), m.col), m.row, m.col - Band);
  }

  /**
   * `sdiagonalreverse`: for each row `i`, walks `j` down from `col` to
   * `Band + 1` and writes cell `j - (i + 1)` of the row left to right.
   */
  method SDiagonalReverse(m: Matrix) returns (r: Matrix)
    requires m.Valid() && BandInBounds(m.row, m.col)
    ensures fresh(r) && fresh(r.data) && r.Valid()
    ensures r.row == m.row && r.col == m.col - Band
    ensures r.Cells() == DiagonalReverse(m.Cells(), m.col)
  {
    r := new Matrix(m.row, m.col - Band);
    var i := 0;
    while i < m.row
      invariant 0 <= i <= m.row
      modifies r.data
      invariant forall p, k :: 0 <= p < i && 0 <= k < m.col - Band ==>
        r.data[p, k] == m.data[p, m.col - 1 - p - k]
    {
      var colindex := 0;
      var j := m.col;
      while j > Band
        invariant Band <= j <= m.col
        modifies r.data
        invariant colindex == m.col - j
        invariant forall p, k :: 0 <= p < i && 0 <= k < m.col - Band ==>
          r.data[p, k] == m.data[p, m.col - 1 - p - k]
        invariant forall k :: 0 <= k < colindex ==> r.data[i, k] == m.data[i, m.col - 1 - i - k]
      {
        r.data[i, colindex] := m.data[i, j - (i + 1)];
        colindex := colindex + 1;
        j := j - 1;
      }
      i := i + 1;
    }
    DiagonalCells(m.Cells(), m.row, m.col);
    SameCells(r.Cells(), DiagonalReverse(m.Cells(), m.col), m.row, m.col - Band);
  }

  /**
   * `msum`: the sum of each column, accumulated top to bottom from the column
   * copy that `col` returns. Each accumulator starts at zero.
   */
  method MSum(m: Matrix) returns (sumarray: array<real>)
    requires m.Valid()
    ensures fresh(sumarray)
    ensures sumarray[..] == ColumnSums(m.Cells(), m.col)
  {
    sumarray := new real[m.col](_ => 0.0);
    ghost var g := m.Cells();
    var i := 0;
    while i < m.col
      invariant 0 <= i <= m.col
      invariant forall k :: 0 <= k < i ==> sumarray[k] == Sum(Column(g, k))
      invariant forall k :: i <= k < m.col ==> sumarray[k] == 0.0
      modifies sumarray
    {
      var temp := m.Col(i);
      var column := temp.value;
      assert column[..] == Column(g, i);
      ghost var before := sumarray[..];
      var j := 0;
      while j < m.row
        invariant 0 <= j <= m.row
        invariant column[..] == Column(g, i)
        invariant sumarray[i] == Sum(column[..j])
        invariant forall k :: 0 <= k < m.col && k != i ==> sumarray[k] == before[k]
        modifies sumarray
      {
        assert column[..j + 1][..j] == column[..j];
        sumarray[i] := sumarray[i] + column[j];
        j := j + 1;
      }
      assert column[..m.row] == column[..];
      i := i + 1;
    }
  }

  /**
   * `mcolcat`: `m1` and `m2` side by side, or None when the column counts
   * differ. A difference in row counts is only reported by the header; when
   * there are columns it copies `m1.row` rows from both, so `m2` must then
   * have at least that many. Without columns nothing is copied.
   */
  method MColCat(m1: Matrix, m2: Matrix) returns (r: Option<Matrix>)
    requires m1.Valid() && m2.Valid()
    requires m1.col == m2.col && 0 < m1.col ==> m1.row <= m2.row
    ensures r.None? <==> m1.col != m2.col
    ensures r.Some? ==> fresh(r.value) && fresh(r.value.data) && r.value.Valid()
    ensures r.Some? ==> r.value.row == m1.row && r.value.col == m1.col + m2.col
    ensures r.Some? ==> r.value.Cells() == ColCat(m1.Cells(), m2.Cells())
  {
    if m1.col != m2.col {
      return None;
    }
    var colindex := 0;
    var ncolsize := m1.col + m2.col;
    var pmatrix := m1;
    var nmatrix := new Matrix(m1.row, ncolsize);
    var i := 0;
    while i < ncolsize
      invariant 0 <= i <= ncolsize
      modifies nmatrix.data
      invariant if 0 < m1.col <= i then pmatrix == m2 && colindex == m1.col
                else pmatrix == m1 && colindex == 0
      invariant forall p, q :: 0 <= p < m1.row && 0 <= q < i ==>
        nmatrix.data[p, q] == if q < m1.col then m1.data[p, q] else m2.data[p, q - m1.col]
    {
      var j := 0;
      while j < m1.row
        invariant 0 <= j <= m1.row
        modifies nmatrix.data
        invariant forall p, q :: 0 <= p < m1.row && 0 <= q < i ==>
          nmatrix.data[p, q] == if q < m1.col then m1.data[p, q] else m2.data[p, q - m1.col]
        invariant forall p :: 0 <= p < j ==>
          nmatrix.data[p, i] == if i < m1.col then m1.data[p, i] else m2.data[p, i - m1.col]
      {
        nmatrix.data[j, i] := pmatrix.data[j, i - colindex];
        j := j + 1;
      }
      // from here on the columns come from the second matrix
      if i == m1.col - 1 && colindex == 0 {
        pmatrix := m2;
        colindex := i + 1;
      }
      i := i + 1;
    }
    SameCells(nmatrix.Cells(), ColCat(m1.Cells(), m2.Cells()), m1.row, ncolsize);
    r := Some(nmatrix);
  }
}
