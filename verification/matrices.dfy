/** Dense matrices stored as sequences of rows, and the window views through which
    the recursive factorization reads and writes rectangular blocks of its output
    in place. A window is given by explicit offsets (rowLo, colLo, rowHi, colHi)
    into its parent; writing through a window is modelled by `WriteWindow`, which
    puts a block back at its offsets and leaves every other cell alone. */
module Matrices {

  type Mat<T> = seq<seq<T>>

  function Min(a: int, b: int): int
  {
    if a <= b then a else b
  }

  /** M has `rows` rows of `cols` entries each. The width is kept separately
      because a matrix without rows still has a column count. */
  predicate IsMatrix<T>(M: Mat<T>, rows: nat, cols: nat)
  {
    |M| == rows && forall i :: 0 <= i < rows ==> |M[i]| == cols
  }

  /** The block of rows [rowLo, rowHi) and columns [colLo, colHi) of M, as a
      matrix of its own (a window view). */
  function Window<T>(M: Mat<T>, cols: nat, rowLo: nat, colLo: nat, rowHi: nat, colHi: nat): (W: Mat<T>)
    requires IsMatrix(M, |M|, cols)
    requires rowLo <= rowHi <= |M| && colLo <= colHi <= cols
    ensures IsMatrix(W, rowHi - rowLo, colHi - colLo)
    ensures forall i, j :: 0 <= i < rowHi - rowLo && 0 <= j < colHi - colLo ==>
              W[i][j] == M[rowLo + i][colLo + j]
  {
    seq(rowHi - rowLo, i requires 0 <= i < rowHi - rowLo => M[rowLo + i][colLo..colHi])
  }

  /** Row `row` with the |block| entries from column `colLo` on replaced by `block`. */
  function SpliceRow<T>(row: seq<T>, colLo: nat, block: seq<T>): (r: seq<T>)
    requires colLo + |block| <= |row|
    ensures |r| == |row|
    ensures forall j {:trigger r[j]} :: 0 <= j < |row| ==>
              r[j] == if colLo <= j < colLo + |block| then block[j - colLo] else row[j]
  {
    row[..colLo] + block + row[colLo + |block|..]
  }

  /** Rows k, k+1, ... of W written into M at (rowLo + k, colLo), one row after
      the other. */
  function WriteRowsFrom<T>(M: Mat<T>, cols: nat, rowLo: nat, colLo: nat, W: Mat<T>, width: nat, k: nat): (R: Mat<T>)
    requires IsMatrix(M, |M|, cols) && IsMatrix(W, |W|, width)
    requires rowLo + |W| <= |M| && colLo + width <= cols && k <= |W|
    ensures IsMatrix(R, |M|, cols)
    ensures forall i, j {:trigger R[i][j]} :: 0 <= i < |M| && 0 <= j < cols ==>
              R[i][j] == if rowLo + k <= i < rowLo + |W| && colLo <= j < colLo + width
                         then W[i - rowLo][j - colLo] else M[i][j]
    decreases |W| - k
  {
    if k == |W| then M
    else
      var M' := M[rowLo + k := SpliceRow(M[rowLo + k], colLo, W[k])];
      WriteRowsFrom(M', cols, rowLo, colLo, W, width, k + 1)
  }

  /** M with the block at (rowLo, colLo) overwritten by W: a write through a
      window view into its parent. */
  function WriteWindow<T>(M: Mat<T>, cols: nat, rowLo: nat, colLo: nat, W: Mat<T>, width: nat): (R: Mat<T>)
    requires IsMatrix(M, |M|, cols) && IsMatrix(W, |W|, width)
    requires rowLo + |W| <= |M| && colLo + width <= cols
    ensures IsMatrix(R, |M|, cols)
    ensures forall i, j {:trigger R[i][j]} :: 0 <= i < |M| && 0 <= j < cols ==>
              R[i][j] == if rowLo <= i < rowLo + |W| && colLo <= j < colLo + width
                         then W[i - rowLo][j - colLo] else M[i][j]
  {
    WriteRowsFrom(M, cols, rowLo, colLo, W, width, 0)
  }

  /** Two matrices of the same shape that agree on every cell are equal. */
  lemma CellsDetermineMatrix<T>(M: Mat<T>, N: Mat<T>, rows: nat, cols: nat)
    requires IsMatrix(M, rows, cols) && IsMatrix(N, rows, cols)
    requires forall i, j :: 0 <= i < rows && 0 <= j < cols ==> M[i][j] == N[i][j]
    ensures M == N
  {
    forall i | 0 <= i < rows
      ensures M[i] == N[i]
    {
      assert forall j :: 0 <= j < cols ==> M[i][j] == N[i][j];
    }
  }

  /** Reading back a window just written gives the block that was written. */
  lemma WindowOfWrite<T>(M: Mat<T>, cols: nat, rowLo: nat, colLo: nat, W: Mat<T>, width: nat)
    requires IsMatrix(M, |M|, cols) && IsMatrix(W, |W|, width)
    requires rowLo + |W| <= |M| && colLo + width <= cols
    ensures Window(WriteWindow(M, cols, rowLo, colLo, W, width), cols, rowLo, colLo, rowLo + |W|, colLo + width) == W
  {
    var R := WriteWindow(M, cols, rowLo, colLo, W, width);
    var V := Window(R, cols, rowLo, colLo, rowLo + |W|, colLo + width);
    CellsDetermineMatrix(V, W, |W|, width);
  }

  /** Writing a window's own contents back through it changes nothing. */
  lemma WriteOfWindow<T>(M: Mat<T>, cols: nat, rowLo: nat, colLo: nat, rowHi: nat, colHi: nat)
    requires IsMatrix(M, |M|, cols)
    requires rowLo <= rowHi <= |M| && colLo <= colHi <= cols
    ensures WriteWindow(M, cols, rowLo, colLo, Window(M, cols, rowLo, colLo, rowHi, colHi), colHi - colLo) == M
  {
    var W := Window(M, cols, rowLo, colLo, rowHi, colHi);
    var R := WriteWindow(M, cols, rowLo, colLo, W, colHi - colLo);
    CellsDetermineMatrix(R, M, |M|, cols);
  }
}
