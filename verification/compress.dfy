/** The "compress L" step of the recursive LU driver. When the left half of the
    columns had rank r1 below its width n1, the multipliers the second recursion
    stored for row r1 + i sit in columns n1, n1 + 1, ...; the step moves the first
    min(i, r2) of them to columns r1, r1 + 1, ... and zeroes each source cell as it
    goes. The loop is sequential, so a source cell zeroed at step j is written
    again at a later step j' when r1 + j' == n1 + j; `CompressedRow` is the closed
    form of the whole pass and `CompressRowMatches` proves the loop computes it. */
module CompressL {
  import opened Matrices

  /** The inner loop over one row, from step j on: step j moves the cell at column
      n1 + j to column r1 + j and then zeroes column n1 + j. */
  function CompressRowFrom<T>(row: seq<T>, r1: nat, n1: nat, len: nat, zero: T, j: nat): (r: seq<T>)
    requires j <= len && r1 <= n1 && n1 + len <= |row|
    ensures |r| == |row|
    decreases len - j
  {
    if j == len then row
    else CompressRowFrom(row[r1 + j := row[n1 + j]][n1 + j := zero], r1, n1, len, zero, j + 1)
  }

  /** What the row holds once the inner loop has run `len` steps: columns
      [r1, r1 + len) hold the original cells of columns [n1, n1 + len), the source
      cells not refilled that way are zero, and every other cell is as before. */
  function CompressedRow<T>(row: seq<T>, r1: nat, n1: nat, len: nat, zero: T): (r: seq<T>)
    requires r1 <= n1 && n1 + len <= |row|
    ensures |r| == |row|
  {
    seq(|row|, p requires 0 <= p < |row| =>
      if r1 <= p < r1 + len then row[p - r1 + n1]
      else if n1 <= p < n1 + len then zero
      else row[p])
  }

  /** The state of the row after the first j steps of the inner loop. */
  ghost predicate AfterSteps<T>(s: seq<T>, row: seq<T>, r1: nat, n1: nat, zero: T, j: nat)
    requires r1 < n1 && n1 + j <= |row|
  {
    |s| == |row| &&
    forall p {:trigger s[p]} :: 0 <= p < |row| ==>
      s[p] == if r1 <= p < r1 + j then row[p - r1 + n1]
              else if n1 <= p < n1 + j then zero
              else row[p]
  }

  lemma {:induction false} CompressRowFromMatches<T>(s: seq<T>, row: seq<T>, r1: nat, n1: nat, len: nat, zero: T, j: nat)
    requires j <= len && r1 < n1 && n1 + len <= |row|
    requires AfterSteps(s, row, r1, n1, zero, j)
    ensures CompressRowFrom(s, r1, n1, len, zero, j) == CompressedRow(row, r1, n1, len, zero)
    decreases len - j
  {
    if j == len {
      assert forall p :: 0 <= p < |row| ==> s[p] == CompressedRow(row, r1, n1, len, zero)[p];
    } else {
      // the source cell has not been written yet: it lies right of every destination
      // so far and is the first source not yet zeroed
      assert |s| == |row| && 0 <= n1 + j < |row|;
      assert s[n1 + j] == row[n1 + j];
      var s' := s[r1 + j := s[n1 + j]][n1 + j := zero];
      assert AfterSteps(s', row, r1, n1, zero, j + 1);
      CompressRowFromMatches(s', row, r1, n1, len, zero, j + 1);
    }
  }

  /** The sequential loop over one row computes the closed form. */
  lemma CompressRowMatches<T>(row: seq<T>, r1: nat, n1: nat, len: nat, zero: T)
    requires r1 < n1 && n1 + len <= |row|
    ensures CompressRowFrom(row, r1, n1, len, zero, 0) == CompressedRow(row, r1, n1, len, zero)
  {
    CompressRowFromMatches(row, row, r1, n1, len, zero, 0);
  }

  /** The outer loop, from row r1 + i on: row r1 + i runs min(i, r2) inner steps. */
  function CompressFrom<T>(LU: Mat<T>, cols: nat, r1: nat, n1: nat, r2: nat, zero: T, i: nat): (R: Mat<T>)
    requires IsMatrix(LU, |LU|, cols) && r1 <= n1 && n1 + r2 <= cols && r1 + i <= |LU|
    ensures IsMatrix(R, |LU|, cols)
    decreases |LU| - r1 - i
  {
    if r1 + i == |LU| then LU
    else
      var row := CompressRowFrom(LU[r1 + i], r1, n1, Min(i, r2), zero, 0);
      CompressFrom(LU[r1 + i := row], cols, r1, n1, r2, zero, i + 1)
  }

  /** The compress step over rows [r1, m) of the factor. */
  function Compress<T>(LU: Mat<T>, cols: nat, r1: nat, n1: nat, r2: nat, zero: T): (R: Mat<T>)
    requires IsMatrix(LU, |LU|, cols) && r1 <= n1 && n1 + r2 <= cols && r1 <= |LU|
    ensures IsMatrix(R, |LU|, cols)
    ensures forall k :: 0 <= k < r1 ==> R[k] == LU[k]
  {
    CompressFromKeepsTop(LU, cols, r1, n1, r2, zero, 0);
    CompressFrom(LU, cols, r1, n1, r2, zero, 0)
  }

  lemma {:induction false} CompressFromKeepsTop<T>(LU: Mat<T>, cols: nat, r1: nat, n1: nat, r2: nat, zero: T, i: nat)
    requires IsMatrix(LU, |LU|, cols) && r1 <= n1 && n1 + r2 <= cols && r1 + i <= |LU|
    ensures forall k :: 0 <= k < r1 + i ==> CompressFrom(LU, cols, r1, n1, r2, zero, i)[k] == LU[k]
    decreases |LU| - r1 - i
  {
    if r1 + i < |LU| {
      var row := CompressRowFrom(LU[r1 + i], r1, n1, Min(i, r2), zero, 0);
      CompressFromKeepsTop(LU[r1 + i := row], cols, r1, n1, r2, zero, i + 1);
    }
  }

  lemma {:induction false} CompressFromRows<T>(LU: Mat<T>, cols: nat, r1: nat, n1: nat, r2: nat, zero: T, i: nat)
    requires IsMatrix(LU, |LU|, cols) && r1 < n1 && n1 + r2 <= cols && r1 + i <= |LU|
    ensures forall k :: r1 + i <= k < |LU| ==>
              CompressFrom(LU, cols, r1, n1, r2, zero, i)[k] == CompressedRow(LU[k], r1, n1, Min(k - r1, r2), zero)
    decreases |LU| - r1 - i
  {
    if r1 + i < |LU| {
      var row := CompressRowFrom(LU[r1 + i], r1, n1, Min(i, r2), zero, 0);
      var LU' := LU[r1 + i := row];
      CompressRowMatches(LU[r1 + i], r1, n1, Min(i, r2), zero);
      CompressFromRows(LU', cols, r1, n1, r2, zero, i + 1);
      CompressFromKeepsTop(LU', cols, r1, n1, r2, zero, i + 1);
    }
  }

  /** The compress step leaves rows [0, r1) alone and turns each row r1 + i into
      its closed form with min(i, r2) moved cells. */
  lemma CompressRows<T>(LU: Mat<T>, cols: nat, r1: nat, n1: nat, r2: nat, zero: T)
    requires IsMatrix(LU, |LU|, cols) && r1 < n1 && n1 + r2 <= cols && r1 <= |LU|
    ensures forall k :: 0 <= k < |LU| ==>
              Compress(LU, cols, r1, n1, r2, zero)[k] ==
              if k < r1 then LU[k] else CompressedRow(LU[k], r1, n1, Min(k - r1, r2), zero)
  {
    CompressFromRows(LU, cols, r1, n1, r2, zero, 0);
  }

  /** Cell by cell: destinations (r1 + i, r1 + j) with j < min(i, r2) receive the
      original (r1 + i, n1 + j); nothing outside columns [r1, n1 + min(i, r2)) of
      row r1 + i changes, and rows above r1 do not change at all. */
  lemma CompressCells<T>(LU: Mat<T>, cols: nat, r1: nat, n1: nat, r2: nat, zero: T)
    requires IsMatrix(LU, |LU|, cols) && r1 < n1 && n1 + r2 <= cols && r1 <= |LU|
    ensures forall k, p {:trigger Compress(LU, cols, r1, n1, r2, zero)[k][p]} ::
              0 <= k < |LU| && 0 <= p < cols ==>
              var len := Min(k - r1, r2);
              Compress(LU, cols, r1, n1, r2, zero)[k][p] == if k < r1 then LU[k][p]
                         else if r1 <= p < r1 + len then LU[k][p - r1 + n1]
                         else if n1 <= p < n1 + len then zero
                         else LU[k][p]
  {
    CompressRows(LU, cols, r1, n1, r2, zero);
  }
}
