/** The permutation applier of the recursive LU driver: it reorders a band of rows,
    restricted to a band of columns, by a local permutation, and composes that
    permutation into the global row permutation in the same pass. */
module RowPermutation {
  import opened Matrices
  import opened Permutations

  /** The pair the driver threads through its steps: the global permutation P
      and the combined factor LU. */
  datatype State<T> = State(perm: seq<int>, lu: Mat<T>)

  /** What the applier needs of its arguments: every row it reads or writes
      exists, and the global permutation has one entry per row. */
  predicate ApplicableTo<T>(AP: seq<int>, A: Mat<T>, cols: nat, P: seq<int>,
                            numRows: nat, rowOffset: nat, numCols: nat, colOffset: nat)
  {
    && IsMatrix(A, |A|, cols) && |AP| == |A|
    && rowOffset + numRows <= |A| && colOffset + numCols <= cols && numRows <= |P|
    && forall i :: 0 <= i < numRows ==> 0 <= P[i] + rowOffset < |A|
  }

  /** The scratch copy of the band, in the new order: its row i is the band part of
      row P[i] + rowOffset. Everything is read before anything is written back. */
  function GatherRows<T>(A: Mat<T>, cols: nat, P: seq<int>, numRows: nat, rowOffset: nat,
                         numCols: nat, colOffset: nat): (tmp: Mat<T>)
    requires IsMatrix(A, |A|, cols) && colOffset + numCols <= cols && numRows <= |P|
    requires forall i :: 0 <= i < numRows ==> 0 <= P[i] + rowOffset < |A|
    ensures IsMatrix(tmp, numRows, numCols)
    ensures forall i, k :: 0 <= i < numRows && 0 <= k < numCols ==>
              tmp[i][k] == A[P[i] + rowOffset][colOffset + k]
  {
    seq(numRows, i requires 0 <= i < numRows => A[P[i] + rowOffset][colOffset..colOffset + numCols])
  }

  /** AP with positions [rowOffset, rowOffset + numRows) taken from AP at the
      positions the local permutation names. */
  function ComposeInto(AP: seq<int>, P: seq<int>, numRows: nat, rowOffset: nat): (AP': seq<int>)
    requires rowOffset + numRows <= |AP| && numRows <= |P|
    requires forall i :: 0 <= i < numRows ==> 0 <= P[i] + rowOffset < |AP|
    ensures |AP'| == |AP|
    ensures forall x :: rowOffset <= x < rowOffset + numRows ==> AP'[x] == AP[P[x - rowOffset] + rowOffset]
    ensures forall x {:trigger AP'[x]} :: 0 <= x < |AP| && !(rowOffset <= x < rowOffset + numRows) ==> AP'[x] == AP[x]
  {
    var tmp := seq(numRows, i requires 0 <= i < numRows => AP[P[i] + rowOffset]);
    AP[..rowOffset] + tmp + AP[rowOffset + numRows..]
  }

  /** _apply_permutation: row rowOffset + i of the band becomes the old row
      P[i] + rowOffset of the band, and AP is composed with P the same way. The
      band is first copied out in the new order and then written back, as are the
      affected entries of AP. The lemmas below state the effect cell by cell. */
  function ApplyPermutation<T>(AP: seq<int>, A: Mat<T>, cols: nat, P: seq<int>,
                               numRows: nat, rowOffset: nat, numCols: nat, colOffset: nat): (s: State<T>)
    requires ApplicableTo(AP, A, cols, P, numRows, rowOffset, numCols, colOffset)
    ensures IsMatrix(s.lu, |A|, cols) && |s.perm| == |AP|
  {
    if numRows == 0 then State(AP, A)
    else
      var tmp := GatherRows(A, cols, P, numRows, rowOffset, numCols, colOffset);
      State(ComposeInto(AP, P, numRows, rowOffset), WriteWindow(A, cols, rowOffset, colOffset, tmp, numCols))
  }

  /** Inside the row band and the column band, row rowOffset + i holds the old
      row P[i] + rowOffset; every cell outside the two bands is unchanged. */
  lemma ApplyMovesCells<T>(AP: seq<int>, A: Mat<T>, cols: nat, P: seq<int>,
                           numRows: nat, rowOffset: nat, numCols: nat, colOffset: nat)
    requires ApplicableTo(AP, A, cols, P, numRows, rowOffset, numCols, colOffset)
    ensures var s := ApplyPermutation(AP, A, cols, P, numRows, rowOffset, numCols, colOffset);
            forall x, y {:trigger s.lu[x][y]} :: 0 <= x < |A| && 0 <= y < cols ==>
              s.lu[x][y] == if rowOffset <= x < rowOffset + numRows && colOffset <= y < colOffset + numCols
                            then A[P[x - rowOffset] + rowOffset][y] else A[x][y]
  {
  }

  /** Inside the row band, AP[rowOffset + i] becomes the old AP[P[i] + rowOffset];
      the entries outside the band are unchanged. */
  lemma ApplyComposes<T>(AP: seq<int>, A: Mat<T>, cols: nat, P: seq<int>,
                         numRows: nat, rowOffset: nat, numCols: nat, colOffset: nat)
    requires ApplicableTo(AP, A, cols, P, numRows, rowOffset, numCols, colOffset)
    ensures var s := ApplyPermutation(AP, A, cols, P, numRows, rowOffset, numCols, colOffset);
            forall x {:trigger s.perm[x]} :: 0 <= x < |AP| ==>
              s.perm[x] == if rowOffset <= x < rowOffset + numRows then AP[P[x - rowOffset] + rowOffset] else AP[x]
  {
  }

  /** With no rows to move, neither the matrix nor the global permutation changes. */
  lemma ApplyNothingIsNoOp<T>(AP: seq<int>, A: Mat<T>, cols: nat, P: seq<int>,
                              rowOffset: nat, numCols: nat, colOffset: nat)
    requires ApplicableTo(AP, A, cols, P, 0, rowOffset, numCols, colOffset)
    ensures ApplyPermutation(AP, A, cols, P, 0, rowOffset, numCols, colOffset) == State(AP, A)
  {
    var s := ApplyPermutation(AP, A, cols, P, 0, rowOffset, numCols, colOffset);
    ApplyMovesCells(AP, A, cols, P, 0, rowOffset, numCols, colOffset);
    CellsDetermineMatrix(s.lu, A, |A|, cols);
    assert s.perm == AP;
  }

  /** Rows outside the band are not touched at all. */
  lemma ApplyKeepsOtherRows<T>(AP: seq<int>, A: Mat<T>, cols: nat, P: seq<int>,
                               numRows: nat, rowOffset: nat, numCols: nat, colOffset: nat)
    requires ApplicableTo(AP, A, cols, P, numRows, rowOffset, numCols, colOffset)
    ensures forall x :: 0 <= x < |A| && !(rowOffset <= x < rowOffset + numRows) ==>
              ApplyPermutation(AP, A, cols, P, numRows, rowOffset, numCols, colOffset).lu[x] == A[x]
  {
    var s := ApplyPermutation(AP, A, cols, P, numRows, rowOffset, numCols, colOffset);
    ApplyMovesCells(AP, A, cols, P, numRows, rowOffset, numCols, colOffset);
    forall x | 0 <= x < |A| && !(rowOffset <= x < rowOffset + numRows)
      ensures s.lu[x] == A[x]
    {
      assert forall y :: 0 <= y < cols ==> s.lu[x][y] == A[x][y];
    }
  }

  /** Composing a bijection on [0, m) with a bijection of one of its bands gives
      a bijection on [0, m) again. */
  lemma ApplyKeepsPermutation<T>(AP: seq<int>, A: Mat<T>, cols: nat, P: seq<int>,
                                 numRows: nat, rowOffset: nat, numCols: nat, colOffset: nat)
    requires ApplicableTo(AP, A, cols, P, numRows, rowOffset, numCols, colOffset)
    requires IsPermutation(AP, |A|) && IsPermutation(P, numRows)
    ensures IsPermutation(ApplyPermutation(AP, A, cols, P, numRows, rowOffset, numCols, colOffset).perm, |A|)
  {
    var s := ApplyPermutation(AP, A, cols, P, numRows, rowOffset, numCols, colOffset);
    ApplyComposes(AP, A, cols, P, numRows, rowOffset, numCols, colOffset);
    forall x, y | 0 <= x < |A| && 0 <= y < |A| && x != y
      ensures DistinctAt(s.perm, x, y)
    {
      var inX, inY := rowOffset <= x < rowOffset + numRows, rowOffset <= y < rowOffset + numRows;
      // the positions of AP that x and y take their entries from
      var sx := if inX then P[x - rowOffset] + rowOffset else x;
      var sy := if inY then P[y - rowOffset] + rowOffset else y;
      assert s.perm[x] == AP[sx] && s.perm[y] == AP[sy];
      if inX && inY {
        assert DistinctAt(P, x - rowOffset, y - rowOffset);
      }
      assert sx != sy;
      assert DistinctAt(AP, sx, sy);
    }
  }

  /** Composing the identity with a permutation of all rows gives that permutation. */
  lemma ComposeIdentity<T>(A: Mat<T>, cols: nat, P: seq<int>, numCols: nat, colOffset: nat)
    requires ApplicableTo(Identity(|A|), A, cols, P, |A|, 0, numCols, colOffset) && |P| == |A|
    ensures ApplyPermutation(Identity(|A|), A, cols, P, |A|, 0, numCols, colOffset).perm == P
  {
    ApplyComposes(Identity(|A|), A, cols, P, |A|, 0, numCols, colOffset);
  }
}
