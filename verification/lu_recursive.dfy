/** ca_mat_lu_recursive: the recursive, rank-revealing LU driver. It factors the
    left half of the columns, applies the resulting row permutation to the right
    half, forms the Schur complement, factors the lower-right block, applies that
    permutation to the lower-left block and finally compresses L when the left
    half was rank deficient. The driver is split into the steps before the second
    recursive call (`AfterLeft`, with `SchurUpdate`) and the steps after it
    (`Finish`), so that lemmas can name the intermediate results. */
module RecursiveLu {
  import opened Matrices
  import opened Permutations
  import opened RowPermutation
  import opened CompressL
  import opened LuContracts

  /** Below this many rows or columns the classical solver is used. */
  const Threshold: nat := 4

  predicate IsBaseCase(m: nat, n: nat)
  {
    m < Threshold || n < Threshold
  }

  /** The first exit test: the left recursion failed, or the rank check wants the
      left n1 columns to have full column rank and they do not. */
  predicate LeftFailed<T>(left: LuResult<T>, n1: int, rankCheck: bool)
  {
    !left.success || (rankCheck && left.rank != n1)
  }

  /** The second exit test: the lower-right recursion failed, or the rank check
      is set and the two ranks together fall short of min(m, n). */
  predicate RightFailed<T>(right: LuResult<T>, r1: int, m: int, n: int, rankCheck: bool)
  {
    !right.success || (rankCheck && r1 + right.rank < Min(m, n))
  }

  /** The Schur-complement update on the four windows split at (r1, n1): A01 is
      replaced by the solution X of A00 X = A01 (A00 unit lower triangular), and
      A11 by A11 - A10 X. Only the right block of columns [n1, n) is written. */
  function SchurUpdate<T(!new)>(ops: Ops<T>, LU: Mat<T>, n: nat, r1: nat, n1: nat): (R: Mat<T>)
    requires Sound(ops) && IsMatrix(LU, |LU|, n)
    requires 0 < r1 <= |LU| && r1 <= n1 <= n
    ensures IsMatrix(R, |LU|, n)
    ensures forall i, j {:trigger R[i][j]} :: 0 <= i < |LU| && 0 <= j < n1 ==> R[i][j] == LU[i][j]
    ensures forall i, j {:trigger R[i][j]} :: 0 <= i < r1 && n1 <= j < n ==>
              R[i][j] == ops.solveTril(Window(LU, n, 0, 0, r1, r1), Window(LU, n, 0, n1, r1, n))[i][j - n1]
    ensures var X := ops.solveTril(Window(LU, n, 0, 0, r1, r1), Window(LU, n, 0, n1, r1, n));
            var D := ops.sub(Window(LU, n, r1, n1, |LU|, n), ops.mul(Window(LU, n, r1, 0, |LU|, r1), X));
            forall i, j {:trigger R[i][j]} :: r1 <= i < |LU| && n1 <= j < n ==> R[i][j] == D[i - r1][j - n1]
  {
    var m := |LU|;
    var A00 := Window(LU, n, 0, 0, r1, r1);
    var A01 := Window(LU, n, 0, n1, r1, n);
    var X := ops.solveTril(A00, A01);
    WidthOf(A01, r1, n - n1);
    var LU1 := WriteWindow(LU, n, 0, n1, X, n - n1);
    var A10 := Window(LU1, n, r1, 0, m, r1);
    WindowsAgree(LU1, LU, n, r1, 0, m, r1);
    var T := ops.mul(A10, X);
    WidthOf(X, r1, n - n1);
    var A11 := Window(LU1, n, r1, n1, m, n);
    WindowsAgree(LU1, LU, n, r1, n1, m, n);
    WidthOf(A11, m - r1, n - n1);
    var D := ops.sub(A11, T);
    WriteWindow(LU1, n, r1, n1, D, n - n1)
  }

  /** Two matrices that agree on a block have equal windows onto it. */
  lemma WindowsAgree<T>(M: Mat<T>, N: Mat<T>, cols: nat, rowLo: nat, colLo: nat, rowHi: nat, colHi: nat)
    requires IsMatrix(M, |M|, cols) && IsMatrix(N, |M|, cols)
    requires rowLo <= rowHi <= |M| && colLo <= colHi <= cols
    requires forall i, j :: rowLo <= i < rowHi && colLo <= j < colHi ==> M[i][j] == N[i][j]
    ensures Window(M, cols, rowLo, colLo, rowHi, colHi) == Window(N, cols, rowLo, colLo, rowHi, colHi)
  {
    CellsDetermineMatrix(Window(M, cols, rowLo, colLo, rowHi, colHi), Window(N, cols, rowLo, colLo, rowHi, colHi),
                         rowHi - rowLo, colHi - colLo);
  }

  /** The state (P, LU) just before the second recursive call, given the factor
      LU whose left n1 columns the first recursion has just rewritten in place
      and that recursion's result `left`. P starts as the identity; when r1 > 0
      the left permutation is applied to the right columns and composed into P,
      and the Schur complement is formed. */
  function AfterLeft<T(!new)>(ops: Ops<T>, LU: Mat<T>, n: nat, n1: nat, left: LuResult<T>): (mid: State<T>)
    requires Sound(ops) && IsMatrix(LU, |LU|, n) && n1 <= n
    requires 0 <= left.rank <= Min(|LU|, n1) && IsPermutation(left.perm, |LU|)
    ensures IsMatrix(mid.lu, |LU|, n) && IsPermutation(mid.perm, |LU|)
    ensures mid.perm == if left.rank != 0 then left.perm else Identity(|LU|)
    ensures forall i, j {:trigger mid.lu[i][j]} :: 0 <= i < |LU| && 0 <= j < n1 ==> mid.lu[i][j] == LU[i][j]
    ensures left.rank == 0 ==> mid.lu == LU
  {
    var m := |LU|;
    var r1 := left.rank;
    if r1 == 0 then State(Identity(m), LU)
    else
      ComposeIdentity(LU, n, left.perm, n - n1, n1);
      ApplyKeepsPermutation(Identity(m), LU, n, left.perm, m, 0, n - n1, n1);
      var s := ApplyPermutation(Identity(m), LU, n, left.perm, m, 0, n - n1, n1);
      State(s.perm, SchurUpdate(ops, s.lu, n, r1, n1))
  }

  /** SchurUpdate's contract as whole blocks: the top-right block is X and the
      bottom-right block is A11 - A10 X. */
  lemma SchurBlocks<T(!new)>(ops: Ops<T>, M: Mat<T>, n: nat, r1: nat, n1: nat)
    requires Sound(ops) && IsMatrix(M, |M|, n)
    requires 0 < r1 <= |M| && r1 <= n1 <= n
    ensures var R := SchurUpdate(ops, M, n, r1, n1);
            var X := ops.solveTril(Window(M, n, 0, 0, r1, r1), Window(M, n, 0, n1, r1, n));
            && Window(R, n, 0, n1, r1, n) == X
            && Window(R, n, r1, n1, |M|, n) == ops.sub(Window(M, n, r1, n1, |M|, n), ops.mul(Window(M, n, r1, 0, |M|, r1), X))
  {
    var m := |M|;
    var R := SchurUpdate(ops, M, n, r1, n1);
    var A01 := Window(M, n, 0, n1, r1, n);
    var X := ops.solveTril(Window(M, n, 0, 0, r1, r1), A01);
    WidthOf(A01, r1, n - n1);
    WidthOf(X, r1, n - n1);
    CellsDetermineMatrix(Window(R, n, 0, n1, r1, n), X, r1, n - n1);
    var A11 := Window(M, n, r1, n1, m, n);
    WidthOf(A11, m - r1, n - n1);
    var D := ops.sub(A11, ops.mul(Window(M, n, r1, 0, m, r1), X));
    WidthOf(D, m - r1, n - n1);
    CellsDetermineMatrix(Window(R, n, r1, n1, m, n), D, m - r1, n - n1);
  }

  /** Applying the left permutation to the right columns makes them the gathered
      rows B (row i of B is the right part of row P1[i]), and leaves the left
      columns as they were. */
  lemma PermutedRightHalf<T>(LU: Mat<T>, n: nat, n1: nat, P1: seq<int>)
    requires IsMatrix(LU, |LU|, n) && n1 <= n && IsPermutation(P1, |LU|)
    ensures var s := ApplyPermutation(Identity(|LU|), LU, n, P1, |LU|, 0, n - n1, n1);
            && Window(s.lu, n, 0, n1, |LU|, n) == GatherRows(LU, n, P1, |LU|, 0, n - n1, n1)
            && forall i, j :: 0 <= i < |LU| && 0 <= j < n1 ==> s.lu[i][j] == LU[i][j]
  {
    var m := |LU|;
    ApplyMovesCells(Identity(m), LU, n, P1, m, 0, n - n1, n1);
    var s := ApplyPermutation(Identity(m), LU, n, P1, m, 0, n - n1, n1);
    CellsDetermineMatrix(Window(s.lu, n, 0, n1, m, n), GatherRows(LU, n, P1, m, 0, n - n1, n1), m, n - n1);
  }

  /** What lines 77-95 leave in the right columns when r1 > 0: with B the right
      half of LU with its rows reordered by P1, the top r1 rows hold X, the
      solution of A00 X = B[..r1], and the rows below hold B[r1..] - A10 X. A00 and
      A10 are read from the left columns, which the permutation does not touch. */
  lemma AfterLeftRightBlock<T(!new)>(ops: Ops<T>, LU: Mat<T>, n: nat, n1: nat, left: LuResult<T>)
    requires Sound(ops) && IsMatrix(LU, |LU|, n) && n1 <= n
    requires 0 < left.rank <= Min(|LU|, n1) && IsPermutation(left.perm, |LU|)
    ensures var m := |LU|;
            var r1 := left.rank;
            var mid := AfterLeft(ops, LU, n, n1, left);
            var B := GatherRows(LU, n, left.perm, m, 0, n - n1, n1);
            var X := ops.solveTril(Window(LU, n, 0, 0, r1, r1), B[..r1]);
            && Window(mid.lu, n, 0, n1, r1, n) == X
            && Window(mid.lu, n, r1, n1, m, n) == ops.sub(B[r1..], ops.mul(Window(LU, n, r1, 0, m, r1), X))
  {
    var m := |LU|;
    var r1 := left.rank;
    var s := ApplyPermutation(Identity(m), LU, n, left.perm, m, 0, n - n1, n1);
    var B := GatherRows(LU, n, left.perm, m, 0, n - n1, n1);
    PermutedRightHalf(LU, n, n1, left.perm);
    WindowsAgree(s.lu, LU, n, 0, 0, r1, r1);
    WindowsAgree(s.lu, LU, n, r1, 0, m, r1);
    var W := Window(s.lu, n, 0, n1, m, n);
    CellsDetermineMatrix(Window(s.lu, n, 0, n1, r1, n), W[..r1], r1, n - n1);
    CellsDetermineMatrix(Window(s.lu, n, r1, n1, m, n), W[r1..], m - r1, n - n1);
    SchurBlocks(ops, s.lu, n, r1, n1);
  }

  /** The success path after the second recursive call (lines 105-121): the
      lower-right permutation is applied to the lower-left columns and composed
      into P, and L is compressed when r1 != n1. */
  function FinishSuccess<T>(zero: T, P: seq<int>, LU: Mat<T>, n: nat, n1: nat, r1: nat, right: LuResult<T>): (out: State<T>)
    requires IsMatrix(LU, |LU|, n) && IsPermutation(P, |LU|)
    requires r1 <= |LU| && r1 <= n1 <= n
    requires 0 <= right.rank <= Min(|LU| - r1, n - n1) && IsPermutation(right.perm, |LU| - r1)
    ensures IsMatrix(out.lu, |LU|, n) && IsPermutation(out.perm, |LU|)
    ensures forall i {:trigger out.perm[i]} :: 0 <= i < |LU| ==>
              out.perm[i] == if i < r1 then P[i] else P[right.perm[i - r1] + r1]
    ensures forall i {:trigger out.lu[i]} :: 0 <= i < r1 ==> out.lu[i] == LU[i]
  {
    var m := |LU|;
    ApplyLowerRows(P, LU, n, n1, r1, right.perm);
    var s := ApplyPermutation(P, LU, n, right.perm, m - r1, r1, n1, 0);
    var lu := if r1 != n1 then Compress(s.lu, n, r1, n1, right.rank, zero) else s.lu;
    State(s.perm, lu)
  }

  /** Applying a permutation of the rows [r1, m) to the lower-left columns keeps P a
      permutation, composes it into P, and leaves rows [0, r1) alone. */
  lemma ApplyLowerRows<T>(P: seq<int>, LU: Mat<T>, n: nat, n1: nat, r1: nat, P2: seq<int>)
    requires IsMatrix(LU, |LU|, n) && IsPermutation(P, |LU|)
    requires r1 <= |LU| && n1 <= n && IsPermutation(P2, |LU| - r1)
    ensures var s := ApplyPermutation(P, LU, n, P2, |LU| - r1, r1, n1, 0);
            && IsPermutation(s.perm, |LU|)
            && (forall i {:trigger s.perm[i]} :: 0 <= i < |LU| ==>
                  s.perm[i] == if i < r1 then P[i] else P[P2[i - r1] + r1])
            && (forall i {:trigger s.lu[i]} :: 0 <= i < r1 ==> s.lu[i] == LU[i])
  {
    var m := |LU|;
    ApplyKeepsPermutation(P, LU, n, P2, m - r1, r1, n1, 0);
    ApplyComposes(P, LU, n, P2, m - r1, r1, n1, 0);
    ApplyKeepsOtherRows(P, LU, n, P2, m - r1, r1, n1, 0);
  }

  /** Everything after the second recursive call, whose result is already written
      into its window of `mid.lu`. The second exit resets both ranks, so the
      reported rank is 0, but it leaves the success flag as the second call set
      it. The caller has passed the first gate, so under the rank check r1 == n1,
      and then the rank clause of the second gate cannot fire on a successful
      second call (`SecondRankClauseDead`): the flag is false on that exit. */
  function Finish<T>(ops: Ops<T>, mid: State<T>, n: nat, n1: nat, r1: int, right: LuResult<T>,
                     rankCheck: bool): (out: LuResult<T>)
    requires IsMatrix(mid.lu, |mid.lu|, n) && IsPermutation(mid.perm, |mid.lu|)
    requires 0 <= r1 <= |mid.lu| && r1 <= n1 <= n
    requires LuContract(right, |mid.lu| - r1, n - n1, rankCheck)
    requires rankCheck ==> r1 == n1
    ensures LuContract(out, |mid.lu|, n, rankCheck)
    ensures IsPermutation(out.perm, |mid.lu|)
    ensures out.success <==> right.success
    ensures out.success ==> !RightFailed(right, r1, |mid.lu|, n, rankCheck)
    ensures out.rank == if RightFailed(right, r1, |mid.lu|, n, rankCheck) then 0 else r1 + right.rank
    ensures out.success ==> forall i {:trigger out.perm[i]} :: 0 <= i < |mid.lu| ==>
              out.perm[i] == if i < r1 then mid.perm[i] else mid.perm[right.perm[i - r1] + r1]
    ensures RightFailed(right, r1, |mid.lu|, n, rankCheck) ==> out.perm == mid.perm
    ensures forall i {:trigger out.lu[i]} :: 0 <= i < r1 ==> out.lu[i] == mid.lu[i]
  {
    var m := |mid.lu|;
    var LU := WriteWindow(mid.lu, n, r1, n1, right.lu, n - n1);
    TopRowsKept(mid.lu, n, r1, n1, right.lu);
    SecondRankClauseDead(right, r1, m, n, n1, rankCheck);
    CombinedRank(right, r1, m, n, n1, rankCheck);
    if RightFailed(right, r1, m, n, rankCheck) then
      assert !right.success;
      // cleanup2: r1 = r2 = 0, and `success` keeps the second call's value
      LuResult(right.success, 0, mid.perm, LU)
    else
      var s := FinishSuccess(ops.zero, mid.perm, LU, n, n1, r1, right);
      LuResult(true, r1 + right.rank, s.perm, s.lu)
  }

  /** Past the first gate, the rank clause of the second gate never fires on a
      successful second call: under the rank check r1 == n1, and the second call's
      full rank min(m - n1, n - n1) brings r1 + r2 to min(m, n). */
  lemma SecondRankClauseDead<T>(right: LuResult<T>, r1: int, m: nat, n: nat, n1: nat, rankCheck: bool)
    requires 0 <= r1 <= m && r1 <= n1 <= n
    requires LuContract(right, m - r1, n - n1, rankCheck)
    requires rankCheck ==> r1 == n1
    ensures right.success ==> !RightFailed(right, r1, m, n, rankCheck)
  {
  }

  /** Past the second gate, r1 + r2 is a rank of the whole m x n matrix, and a full
      one under the rank check. */
  lemma CombinedRank<T>(right: LuResult<T>, r1: int, m: nat, n: nat, n1: nat, rankCheck: bool)
    requires 0 <= r1 <= m && r1 <= n1 <= n
    requires LuContract(right, m - r1, n - n1, rankCheck)
    ensures !RightFailed(right, r1, m, n, rankCheck) ==>
              && 0 <= r1 + right.rank <= Min(m, n)
              && (rankCheck ==> r1 + right.rank == Min(m, n))
  {
  }

  /** Writing a block at row r1 leaves rows [0, r1) as they were. */
  lemma TopRowsKept<T>(M: Mat<T>, n: nat, r1: nat, n1: nat, W: Mat<T>)
    requires r1 <= |M| && n1 <= n && IsMatrix(M, |M|, n) && IsMatrix(W, |M| - r1, n - n1)
    ensures forall i :: 0 <= i < r1 ==> WriteWindow(M, n, r1, n1, W, n - n1)[i] == M[i]
  {
    var R := WriteWindow(M, n, r1, n1, W, n - n1);
    forall i | 0 <= i < r1 ensures R[i] == M[i] {
      assert forall j :: 0 <= j < n ==> R[i][j] == M[i][j];
    }
  }

  /** ca_mat_lu_recursive(rank, P, LU, A, rank_check) on an m x n matrix A. The
      output LU starts as a copy of A (when they alias, it already is A), so the
      model takes A as the initial LU. Small inputs go to the classical solver;
      otherwise the left n/2 columns are factored first and `AfterFirstCall` does
      the rest. */
  function LuRecursive<T(!new)>(ops: Ops<T>, A: Mat<T>, n: nat, rankCheck: bool): (out: LuResult<T>)
    requires Sound(ops) && IsMatrix(A, |A|, n)
    ensures LuContract(out, |A|, n, rankCheck)
    ensures IsBaseCase(|A|, n) ==> out == ops.classical(A, n, rankCheck)
    ensures !IsBaseCase(|A|, n) ==> IsPermutation(out.perm, |A|)
    decreases n, 3
  {
    if IsBaseCase(|A|, n) then ops.classical(A, n, rankCheck)
    else AfterFirstCall(ops, A, n, rankCheck, LuRecursive(ops, Window(A, n, 0, 0, |A|, n / 2), n / 2, rankCheck))
  }

  /** Lines 69-133, given the result `left` of the recursive call on the left n1
      columns, which has written its factor into those columns of LU. */
  function AfterFirstCall<T(!new)>(ops: Ops<T>, A: Mat<T>, n: nat, rankCheck: bool, left: LuResult<T>): (out: LuResult<T>)
    requires Sound(ops) && IsMatrix(A, |A|, n) && !IsBaseCase(|A|, n)
    requires LuContract(left, |A|, n / 2, rankCheck)
    ensures LuContract(out, |A|, n, rankCheck)
    ensures IsPermutation(out.perm, |A|)
    ensures LeftFailed(left, n / 2, rankCheck) ==> !out.success && out.rank == left.rank
    decreases n, 2
  {
    var LU := WriteWindow(A, n, 0, 0, left.lu, n / 2);
    if LeftFailed(left, n / 2, rankCheck) then
      // cleanup1: r2 is still 0, so the reported rank is r1
      LuResult(false, left.rank, Identity(|A|), LU)
    else
      SecondHalf(ops, LU, n, rankCheck, left)
  }

  /** Lines 77-133, past the first gate: permute and update the right columns,
      factor the lower-right block recursively, and finish. */
  function SecondHalf<T(!new)>(ops: Ops<T>, LU: Mat<T>, n: nat, rankCheck: bool, left: LuResult<T>): (out: LuResult<T>)
    requires Sound(ops) && IsMatrix(LU, |LU|, n) && !IsBaseCase(|LU|, n)
    requires LuContract(left, |LU|, n / 2, rankCheck) && !LeftFailed(left, n / 2, rankCheck)
    ensures LuContract(out, |LU|, n, rankCheck)
    ensures IsPermutation(out.perm, |LU|)
    decreases n, 1
  {
    hide Sound, IsPermutation;
    Finish(ops, AfterLeft(ops, LU, n, n / 2, left), n, n / 2, left.rank, RightOf(ops, LU, n, rankCheck, left), rankCheck)
  }

  /** The second recursive call, on the lower-right block of the state AfterLeft
      leaves (line 97). */
  function RightOf<T(!new)>(ops: Ops<T>, LU: Mat<T>, n: nat, rankCheck: bool, left: LuResult<T>): (right: LuResult<T>)
    requires Sound(ops) && IsMatrix(LU, |LU|, n) && !IsBaseCase(|LU|, n)
    requires LuContract(left, |LU|, n / 2, rankCheck) && !LeftFailed(left, n / 2, rankCheck)
    ensures LuContract(right, |LU| - left.rank, n - n / 2, rankCheck)
    decreases n, 0
  {
    LuRecursive(ops, Window(AfterLeft(ops, LU, n, n / 2, left).lu, n, left.rank, n / 2, |LU|, n), n - n / 2, rankCheck)
  }

  /* The two recursive calls of the driver on A and the state between them, named
     for the lemmas below. */

  ghost function LeftCall<T(!new)>(ops: Ops<T>, A: Mat<T>, n: nat, rankCheck: bool): (left: LuResult<T>)
    requires Sound(ops) && IsMatrix(A, |A|, n)
    ensures LuContract(left, |A|, n / 2, rankCheck)
  {
    LuRecursive(ops, Window(A, n, 0, 0, |A|, n / 2), n / 2, rankCheck)
  }

  /** LU once the left recursion has written its factor into the left columns. */
  ghost function LeftWritten<T(!new)>(ops: Ops<T>, A: Mat<T>, n: nat, rankCheck: bool): (LU: Mat<T>)
    requires Sound(ops) && IsMatrix(A, |A|, n)
    ensures IsMatrix(LU, |A|, n)
  {
    WriteWindow(A, n, 0, 0, LeftCall(ops, A, n, rankCheck).lu, n / 2)
  }

  ghost function RightCall<T(!new)>(ops: Ops<T>, A: Mat<T>, n: nat, rankCheck: bool): (right: LuResult<T>)
    requires Sound(ops) && IsMatrix(A, |A|, n) && !IsBaseCase(|A|, n)
    requires !LeftFailed(LeftCall(ops, A, n, rankCheck), n / 2, rankCheck)
    ensures LuContract(right, |A| - LeftCall(ops, A, n, rankCheck).rank, n - n / 2, rankCheck)
  {
    hide Sound;
    RightOf(ops, LeftWritten(ops, A, n, rankCheck), n, rankCheck, LeftCall(ops, A, n, rankCheck))
  }

  /** Past the first exit, the call on A is SecondHalf on the left-factored LU. */
  lemma UnfoldToSecondHalf<T(!new)>(ops: Ops<T>, A: Mat<T>, n: nat, rankCheck: bool)
    requires Sound(ops) && IsMatrix(A, |A|, n) && !IsBaseCase(|A|, n)
    requires !LeftFailed(LeftCall(ops, A, n, rankCheck), n / 2, rankCheck)
    ensures LuRecursive(ops, A, n, rankCheck) ==
            SecondHalf(ops, LeftWritten(ops, A, n, rankCheck), n, rankCheck, LeftCall(ops, A, n, rankCheck))
  {
    var left := LeftCall(ops, A, n, rankCheck);
    var LU := LeftWritten(ops, A, n, rankCheck);
    assert LuRecursive(ops, A, n, rankCheck) == AfterFirstCall(ops, A, n, rankCheck, left);
    assert AfterFirstCall(ops, A, n, rankCheck, left) == SecondHalf(ops, LU, n, rankCheck, left);
  }

  /** First exit: when the left recursion fails, or the rank check finds its rank
      r1 below n1, the call fails with P the identity and reports rank r1, not 0,
      because r2 is still 0 when the rank is written. */
  lemma FirstExitReportsLeftRank<T(!new)>(ops: Ops<T>, A: Mat<T>, n: nat, rankCheck: bool)
    requires Sound(ops) && IsMatrix(A, |A|, n) && !IsBaseCase(|A|, n)
    requires LeftFailed(LeftCall(ops, A, n, rankCheck), n / 2, rankCheck)
    ensures var out := LuRecursive(ops, A, n, rankCheck);
            && !out.success
            && out.rank == LeftCall(ops, A, n, rankCheck).rank
            && out.perm == Identity(|A|)
  {
  }

  /** Past the first exit, the call succeeds exactly when the second recursion
      succeeds and, with the rank check set, r1 + r2 reaches min(m, n). A success
      reports rank r1 + r2; the second exit reports rank 0. */
  lemma SecondHalfDecides<T(!new)>(ops: Ops<T>, A: Mat<T>, n: nat, rankCheck: bool)
    requires Sound(ops) && IsMatrix(A, |A|, n) && !IsBaseCase(|A|, n)
    requires !LeftFailed(LeftCall(ops, A, n, rankCheck), n / 2, rankCheck)
    ensures var left := LeftCall(ops, A, n, rankCheck);
            var right := RightCall(ops, A, n, rankCheck);
            var out := LuRecursive(ops, A, n, rankCheck);
            && (out.success <==> right.success)
            && (out.success <==> !RightFailed(right, left.rank, |A|, n, rankCheck))
            && out.rank == (if out.success then left.rank + right.rank else 0)
  {
    hide LuRecursive, AfterFirstCall, SecondHalf, Finish, AfterLeft, RightOf, Sound, LeftWritten, LeftCall;
    UnfoldToSecondHalf(ops, A, n, rankCheck);
    SecondHalfDecidesAt(ops, LeftWritten(ops, A, n, rankCheck), n, rankCheck, LeftCall(ops, A, n, rankCheck));
  }

  /** SecondHalfDecides for SecondHalf on any LU past the first gate. */
  lemma SecondHalfDecidesAt<T(!new)>(ops: Ops<T>, LU: Mat<T>, n: nat, rankCheck: bool, left: LuResult<T>)
    requires Sound(ops) && IsMatrix(LU, |LU|, n) && !IsBaseCase(|LU|, n)
    requires LuContract(left, |LU|, n / 2, rankCheck) && !LeftFailed(left, n / 2, rankCheck)
    ensures var right := RightOf(ops, LU, n, rankCheck, left);
            var out := SecondHalf(ops, LU, n, rankCheck, left);
            && (out.success <==> right.success)
            && (out.success <==> !RightFailed(right, left.rank, |LU|, n, rankCheck))
            && out.rank == (if out.success then left.rank + right.rank else 0)
  {
    hide Finish, AfterLeft, RightOf, Sound;
  }

  /** On success the final P is the composition of the two sub-permutations: row i
      of the result is original row sigma(i < r1 ? i : P2[i - r1] + r1), where
      sigma is the left permutation P1 when r1 > 0 and the identity when r1 == 0
      (the first application is skipped then). */
  lemma PermutationComposes<T(!new)>(ops: Ops<T>, A: Mat<T>, n: nat, rankCheck: bool)
    requires Sound(ops) && IsMatrix(A, |A|, n) && !IsBaseCase(|A|, n)
    requires !LeftFailed(LeftCall(ops, A, n, rankCheck), n / 2, rankCheck)
    ensures var left := LeftCall(ops, A, n, rankCheck);
            var right := RightCall(ops, A, n, rankCheck);
            var out := LuRecursive(ops, A, n, rankCheck);
            out.success ==>
              && right.success
              && forall i {:trigger out.perm[i]} :: 0 <= i < |A| ==>
                   var src := if i < left.rank then i else right.perm[i - left.rank] + left.rank;
                   out.perm[i] == if left.rank != 0 then left.perm[src] else src
  {
    hide LuRecursive, AfterFirstCall, SecondHalf, Finish, AfterLeft, RightOf, Sound, LeftWritten, LeftCall;
    var left := LeftCall(ops, A, n, rankCheck);
    var LU := LeftWritten(ops, A, n, rankCheck);
    UnfoldToSecondHalf(ops, A, n, rankCheck);
    SecondHalfComposes(ops, LU, n, rankCheck, left);
    assert RightCall(ops, A, n, rankCheck) == RightOf(ops, LU, n, rankCheck, left);
    assert |LU| == |A|;
  }

  /** PermutationComposes for SecondHalf on any LU past the first gate. */
  lemma SecondHalfComposes<T(!new)>(ops: Ops<T>, LU: Mat<T>, n: nat, rankCheck: bool, left: LuResult<T>)
    requires Sound(ops) && IsMatrix(LU, |LU|, n) && !IsBaseCase(|LU|, n)
    requires LuContract(left, |LU|, n / 2, rankCheck) && !LeftFailed(left, n / 2, rankCheck)
    ensures var right := RightOf(ops, LU, n, rankCheck, left);
            var out := SecondHalf(ops, LU, n, rankCheck, left);
            out.success ==>
              && right.success
              && forall i {:trigger out.perm[i]} :: 0 <= i < |LU| ==>
                   var src := if i < left.rank then i else right.perm[i - left.rank] + left.rank;
                   out.perm[i] == if left.rank != 0 then left.perm[src] else src
  {
    hide Finish, AfterLeft, RightOf, Sound, IsPermutation;
    FinishComposes(ops, AfterLeft(ops, LU, n, n / 2, left), |LU|, n, n / 2, left,
                   RightOf(ops, LU, n, rankCheck, left), rankCheck);
  }

  /** The final step composes the permutation it is handed, which is sigma, with the
      second recursion's permutation. */
  lemma FinishComposes<T>(ops: Ops<T>, mid: State<T>, m: nat, n: nat, n1: nat, left: LuResult<T>, right: LuResult<T>,
                          rankCheck: bool)
    requires IsMatrix(mid.lu, m, n) && IsPermutation(mid.perm, m)
    requires 0 <= left.rank <= m && left.rank <= n1 <= n
    requires LuContract(right, m - left.rank, n - n1, rankCheck)
    requires rankCheck ==> left.rank == n1
    requires mid.perm == if left.rank != 0 then left.perm else Identity(m)
    ensures var out := Finish(ops, mid, n, n1, left.rank, right, rankCheck);
            out.success ==>
              && right.success
              && forall i {:trigger out.perm[i]} :: 0 <= i < m ==>
                   var src := if i < left.rank then i else right.perm[i - left.rank] + left.rank;
                   out.perm[i] == if left.rank != 0 then left.perm[src] else src
  {
    var out := Finish(ops, mid, n, n1, left.rank, right, rankCheck);
    if out.success {
      forall i | 0 <= i < m
        ensures var src := if i < left.rank then i else right.perm[i - left.rank] + left.rank;
                out.perm[i] == if left.rank != 0 then left.perm[src] else src
      {
        var src := if i < left.rank then i else right.perm[i - left.rank] + left.rank;
        assert out.perm[i] == mid.perm[src];
      }
    }
  }

  /** Past the first exit, the top r1 rows of the left n1 columns hold what the left
      recursion left there: nothing after it writes them. */
  lemma LeftRowsStayFinal<T(!new)>(ops: Ops<T>, A: Mat<T>, n: nat, rankCheck: bool)
    requires Sound(ops) && IsMatrix(A, |A|, n) && !IsBaseCase(|A|, n)
    requires !LeftFailed(LeftCall(ops, A, n, rankCheck), n / 2, rankCheck)
    ensures var left := LeftCall(ops, A, n, rankCheck);
            var out := LuRecursive(ops, A, n, rankCheck);
            forall i, j :: 0 <= i < left.rank && 0 <= j < n / 2 ==> out.lu[i][j] == left.lu[i][j]
  {
    hide LuRecursive, AfterFirstCall, SecondHalf, Finish, AfterLeft, RightOf, Sound, LeftWritten, LeftCall;
    UnfoldToSecondHalf(ops, A, n, rankCheck);
    SecondHalfKeepsLeftRows(ops, LeftWritten(ops, A, n, rankCheck), n, rankCheck, LeftCall(ops, A, n, rankCheck));
    LeftWrittenHoldsLeft(ops, A, n, rankCheck);
  }

  /** The left columns of LU hold the left recursion's factor. */
  lemma LeftWrittenHoldsLeft<T(!new)>(ops: Ops<T>, A: Mat<T>, n: nat, rankCheck: bool)
    requires Sound(ops) && IsMatrix(A, |A|, n)
    ensures var left := LeftCall(ops, A, n, rankCheck);
            var LU := LeftWritten(ops, A, n, rankCheck);
            forall i, j :: 0 <= i < |A| && 0 <= j < n / 2 ==> LU[i][j] == left.lu[i][j]
  {
  }

  /** SecondHalf leaves the top r1 rows of the left n1 columns as it finds them. */
  lemma SecondHalfKeepsLeftRows<T(!new)>(ops: Ops<T>, LU: Mat<T>, n: nat, rankCheck: bool, left: LuResult<T>)
    requires Sound(ops) && IsMatrix(LU, |LU|, n) && !IsBaseCase(|LU|, n)
    requires LuContract(left, |LU|, n / 2, rankCheck) && !LeftFailed(left, n / 2, rankCheck)
    ensures var out := SecondHalf(ops, LU, n, rankCheck, left);
            forall i, j :: 0 <= i < left.rank && 0 <= j < n / 2 ==> out.lu[i][j] == LU[i][j]
  {
    hide Finish, AfterLeft, RightOf, Sound;
    var mid := AfterLeft(ops, LU, n, n / 2, left);
    var out := Finish(ops, mid, n, n / 2, left.rank, RightOf(ops, LU, n, rankCheck, left), rankCheck);
    forall i, j | 0 <= i < left.rank && 0 <= j < n / 2
      ensures out.lu[i][j] == LU[i][j]
    {
      assert out.lu[i] == mid.lu[i];
    }
  }

  /** With the rank check set, an input with 4 <= m < n/2 rows always fails: the
      left m x n/2 block has rank at most m < n/2, so the first exit is taken
      even when the whole matrix has full rank m. */
  lemma WideRankCheckFails<T(!new)>(ops: Ops<T>, A: Mat<T>, n: nat)
    requires Sound(ops) && IsMatrix(A, |A|, n) && Threshold <= |A| < n / 2
    ensures !LuRecursive(ops, A, n, true).success
  {
    var left := LeftCall(ops, A, n, true);
    assert left.rank <= |A| < n / 2;
    assert LeftFailed(left, n / 2, true);
  }

  /** On the success path, rows [r1, m) of the result are the rows the second
      permutation brings into place, compressed when r1 != n1. */
  lemma FinishSuccessRows<T>(zero: T, P: seq<int>, LU: Mat<T>, n: nat, n1: nat, r1: nat, right: LuResult<T>)
    requires IsMatrix(LU, |LU|, n) && IsPermutation(P, |LU|)
    requires r1 <= |LU| && r1 <= n1 <= n
    requires 0 <= right.rank <= Min(|LU| - r1, n - n1) && IsPermutation(right.perm, |LU| - r1)
    ensures var s := ApplyPermutation(P, LU, n, right.perm, |LU| - r1, r1, n1, 0);
            var out := FinishSuccess(zero, P, LU, n, n1, r1, right);
            forall k :: r1 <= k < |LU| ==>
              out.lu[k] == if r1 != n1 then CompressedRow(s.lu[k], r1, n1, Min(k - r1, right.rank), zero) else s.lu[k]
  {
    var s := ApplyPermutation(P, LU, n, right.perm, |LU| - r1, r1, n1, 0);
    if r1 != n1 {
      CompressRows(s.lu, n, r1, n1, right.rank, zero);
    }
  }
}
