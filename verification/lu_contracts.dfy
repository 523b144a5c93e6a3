/** The result of a rank-revealing LU factorization and the contracts of the
    collaborators the recursive driver calls but does not define: the classical
    base-case solver, the unit lower-triangular solve, matrix multiplication and
    subtraction over the coefficient domain, and the domain's zero element. */
module LuContracts {
  import opened Matrices
  import opened Permutations

  /** What a factorization call produces: the return value (success), the rank
      written through its out-pointer, the row permutation P and the combined
      factor LU (unit lower part below the diagonal, upper part on and above it). */
  datatype LuResult<T> = LuResult(success: bool, rank: int, perm: seq<int>, lu: Mat<T>)

  /** The contract the recursive driver and the classical solver share, for an
      m x n input: LU keeps the input's shape, the rank lies in [0, min(m, n)],
      a successful call returns a permutation of [0, m), and a successful call
      with the rank check set has found full rank. */
  ghost predicate LuContract<T>(out: LuResult<T>, m: nat, n: nat, rankCheck: bool)
  {
    && IsMatrix(out.lu, m, n)
    && 0 <= out.rank <= Min(m, n)
    && (out.success ==> IsPermutation(out.perm, m))
    && (out.success && rankCheck ==> out.rank == Min(m, n))
  }

  /** The collaborators, as functions of their inputs. `classical` receives the
      input matrix, its column count and the rank-check flag. */
  datatype Ops<!T> = Ops(
    classical: (Mat<T>, nat, bool) -> LuResult<T>,
    solveTril: (Mat<T>, Mat<T>) -> Mat<T>,
    mul: (Mat<T>, Mat<T>) -> Mat<T>,
    sub: (Mat<T>, Mat<T>) -> Mat<T>,
    zero: T)

  /** The classical solver meets the shared contract on every input. */
  ghost predicate ClassicalSound<T(!new)>(classical: (Mat<T>, nat, bool) -> LuResult<T>)
  {
    forall A: Mat<T>, n: nat, rc: bool {:trigger classical(A, n, rc)} ::
      IsMatrix(A, |A|, n) ==> LuContract(classical(A, n, rc), |A|, n, rc)
  }

  /** The column count of a matrix, read off its first row (0 when it has no rows). */
  function Width<T>(M: Mat<T>): nat
  {
    if |M| == 0 then 0 else |M[0]|
  }

  /** A matrix with at least one row has the width of its rows; one without rows
      has every width. */
  lemma WidthOf<T>(M: Mat<T>, rows: nat, cols: nat)
    requires IsMatrix(M, rows, cols)
    ensures IsMatrix(M, |M|, Width(M))
    ensures forall c :: IsMatrix(M, |M|, c) <==> (rows == 0 || c == cols)
  {
  }

  /** Solving L X = B for a k x k L and a k x c B gives a k x c X. */
  ghost predicate SolveSound<T(!new)>(solveTril: (Mat<T>, Mat<T>) -> Mat<T>)
  {
    forall L: Mat<T>, B: Mat<T> {:trigger solveTril(L, B)} ::
      IsMatrix(L, |L|, |L|) && IsMatrix(B, |L|, Width(B)) ==> IsMatrix(solveTril(L, B), |L|, Width(B))
  }

  /** An a x k times a k x c product, k > 0, is a x c. */
  ghost predicate MulSound<T(!new)>(mul: (Mat<T>, Mat<T>) -> Mat<T>)
  {
    forall X: Mat<T>, Y: Mat<T> {:trigger mul(X, Y)} ::
      0 < |Y| && IsMatrix(X, |X|, |Y|) && IsMatrix(Y, |Y|, Width(Y)) ==> IsMatrix(mul(X, Y), |X|, Width(Y))
  }

  /** The difference of two a x c matrices is a x c. */
  ghost predicate SubSound<T(!new)>(sub: (Mat<T>, Mat<T>) -> Mat<T>)
  {
    forall X: Mat<T>, Y: Mat<T> {:trigger sub(X, Y)} ::
      IsMatrix(X, |X|, Width(X)) && IsMatrix(Y, |X|, Width(X)) ==> IsMatrix(sub(X, Y), |X|, Width(X))
  }

  ghost predicate Sound<T(!new)>(ops: Ops<T>)
  {
    ClassicalSound(ops.classical) && SolveSound(ops.solveTril) && MulSound(ops.mul) && SubSound(ops.sub)
  }
}
