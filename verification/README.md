# Recursive rank-revealing LU over an abstract coefficient domain

This project models `ca_mat_lu_recursive` from FLINT's `ca_mat` module, together with its row-permutation helper `_apply_permutation`. `ca_mat_lu_recursive` is the divide-and-conquer LU factorization of an m x n matrix whose entries are exact computable numbers. It produces:

- a row permutation P;
- a combined factor LU, with the unit lower part below the diagonal and the upper part on and above it;
- the rank;
- a success flag. With `rank_check` set, the flag also gates on full rank.

The model is functional:

- A matrix is a `seq<seq<T>>` over a generic element type `T`, with its column count passed alongside (module `Matrices`).
- A window view `(row_lo, col_lo, row_hi, col_hi)` is read out with `Window` and written back through `WriteWindow`.
- The driver works in place on windows of `LU`. A recursive call on a window is modelled as reading the window, factoring it, and writing the result back.
- `_apply_permutation` copies the band out in its new order, then writes it back (`GatherRows` followed by `WriteWindow`). It composes the global permutation the same way (`ComposeInto`).
- The compress loop is modelled step by step (`CompressRowFrom`, `CompressFrom`). `CompressRowMatches` and `CompressRows` prove that it computes the closed form `CompressedRow`. In that closed form a zeroed source cell is refilled whenever a later destination falls on it.
- The collaborators (`ca_mat_lu_classical`, `ca_mat_solve_tril`, `ca_mat_mul`, `ca_mat_sub` and the domain's zero) are fields of `LuContracts.Ops`. `LuContracts.Sound` states their contracts:
  - The classical solver meets the driver's own contract `LuContract`: LU keeps the input's shape, 0 <= rank <= min(m, n), a success returns a permutation of [0, m), and a success with `rank_check` has rank min(m, n).
  - The three matrix operations only promise the shapes of their results.
- The driver itself is `RecursiveLu.LuRecursive`. `AfterFirstCall` does everything after the first recursive call and hands over to `SecondHalf` once the first gate has passed. `SecondHalf` is split further into the steps before the second recursion (`AfterLeft`, `SchurUpdate`) and after it (`Finish`, `FinishSuccess`). `LuRecursive`, `AfterFirstCall` and `SecondHalf` are mutually recursive, and their termination measure is the column count: both recursive calls have fewer columns, n/2 and n - n/2, since n >= 4.

Where the code behaves differently from what its interface suggests, the model follows the code:

- One would expect every failure to report rank 0. The code jumps to `cleanup1` when the first recursion fails, or when the rank check finds r1 != n1. At that point r2 is still 0, so the code reports rank r1 (`FirstExitReportsLeftRank`). Only the second exit zeroes both ranks (`SecondHalfDecides`).
- One would expect a full-rank matrix with `rank_check` set to succeed. The code's first gate instead demands that the left n/2 columns have full column rank. So an input with 4 <= m < n/2 always fails under `rank_check` (`WideRankCheckFails`), whatever its rank. For square inputs the two readings agree.
- The second exit test (line 99) is reached only after the first gate, which under `rank_check` forces r1 == n1. A successful second call under `rank_check` has r2 == min(m - n1, n - n1), so r1 + r2 == min(m, n) and the rank clause of that test never fires (`SecondRankClauseDead`). The code does not set `success = 0` on that exit; if the rank clause ever fired, the call would return success with rank 0. The model keeps the flag as the code leaves it, so `Finish` reports success exactly when the second call succeeded.
- The first permutation is applied only when r1 > 0 (line 77). With r1 == 0 the final P ignores the left recursion's permutation (`PermutationComposes`).

## Model

| member | source | states |
|---|---|---|
| Matrices.Window | src/ca_mat/lu_recursive.c:82-85 | a window (row_lo, col_lo, row_hi, col_hi) is a (row_hi-row_lo) x (col_hi-col_lo) matrix whose cell (i, j) is the parent's cell (row_lo+i, col_lo+j) |
| Matrices.WriteRowsFrom | src/ca_mat/lu_recursive.c:31-32 | copying the rows of a block back one row at a time replaces exactly the cells of the block's rows from row k on and keeps the parent's shape |
| Matrices.WriteWindow | src/ca_mat/lu_recursive.c:67-69 | writing through a window changes exactly the cells inside it, each to the block's corresponding cell, and keeps the parent's shape |
| Matrices.WindowOfWrite | src/ca_mat/lu_recursive.c:82-85 | reading back a window just written through returns the block that was written |
| Matrices.WriteOfWindow | src/ca_mat/lu_recursive.c:82-85 | writing a window's own contents back through it leaves the parent unchanged |
| Permutations.Identity | src/ca_mat/lu_recursive.c:63-64 | the initial P is a permutation of [0, m) that maps every row to itself |
| RowPermutation.GatherRows | src/ca_mat/lu_recursive.c:29-30 | the scratch block is num_rows x num_cols and its row i is the band part of old row P[i]+row_offset |
| RowPermutation.ComposeInto | src/ca_mat/lu_recursive.c:34-35 | AP[row_offset+i] becomes old AP[P[i]+row_offset] inside the band; AP keeps its length and every entry outside the band |
| RowPermutation.ApplyPermutation | src/ca_mat/lu_recursive.c:15-40 | the applier keeps the matrix shape and the length of AP |
| RowPermutation.ApplyMovesCells | src/ca_mat/lu_recursive.c:29-32 | cell (row_offset+i, col_offset+k) receives old cell (P[i]+row_offset, col_offset+k); every cell outside the row band x column band is unchanged |
| RowPermutation.ApplyComposes | src/ca_mat/lu_recursive.c:34-35 | AP[row_offset+i] becomes old AP[P[i]+row_offset]; entries of AP outside [row_offset, row_offset+num_rows) are unchanged |
| RowPermutation.ApplyNothingIsNoOp | src/ca_mat/lu_recursive.c:19 | with num_rows == 0 both the matrix and AP are returned unchanged |
| RowPermutation.ApplyKeepsOtherRows | src/ca_mat/lu_recursive.c:29-32 | rows outside the band are untouched as whole rows |
| RowPermutation.ApplyKeepsPermutation | src/ca_mat/lu_recursive.c:34-35 | if P is a bijection on [0, num_rows) and AP one on [0, m), the composed AP is again a bijection on [0, m) |
| RowPermutation.ComposeIdentity | src/ca_mat/lu_recursive.c:79 | composing the identity P with the left permutation over all m rows at offset 0 yields exactly that permutation |
| CompressL.CompressRowFrom | src/ca_mat/lu_recursive.c:115-119 | the inner loop, run step by step from step j, keeps the row's length |
| CompressL.CompressedRow | src/ca_mat/lu_recursive.c:108-121 | the reference closed form of one compressed row keeps the row's length |
| CompressL.CompressRowFromMatches | src/ca_mat/lu_recursive.c:115-119 | from any state that matches the closed form after j steps, the rest of the sequential loop ends in the closed form for all len steps |
| CompressL.CompressRowMatches | src/ca_mat/lu_recursive.c:115-119 | the sequential loop gives columns [r1, r1+len) the original cells of [n1, n1+len). It zeroes only those sources that no later step refills and leaves all other cells alone |
| CompressL.CompressFrom | src/ca_mat/lu_recursive.c:111-120 | the outer loop from row r1+i on keeps the matrix shape |
| CompressL.Compress | src/ca_mat/lu_recursive.c:108-121 | the compress step keeps the shape and leaves rows [0, r1) unchanged |
| CompressL.CompressFromKeepsTop | src/ca_mat/lu_recursive.c:111-113 | rows above the current row r1+i are never touched by the remaining outer loop |
| CompressL.CompressFromRows | src/ca_mat/lu_recursive.c:111-120 | every row r1+i not yet visited ends as the closed form with min(i, r2) moved cells |
| CompressL.CompressRows | src/ca_mat/lu_recursive.c:111-120 | rows [0, r1) are unchanged; row r1+i becomes its closed form with min(i, r2) moved cells |
| CompressL.CompressCells | src/ca_mat/lu_recursive.c:111-119 | cell by cell: (r1+i, r1+j) for j < min(i, r2) holds the original (r1+i, n1+j); a source column not refilled is zero; columns outside [r1, n1+min(i, r2)) of row r1+i are unchanged |
| RecursiveLu.SchurUpdate | src/ca_mat/lu_recursive.c:82-95 | the Schur update keeps the shape and never writes columns [0, n1). It leaves the triangular-solve result X = solve_tril(A00, A01) in A01, and A11 - A10 X, formed from the blocks as they were before the update, in A11 |
| RecursiveLu.WindowsAgree | src/ca_mat/lu_recursive.c:83-85 | windows onto a block on which two matrices agree are equal, so A10 and A11 read the same after A01 is overwritten |
| RecursiveLu.AfterLeft | src/ca_mat/lu_recursive.c:58-95 | before the second recursion, P is the left permutation (the identity when r1 == 0) and is a permutation of [0, m). The left n1 columns keep the left recursion's factor, and with r1 == 0 LU is untouched. The right columns for r1 > 0 are stated by `AfterLeftRightBlock` |
| RecursiveLu.SchurBlocks | src/ca_mat/lu_recursive.c:82-95 | as whole blocks: after the update A01 is X = solve_tril(A00, A01) and A11 is A11 - A10 X, with A10 and A11 as they were before |
| RecursiveLu.PermutedRightHalf | src/ca_mat/lu_recursive.c:77-80 | applying the left permutation to the right n - n1 columns makes them the rows of the old right half in P1 order, and leaves the left n1 columns alone |
| RecursiveLu.AfterLeftRightBlock | src/ca_mat/lu_recursive.c:77-95 | with r1 > 0 and B the old right half with rows in P1 order: the top r1 rows of the right columns hold X = solve_tril(A00, B[..r1]) and the rows below hold B[r1..] - A10 X |
| RecursiveLu.ApplyLowerRows | src/ca_mat/lu_recursive.c:105 | applying the second permutation to rows [r1, m) of the left n1 columns keeps P a permutation, composes it as P[i] for i < r1 and P[P2[i-r1]+r1] otherwise, and leaves rows [0, r1) alone |
| RecursiveLu.FinishSuccess | src/ca_mat/lu_recursive.c:105-121 | on success the final P maps row i to P[i] for i < r1 and to P[P2[i-r1]+r1] otherwise. It stays a permutation and rows [0, r1) are unchanged |
| RecursiveLu.TopRowsKept | src/ca_mat/lu_recursive.c:97 | writing the lower-right factor back leaves rows [0, r1) unchanged |
| RecursiveLu.Finish | src/ca_mat/lu_recursive.c:97-133 | with r1 == n1 under rank_check (the first gate has passed), success holds iff the second recursion succeeded, and then the second exit test has not fired. The second exit reports rank 0 and keeps P; otherwise the rank is r1+r2. The result meets the shared LU contract |
| RecursiveLu.SecondRankClauseDead | src/ca_mat/lu_recursive.c:99-102 | once the first gate has passed, a successful second recursion never takes the second exit: the rank clause cannot fire |
| RecursiveLu.CombinedRank | src/ca_mat/lu_recursive.c:99-133 | past the second exit test, r1+r2 lies in [0, min(m, n)] and equals min(m, n) under rank_check |
| RecursiveLu.AfterFirstCall | src/ca_mat/lu_recursive.c:69-133 | given the left recursion's result, the rest of the call meets the shared LU contract and returns a permutation. When the first exit test fires, the call fails and reports the left rank |
| RecursiveLu.SecondHalf | src/ca_mat/lu_recursive.c:77-133 | past the first gate, the rest of the call meets the shared LU contract and P is a permutation of [0, m) |
| RecursiveLu.RightOf | src/ca_mat/lu_recursive.c:97 | the second recursion runs on the (m-r1) x (n-n1) block below row r1 and right of column n1 of the updated LU, and meets the shared LU contract for that shape |
| RecursiveLu.LuRecursive | src/ca_mat/lu_recursive.c:42-136 | LU is m x n, 0 <= rank <= min(m, n), success gives a permutation, and success with rank_check gives rank min(m, n). With m < 4 or n < 4 the result is exactly the classical solver's; otherwise P is a permutation on every exit |
| RecursiveLu.FirstExitReportsLeftRank | src/ca_mat/lu_recursive.c:69-75 | if the left recursion fails or rank_check finds r1 != n1, the call fails, P is the identity, and the reported rank is r1 (r2 is still 0 when the rank is written) |
| RecursiveLu.SecondHalfDecides | src/ca_mat/lu_recursive.c:97-103 | past the first exit: success iff the second recursion succeeded, and also iff the second exit test does not fire; success reports r1+r2 and failure reports 0 |
| RecursiveLu.SecondHalfDecidesAt | src/ca_mat/lu_recursive.c:97-103 | for any LU past the first gate: success iff the second recursion succeeded, and also iff the second exit test does not fire; success reports r1+r2 and failure reports 0 |
| RecursiveLu.FinishComposes | src/ca_mat/lu_recursive.c:97-105 | if the final step succeeds, the second recursion succeeded, and the final P is the permutation before it (sigma) composed with the second recursion's permutation |
| RecursiveLu.SecondHalfComposes | src/ca_mat/lu_recursive.c:77-105 | past the first gate, on success the second recursion succeeded and final P[i] is sigma(i) for i < r1 and sigma(P2[i-r1]+r1) otherwise |
| RecursiveLu.PermutationComposes | src/ca_mat/lu_recursive.c:77-105 | on success the second recursion succeeded, and final P[i] is sigma(i) for i < r1 and sigma(P2[i-r1]+r1) otherwise, with sigma the left permutation when r1 > 0 and the identity when r1 == 0 |
| RecursiveLu.LeftRowsStayFinal | src/ca_mat/lu_recursive.c:97-121 | past the first exit, cells (i, j) with i < r1 and j < n1 keep the value the left recursion stored |
| RecursiveLu.SecondHalfKeepsLeftRows | src/ca_mat/lu_recursive.c:77-121 | past the first gate, cells (i, j) with i < r1 and j < n1 are never written again |
| RecursiveLu.WideRankCheckFails | src/ca_mat/lu_recursive.c:71-75 | with rank_check set, every input with 4 <= m < n/2 fails at the first exit |
| RecursiveLu.FinishSuccessRows | src/ca_mat/lu_recursive.c:105-121 | on success, row r1+i is the row the second permutation brought into place, compressed with min(i, r2) moved cells when r1 != n1 |

## Left out

- The coefficient domain is a type parameter. `ca_set` is a value copy and `ca_zero` writes `Ops.zero`. The tristate zero test is used only inside the classical solver, so the model never sees it.
- `ca_mat_lu_classical`, `ca_mat_solve_tril`, `ca_mat_mul` and `ca_mat_sub` are not part of this model. They are abstract functions. `LuContracts.Sound` gives the classical solver the shared LU contract and gives the three matrix operations only the shapes of their results. Their arithmetic is unseen, so the reconstruction property P·A = L·U is not stated.
- `ca_mat_set(LU, A)` (lines 58-59) is modelled by taking A as the initial LU. Aliased and separate output buffers therefore give the same value.
- Memory management is left out: `flint_malloc`/`flint_free`, window init/clear as handles, and the shallow `memcpy` of element structs. Moves of whole elements stand in for them.
- `slong` indices and ranks are unbounded integers. The sizes involved never approach 64 bits.
- After a failure the source leaves LU and P unspecified. The model returns the concrete state those arrays hold on that path.
- RowPermutation.ApplyPermutation: its own contract gives only the shapes. The cell movement and the composition into AP are stated by `ApplyMovesCells` and `ApplyComposes`, to keep the driver's proofs small.
- The other files of the repository are not part of this model: the arb division test, the acb_poly sinc series test and the theta characteristic helper. They are floating-point ball arithmetic and test harnesses.
