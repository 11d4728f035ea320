# Pivoted Cholesky, modelled and verified in Dafny

This project models `pivoted_chol` (`pivoted_chol.py`, lines 8-53). The routine builds a low-rank pivoted Cholesky factor `R` of a symmetric positive semi-definite operator. It sees the operator only through two accessors:

- the diagonal, read once;
- one operator row, fetched per accepted pivot.

The routine keeps three pieces of state:

- a residual diagonal `d`;
- a pivot order `pi`;
- a factor buffer `R` with `M` rows.

Each iteration does the following:

1. Pick the first position from `m` on whose residual is largest.
2. Swap it into position `m`.
3. Write the pivot entry `sqrt(d[pi[m]])`.
4. Fill the Schur coefficients of every later position.
5. Lower those positions' residuals by the squared coefficients.
6. Recompute the trace-norm error over the positions after `m`.

The loop stops on the rank cap `M` or once the error is at most the tolerance. `R` is then trimmed to the rows built.

The project has five modules.

- `Vectors` (`vectors.dfy`) holds exact-arithmetic stand-ins for the NumPy helpers: sum, absolute sum, inner product, first argmax. It also holds the Gram entry `(R^T R)[a, b]` and their lemmas.
- `Permutations` (`permutations.dfy`) holds the pivot order: the identity order, the exchange of two positions, and the position of an index.
- `Factor` (`factor.dfy`) holds what the loop keeps true, stated on values:
  - the factor is upper triangular in pivot order;
  - every pivot entry is the root of the residual it was chosen with;
  - the choice is greedy;
  - the Schur rows reproduce the operator;
  - the residual bookkeeping holds.

  It also has the predicate `Step` for one iteration, `StepPreserves`, and the reconstruction lemmas.
- `Algorithm` (`algorithm.dfy`) is the loop on values:
  - `Start` is the state before the loop.
  - `Iterate` is one iteration: the pivot choice followed by `Eliminate`.
  - `Run` is the whole loop.
  - `RunCorrect` states what a run from the start guarantees.
- `Cholesky` (`pivoted_chol.dfy`) is the routine itself. It is imperative and works on arrays, like the source:
  - `d` is an `array<real>` decremented in place;
  - `R` is an `array2<real>` of `M` rows written in place and trimmed at the end;
  - `pi` is a list value reassigned by each swap.

  `PivotedCholesky` is proved to return exactly the rows, order and residuals of `Run(Start(diag))`. So everything `RunCorrect` proves about that run holds of what the routine returns.

Arithmetic is exact (`real`). The square root is a parameter `sqrt` with the contract `IsSqrt`: for every `x >= 0`, `sqrt(x) >= 0` and `sqrt(x) * sqrt(x) == x`. The diagonal accessor becomes the sequence `diag`. The row accessor becomes the matrix `A`, whose row `pi[m]` is what `get_row(pi[m])` returns. The indices fetched are recorded, in order, as `fetched`.

Two consequences of the code that the model keeps:

- For the 3×3 identity with `M = 3` the loop runs three times. After the first pivot the error recomputed at line 48 is the sum of the two remaining unit residuals, which is 2. So three rows are returned. `Run` likewise continues while `errTol < err`.
- The code performs no validation and does not guarantee a non-empty factor: an all-zero diagonal returns an empty `R` (`ZeroDiagonal`). The model adds no validation either. Its preconditions are the assumptions the code needs, listed under "Left out".

## Model

| member | source | states |
|---|---|---|
| Vectors.FirstArgMax | pivoted_chol.py:32 | The index returned is in range and holds a maximum, and every entry before it is strictly smaller. This is the first-occurrence tie-break of argmax. |
| Algorithm.SelectPivot | pivoted_chol.py:32 | The chosen position `i` lies in `m..N-1`. `d[pi[i]]` is at least every `d[pi[p]]` for `p >= m` and strictly greater than every one at `m <= p < i`. |
| Algorithm.NotExhausted | pivoted_chol.py:30-32 | While the error over positions `m..N-1` is positive, some position is left, so the argmax list is not empty. |
| Algorithm.RootOfPositive | pivoted_chol.py:38 | The pivot entry taken from a positive residual is positive and squares back to the residual. |
| Factor.PivotPositive | pivoted_chol.py:30-45 | With the error above a non-negative tolerance, the largest remaining residual is positive. So the square root at line 38 gets a positive argument and the division at line 45 is never by zero. |
| Permutations.Iota | pivoted_chol.py:23 | The initial order `0..N-1` is a permutation with `pi[i] == i`. |
| Permutations.SwapExchanges | pivoted_chol.py:34-36 | `Swap` puts the entry from position `b` at `a` and the one from `a` at `b`, keeps the length, and leaves every other position unchanged. |
| Permutations.SwapIsPermutation | pivoted_chol.py:34-36 | Exchanging two positions of a permutation leaves a permutation. |
| Vectors.SumAbs | pivoted_chol.py:27 | The initial error, the sum of the absolute diagonal entries, is never negative. |
| Vectors.SumAbsOfZero | pivoted_chol.py:27 | The absolute sum of an all-zero diagonal is zero. |
| Vectors.SumAbsOfNonNegative | pivoted_chol.py:27 | On a non-negative diagonal, the initial error (an absolute sum) is the plain sum of the residuals. |
| Vectors.GatherDrop | pivoted_chol.py:48 | `Gather`, the list `[d[pi[i]] for i in range(lo, N)]`, is `d[pi[lo]]` followed by the list from `lo + 1`, and its `Sum` (the stand-in for `np.sum`) splits the same way. |
| Vectors.SumUpdate | pivoted_chol.py:46-48 | Lowering one residual changes `Sum` by exactly the difference. |
| Vectors.SumSwap | pivoted_chol.py:34-36 | Exchanging two entries leaves `Sum` unchanged. |
| Vectors.SumMono | pivoted_chol.py:46-48 | `Sum` is monotone in every entry, so lowering residuals cannot raise the error. |
| Vectors.SumNonPositive | pivoted_chol.py:30 | A list with no positive entry has no positive `Sum`, so a positive error means some remaining residual is positive. |
| Vectors.MaxOfPositiveSum | pivoted_chol.py:30-32 | When the `Sum` is positive, the largest entry is positive. |
| Algorithm.Start | pivoted_chol.py:20-27 | The initial state is well formed. Its order is the identity order `Iota(N)`, it has no rows and no fetched indices, its residuals equal the diagonal, and its error is the absolute sum of the diagonal, which equals the plain sum. The error history is that one error. |
| Algorithm.StartKeeps | pivoted_chol.py:20-29 | The initial state satisfies the full loop invariant. |
| Factor.SchurRowIsNewRow | pivoted_chol.py:38-45 | About `SchurRow`, the row built for pivot `pi[m]`: read by column, it has three parts: the pivot entry `s` in column `pi[m]`, zero in every earlier-pivoted column, and `(row[pi[q]] - (R^T R)[pi[m], pi[q]]) / s` in every later column. |
| Factor.LoweredIsNewResiduals | pivoted_chol.py:46 | About `Lowered`, the residuals after the row: the residuals of positions up to `m` are unchanged. Every later one drops by the square of its new coefficient. |
| Algorithm.Eliminate | pivoted_chol.py:34-48 | After the swap, the row and residual update and the error recomputation, the state is well formed and has one more row. The new row and residuals are the ones described above. The error drops by at least the chosen residual, and the pivot is recorded as fetched. |
| Algorithm.Iterate | pivoted_chol.py:30-49 | One iteration keeps the state well formed, adds exactly one row, and strictly lowers the error. |
| Algorithm.IterateKeepsPrefix | pivoted_chol.py:34-36 | An iteration leaves positions `0..m-1` of the order untouched. |
| Algorithm.RunKeepsPrefix | pivoted_chol.py:30-49 | Once chosen, a pivot keeps its position for the rest of the run. |
| Algorithm.Run | pivoted_chol.py:29-49 | The loop ends with at most `M` rows and at most one row per column. The error is no larger than at the start. Fewer than `M` rows means the final error is at most `errTol`. |
| Factor.StepTriangular | pivoted_chol.py:38-45 | Adding the new row keeps `R[k, pi[p]] == 0` for every `p < k`. |
| Factor.StepPivots | pivoted_chol.py:38 | The new pivot entry is positive, and its square is the residual its column had when chosen. |
| Factor.StepGreedy | pivoted_chol.py:32-38 | When each row was built, no unpivoted column had a larger residual than the chosen one. |
| Factor.StepSchur | pivoted_chol.py:40-45 | Through each row `k`, `(R^T R)[pi[k], pi[q]]` equals the operator entry for every later position `q`. |
| Factor.StepBookkeeping | pivoted_chol.py:46 | An unpivoted column's residual is its diagonal entry minus its squared column norm. A pivoted column keeps the residual it was chosen with, which is the square of its pivot entry. |
| Factor.StepPreserves | pivoted_chol.py:32-46 | One iteration keeps all of the factor invariants and the residual bookkeeping. |
| Factor.ErrorDecreases | pivoted_chol.py:46-48 | The recomputed error is at most the previous error minus the chosen residual. |
| Algorithm.HistoryExtends | pivoted_chol.py:39-49 | An accepted pivot extends the run's record in three ways. The error before it exceeded the tolerance. The next error is at most that error minus the square of the pivot entry. The pivot's index is the next one fetched. |
| Algorithm.Advance | pivoted_chol.py:32-49 | One iteration, described by its components, keeps the whole loop invariant. |
| Algorithm.IterateKeeps | pivoted_chol.py:30-49 | An iteration taken while the error exceeds the tolerance keeps the loop invariant. |
| Algorithm.RunKeeps | pivoted_chol.py:30-49 | The whole loop keeps the loop invariant. |
| Algorithm.RunCorrect | pivoted_chol.py:20-51 | A run from the start guarantees: (1) at most `M` and at most `N` rows; (2) the factor upper triangular in pivot order, with exact pivots, greedy choices and reproduced operator rows; (3) the residual bookkeeping holds; (4) the order is a permutation; (5) exactly one row is fetched per row built, for the pivots in order and never twice; (6) the error history starts at the absolute diagonal sum and ends at the sum of the unpivoted residuals; (7) every accepted pivot was taken above the tolerance and lowered the error by at least its squared pivot entry; (8) stopping short of `M` rows means the error is within the tolerance. |
| Algorithm.ZeroDiagonal | pivoted_chol.py:27-30 | An all-zero diagonal gives an error of zero, so no row is built. |
| Factor.PivotColumnExact | pivoted_chol.py:38-46 | For a pivoted column, the sum of the squares of its entries equals its initial diagonal entry. |
| Factor.PivotRowExact | pivoted_chol.py:40-45 | For each pivoted row, `(R^T R)[pi[p], pi[q]]` equals the operator entry for every later position `q`. |
| Factor.PivotedRowsReconstructed | pivoted_chol.py:38-46 | For a symmetric operator whose diagonal is the one read, every pivoted row of `R^T R` equals the operator's row in every column. |
| Factor.FullReconstruction | pivoted_chol.py:38-46 | When every column has been pivoted, `R^T R` equals the operator entry by entry. |
| Factor.ResidualNeverIncreases | pivoted_chol.py:46 | No residual ever exceeds the initial diagonal entry of its column. |
| Vectors.DotOfColumns | pivoted_chol.py:42 | `Dot`, the stand-in for `np.inner`, of two columns of the rows built is the Gram entry `(R^T R)[a, b]`. |
| Cholesky.HeldColumn | pivoted_chol.py:42 | `Column`, the slice `R[:m, j]`, is column `j` of the rows built so far. |
| Cholesky.HeldProduct | pivoted_chol.py:42 | The inner product of columns `pi[m]` and `pi[i]` of `R` above row `m` is the Gram entry of the rows built so far. |
| Cholesky.FillRow | pivoted_chol.py:40-46 | The inner loop writes the Schur coefficient `(row[pi[q]] - <R[:m, pi[m]], R[:m, pi[q]]>) / s` into `R[m, pi[q]]` for every later position `q`. It lowers `d[pi[q]]` by that coefficient's square and leaves the other residuals and the other rows of `R` unchanged. |
| Cholesky.RowFacts | pivoted_chol.py:38-46 | Read by column, the row and residuals left by the inner loop are the value-level new row and residuals. |
| Cholesky.AddRow | pivoted_chol.py:38-46 | Writing the pivot entry and running the inner loop puts the value-level new row into row `m` of `R` and the value-level new residuals into `d`. Every other row of `R` is unchanged. |
| Cholesky.Iteration | pivoted_chol.py:32-49 | One pass of the loop body on the buffers leaves `d`, `R`, the order and the error exactly as `Iterate` says. |
| Cholesky.TrimHolds | pivoted_chol.py:51 | `Trim`, the slice `R[:m, :]`: trimming the buffer to the rows built returns exactly those rows. |
| Cholesky.PivotedCholesky | pivoted_chol.py:8-53 | The routine returns exactly what `Run` from `Start(diag)` computes: the trimmed factor, the final order, the fetched indices, the error history and the final residuals. So every property in `RunCorrect` holds of its result. |

## Left out

- The demonstration script at `pivoted_chol.py` lines 55-66 (random matrix, accessor lambdas, printed reconstruction norm) is not part of this model. The exact-arithmetic counterpart of its claim is `FullReconstruction`.
- Floating-point rounding is not modelled. All arithmetic is over exact reals, so the model says nothing about round-off or about residuals that come out slightly negative.
- `Algorithm.Eliminate` and `Factor.Lowered` assume a floating-point diagonal. `np.copy` at line 20 keeps the dtype of what the diagonal accessor returns. With an integer diagonal, `d` is an integer array and line 46 truncates every updated residual. For example, diagonal `[4, 2]` with operator `[[4, 1], [1, 2]]` stores `2 - 0.25` as `1` in the code, while the model gives the residual `1.75`.
- The square root is a parameter with the contract `IsSqrt`, not NumPy's `sqrt`.
- `np.copy`, `np.inner`, `np.argmax` and `np.sum` are replaced by the recursive functions in `Vectors`.
- The accessors are modelled as a fixed diagonal `diag` and a fixed square matrix `A`. Whatever they compute, and any failure they raise, is outside the model. The single call to the diagonal accessor becomes the parameter. Each row fetch appears as `A[pi[m]]` and is recorded in the ghost output `fetched`.
- `Cholesky.PivotedCholesky` requires a non-negative diagonal, `errTol >= 0`, a square operator and an `IsSqrt` square root. It also takes `M` as a natural number. With a negative `M`, `np.zeros` fails; that case is excluded by the type. The paths the preconditions exclude are not modelled:
  - a negative residual reaching line 38, where `np.sqrt` of a negative number gives NaN;
  - with a negative tolerance, an error of zero still enters the loop, so a zero residual can be chosen; `np.sqrt(0)` at line 38 then makes the division at line 45 a division by zero;
  - with a negative tolerance and `N < M`, the loop can reach `m == N`, where line 32 calls `np.argmax` on an empty list and raises `ValueError`.
- `Cholesky.PivotedCholesky` also returns the final order `pi`, plus ghost outputs for the fetched indices, the error history and the final residuals. The source returns only `R`. The extra outputs exist so that the properties can be stated about the run.
- `Cholesky.PivotedCholesky` builds the trimmed `R` as a new sequence of rows. The source takes a NumPy slice view of the buffer.
- The bound `diag(R^T R) <= diag` for unpivoted columns is not proved. It needs the remaining residuals to stay non-negative, which holds only for a positive semi-definite operator. The model does not assume that.
- Input validation and typed errors are not modelled because the code has none. Preconditions state the assumptions instead.
- The default `err_tol = 1e-6` at line 8 becomes the default value `0.000001` of `errTol`, the exact decimal rather than the nearest double. The square root parameter `sqrt` comes first so that `errTol` stays the last parameter.
- `Cholesky.PivotedCholesky` returns `R` as a sequence of rows. When no row is built (`m = 0`) it returns the empty sequence `[]`, while the source returns a 0×N array, which keeps its column count `N`.
