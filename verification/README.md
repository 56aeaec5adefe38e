# Verified models of libflame's Givens-rotation schedules and factorization families

The project models three parts of libflame, in exact arithmetic over the reals, and proves what they
are for.

**Applying `k` sets of Givens rotations to a matrix from the right** (`examples/appg_test`).
Rotation `g` of set `k` mixes columns `g` and `g + 1`; rotations form a grid of `n - 1` by `k` cells.
Variant 1 visits the grid set by set. Variants 2 and 6 visit it one anti-diagonal at a time, variants 9
and 3 two anti-diagonals at a time, each in a start-up, a pipeline and a shutdown stage with fused
kernels and leftovers. Every variant is a method that overwrites an `array2<real>` in place and
carries, as a ghost, the trace of the rotations it has applied. The rows it works on are a stripe:
`m_A` rows, `inc` apart, where `inc` is the increment that the kernel calls pass.

- `Rotations.dfy`: rotations of a row, traces, and trace equivalence: two orders that agree on
  every adjacent pair have the same effect.
- `Exactness.dfy`: the converse: an order that breaks an adjacent pair fails for some rotations.
- `Schedule.dfy`: the three orders, frontiers, and the theorem that a trace which lists the grid in
  any of the orders applies set after set.
- `Kernels.dfy`: the column kernels and the fused blocks with their tests for identity rotations.
- `ApplyG.dfy`: variants 1, 2, 6, 9 and 3.
- `RowBlocks.dfy`: the row-blocked drivers, and which rows they and the kernels visit.
- `Strided.dfy`: the naive variant on a flat buffer with general strides.
- `FlatBuffer.dfy`: traces of kernels on a flat buffer whose visited cells may meet.
- `Orthogonal.dfy`: the meaning as a product with a matrix `Q`, orthogonal when all rotations are.

**The LU and Cholesky families** (`examples/lu`, `examples/chol`). The submatrices of a FLAME
partition are index ranges of one array. Each variant keeps its own invariant (`At`: which entries
hold factors, which hold Schur complements, which are untouched), and all end with the same packed
factors, on every size and block size.

- `Matrices.dfy`, `Blas.dfy`: inner products and the level 1 to 3 operations on blocks in place.
- `LUFactors.dfy`: Schur complements and packed factors; `L U = A`; uniqueness; existence.
- `LUSteps.dfy`, `LUUnblocked.dfy`, `LUBlocked.dfy`: the ten LU variants.
- `RefLU.dfy`: the reference triple loop on a column-major buffer with padding.
- `Singular.dfy`: which pivots are zero, in terms of singular leading blocks.
- `Dominance.dfy`: strict column dominance through a whole elimination.
- `CholFactors.dfy`, `Definiteness.dfy`, `CholSteps.dfy`, `CholVariants.dfy`: the six Cholesky variants,
  and the theorem that a matrix is positive definite exactly when all pivots are positive.
- `RefChol.dfy`: the reference Cholesky loop as it is written, and exactly when it is right.
- `Shift.dfy`: the drivers' random matrices with a shifted diagonal, and exactly when they fail.

**Panel-blocked matrix multiplication** (`examples/gemm`), in `Gemm.dfy`.

How the pieces fit: a variant's loops emit a sorted listing of the grid (`Emitted`, `IsSchedule`); such a
listing keeps the naive order of overlapping rotations (`ScheduleRespects`); so it equals the naive
order in effect (`TraceEquivalence`, `ScheduleMeaning`), and for Givens rotations nothing weaker would
do (`OrderIsExact`).
Every LU variant and the reference loop end with `Factor` of the original entries, whence they agree
entry by entry (`LUSteps.VariantsAgree`, `RefLU.AgreesWithReference`); `FactorsReproduce`,
`FactorIsUnique` and `PivotsIffFactorization` say what `Factor` is without mentioning elimination.
`CholReproduces`, `CholIsUnique` and `PositiveDefiniteIffPivots` do so for Cholesky, where
`CholSteps.VariantsAgree` states the agreement.

## Where the code differs from its documentation, or falls short

- The header comment of variant 1 describes the product with the transpose of a rotation; the kernels
  compute `row * [gamma -sigma; sigma gamma]`, which is what `FLA_Givens2` makes its rotations for
  (`RotationAnnihilates`). The model follows the kernels. The schedule proofs use
  nothing but which columns a rotation touches.
- Every kernel call in the double precision variants passes the increment 2, and the plain C kernels
  advance by it: they visit every second row. The kernels visit `m_A` neighbouring rows if and only if
  the increment is 1 or there is at most one row (`VisitsNeighboursIff`). With the increment 2 the
  variants still agree with each other on the rows visited as long as those rows stay inside their
  columns, that is, when `2 (m_A - 1)` is less than the number of cells in a column: this is what
  `Within` demands. More generally they agree when the visited cells all differ (`SchedulesAgree`),
  which `CellsDifferIff` decides from the sizes. When columns have exactly `m_A` cells, as in a
  matrix made with default strides, the last cells lie beyond the buffer unless there is one row
  (`DefaultStridesIff`); and where cells meet, the orders of variants 1 and 2 leave different buffers
  (`SchedulesDiffer`: two rows, four columns of two cells).
- With the increment 2 the row-blocked drivers leave what one call leaves, for every matrix and all
  rotations, if and only if all rows fit in one block (`BlockingIsExact`).
- With no columns and no sets (`n_A = 0`, `k_G = 0`), variants 3 and 9 start their shutdown loop at
  `nG % 2`, which is `-1` in C, and read a rotation outside the grid. `ShutdownStartsInGrid` shows that
  the start is in the grid exactly when there is a column or a set; the two variants require that.
- Under full error checking, `FLA_Inv_scal` refuses a zero `alpha11`, even when `a21` is empty. LU variants
  3, 4 and 5 then stop if and only if some leading block of the matrix, the whole matrix included, is
  singular (`Refused`, `RefusedIffZeroPivot`). So they stop at a singular matrix whose factorization
  exists and is already complete, which variants 1 and 2 do not; and they stop at matrices that are not
  singular but need pivoting (`RegularButRefused`).
- The drivers add `n` to the diagonal of a random matrix. That always gives the non-zero pivots that
  LU needs (`ShiftHasPivots`), though not always dominance (`ShiftMakesDominant`). The last pivot is
  zero, and the checked LU variants stop, exactly when the random matrix is minus the outer product of
  a vector of signs (`RefusedIffSigns`, `RefusalWitness`); the Cholesky driver's matrix fails to be
  positive definite only when its random lower triangle has that form (`DefiniteIffNotSigns`).
- `FLA_Sqrt` leaves a number that is not positive alone and returns a failure code, which the Cholesky
  variants ignore. The methods here report it, and do so exactly when the matrix is not positive
  definite.
- `REF_Chol` updates column `k` with `AA( j,k )`, an entry of the upper triangle that it never computes,
  where its comment says `a21 * a21'`. On a positive definite matrix it leaves the factor if and only if
  the differences between that triangle and the transposed factor cancel in every row
  (`MatchesIffBalanced`); on a symmetric matrix stored in full they need not (`FullStorageFails`).

## Model

| member | source | states |
|---|---|---|
| Rotations.RotatedEntry | src/lapack/util/app/givens/front/flamec/FLA_Apply_G_mx2_opt.h:84-88 | entry by entry: `gamma x + sigma y` on the left, `-sigma x + gamma y` on the right, all others unchanged |
| Rotations.RotationAnnihilates | src/lapack/util/app/givens/front/flamec/FLA_Givens2.c:33-41 | the rotation made of `x / alpha` and `y / alpha`, for `alpha` plus or minus the length, is a Givens rotation and maps `(x, y)` to `(alpha, 0)` |
| Rotations.RotationUndone | examples/appg_test/FLA_Apply_G_rf_asm_var1.c:16-25 | the rotation with `-sigma` undoes the one with `sigma` |
| Kernels.RowCells | examples/appg_test/FLA_Apply_G_rf_asm_var1.c:143-160 | entry `j` of a row is the cell in column `j` |
| Kernels.RotateCells | src/lapack/util/app/givens/front/flamec/FLA_Apply_G_mx2_opt.h:82-92 | the new cells in columns `g` and `g + 1` of one row in terms of the old ones, and no other cell changes |
| Kernels.VisitedIff | src/lapack/util/app/givens/front/flamec/FLA_Apply_G_mx2_opt.h:82-92 | a row is visited if and only if its distance from the first one is a multiple of the increment, fewer than `m_A` times |
| Kernels.VisitedRow | src/lapack/util/app/givens/front/flamec/FLA_Apply_G_mx2_opt.h:82-92 | the rows `first + i * inc` for `i` below `m_A` are visited |
| Kernels.VisitedIndex | src/lapack/util/app/givens/front/flamec/FLA_Apply_G_mx2_opt.h:82-92 | every visited row is one of them |
| Kernels.ApplyMx2 | src/lapack/util/app/givens/front/flamec/FLA_Apply_G_mx2_opt.h:68-93 | in the `m_A` rows `inc` apart, columns `g` and `g + 1` are rotated; every other row is unchanged |
| Kernels.ApplyMx3 | src/lapack/util/app/givens/front/flamec/FLA_Apply_G_mx3_opt.h:52-91 | the rotation of the left pair, then that of the right pair, and no other row changes |
| Kernels.ApplyMx3b | src/lapack/util/app/givens/front/flamec/FLA_Apply_G_mx3b_opt.h:99-138 | the rotation of the right pair, then that of the left pair, and no other row changes |
| Kernels.ApplyMx4s | src/lapack/util/app/givens/front/flamec/FLA_Apply_G_mx4s_opt.h:154-217 | 23 and 34 of one set, then 12 and 23 of the next |
| Kernels.IdentityLeavesRow | examples/appg_test/FLA_Apply_G_rf_asm_var1.c:152-160 | skipping an identity rotation is the same as applying it |
| Kernels.ApplyNeighbours | examples/appg_test/FLA_Apply_G_rf_asm_var9.c:173-220 | for each of the four identity patterns, the rows have had `(g, k)` and then `(g + 1, k)` applied |
| Kernels.ApplyDiagonalPair | examples/appg_test/FLA_Apply_G_rf_asm_var6.c:174-220 | for each of the four identity patterns, the rows have had `(g, k)` and then `(g - 1, k + 1)` applied |
| Kernels.ApplyLeftoverPair | examples/appg_test/FLA_Apply_G_rf_asm_var3.c:369-412 | the pair left over by an odd number of sets, where the three-column kernel also runs for two identities |
| Kernels.ApplyBlock | examples/appg_test/FLA_Apply_G_rf_asm_var3.c:185-260 | a 2x2 block has the effect of its four rotations in the order of the unfused branch, whichever branch runs |
| Rotations.StepsCommute | examples/appg_test/FLA_Apply_G_rf_asm_var1.c:141-168 | rotations commute on every row unless they share exactly one column |
| Rotations.Delay | examples/appg_test/FLA_Apply_G_rf_asm_var2.c:154-230 | a rotation that no adjacent one must follow can be moved to the end of a trace |
| Rotations.TraceEquivalence | examples/appg_test/FLA_Apply_G_rf_asm_var2.c:154-230 | two orders of the same rotations that keep the naive order of every adjacent pair have the same effect on every row |
| Exactness.AdjacentInOrder | examples/appg_test/FLA_Apply_G_rf_asm_var2.c:154-230 | a listing that has the effect of set after set for all rotations with `gamma^2 + sigma^2 = 1` keeps the naive order of every adjacent pair |
| Exactness.OrderIsExact | examples/appg_test/FLA_Apply_G_rf_asm_var3.c:176-571 | a listing of the grid has the effect of set after set on all rows and for all rotations with `gamma^2 + sigma^2 = 1` if and only if it keeps the naive order of adjacent pairs |
| Exactness.RespectsIsNaive | examples/appg_test/FLA_Apply_G_rf_asm_var2.c:154-230 | keeping that order is enough for any numbers in place of the rotations |
| Schedule.OrdersAre | examples/appg_test/FLA_Apply_G_rf_asm_var9.c:152-384 | the three orders compare cells by `(k, g)`, by `(g + k, k)` and by `((g + k + 1) / 2, k, g)` |
| Schedule.OrderRespectsOverlap | examples/appg_test/FLA_Apply_G_rf_asm_var9.c:152-384 | sorting by `(g + k, k)` or by `((g + k + 1) / 2, k, g)` agrees with `(k, g)` on overlapping pairs |
| Schedule.Emit | examples/appg_test/FLA_Apply_G_rf_asm_var2.c:154-230 | applying the next cell of an order keeps the trace a sorted listing of everything before the frontier |
| Schedule.SortedIsUnique | examples/appg_test/FLA_Apply_G_rf_asm_var3.c:176-571 | the same cells in the same order are the same trace |
| Schedule.ScheduleMeaning | examples/appg_test/FLA_Apply_G_rf_asm_var1.c:141-168 | any schedule, in any order, maps every row to the result of set after set |
| ApplyG.Var1 | examples/appg_test/FLA_Apply_G_rf_asm_var1.c:141-168 | set after set is applied to every row visited, for every increment, by visiting the grid in the order `(k, g)` |
| ApplyG.Var2 | examples/appg_test/FLA_Apply_G_rf_asm_var2.c:143-230 | the same matrix as variant 1; the grid is visited once, sorted by `(g + k, k)`, or as in variant 1 when the guard holds |
| ApplyG.Var6 | examples/appg_test/FLA_Apply_G_rf_asm_var6.c:152-399 | the same matrix and the same order as variant 2, two cells at a time with an odd leftover |
| ApplyG.Var9 | examples/appg_test/FLA_Apply_G_rf_asm_var9.c:152-384 | the same matrix as variant 1; the grid is visited once, sorted by `((g + k + 1) / 2, k, g)`, for both parities of `k_G` and `n_A - 1` |
| ApplyG.Var3 | examples/appg_test/FLA_Apply_G_rf_asm_var3.c:163-571 | the same matrix as variant 1 and the same order as variant 9, for every identity pattern of every 2x2 block, with leftovers |
| ApplyG.SweepDiagonalPairs | examples/appg_test/FLA_Apply_G_rf_asm_var6.c:167-241 | pairs and the odd leftover emit one whole stretch of an anti-diagonal |
| ApplyG.SweepNeighbours | examples/appg_test/FLA_Apply_G_rf_asm_var9.c:246-300 | pairs of one set emit a stretch of a double wavefront |
| ApplyG.SweepWave | examples/appg_test/FLA_Apply_G_rf_asm_var3.c:286-413 | 2x2 blocks and the leftover pair emit a stretch of a double wavefront |
| ApplyG.SameOrderSameTrace | examples/appg_test/FLA_Apply_G_rf_asm_var3.c:176-571 | variants that share an order (2 and 6; 3 and 9) apply the very same sequence of rotations |
| ApplyG.ScheduleLength | examples/appg_test/time_Apply_G.c:221 | every schedule applies exactly `k (n - 1)` rotations |
| ApplyG.ShutdownStartsInGrid | examples/appg_test/FLA_Apply_G_rf_asm_var9.c:304-326 | the first access of the shutdown stage lies in the grid if and only if there is a column or a set |
| RowBlocks.Blocked2 | examples/appg_test/FLA_Apply_G_rf_blk_var2.c:116-136 | for every block size and increment, every row has all sets applied as often as blocks visit it |
| RowBlocks.Blocked6 | examples/appg_test/FLA_Apply_G_rf_blk_var6.c:116-136 | for every block size and increment, every row has all sets applied as often as blocks visit it |
| RowBlocks.Blocked9 | examples/appg_test/FLA_Apply_G_rf_blk_var9.c:116-136 | for every block size and increment, every row has all sets applied as often as blocks visit it |
| RowBlocks.Blocked3 | examples/appg_test/FLA_Apply_G_rf_blk_var3.c:116-136 | for every block size and increment, every row has all sets applied as often as blocks visit it |
| RowBlocks.VisitingBlocks | examples/appg_test/FLA_Apply_G_rf_blk_var2.c:119-132 | the visits of a row are counted by the blocks whose first row `t * b` is a multiple of the increment below it, for fewer than all rows of the block |
| RowBlocks.VisitsNeighboursIff | examples/appg_test/FLA_Apply_G_rf_asm_var1.c:155-159 | a kernel visits the next `m_A` rows if and only if the increment is 1 or there is at most one row |
| RowBlocks.BlocksVisitOnceIff | examples/appg_test/FLA_Apply_G_rf_blk_var3.c:116-133 | the blocks visit the rows of one call, each once, if and only if the increment is 1 or one block holds all rows |
| RowBlocks.FinishedIsApplied | examples/appg_test/FLA_Apply_G_rf_blk_var9.c:116-133 | then a driver leaves what one call on the whole matrix leaves |
| RowBlocks.BlockingIsExact | examples/appg_test/FLA_Apply_G_rf_blk_var3.c:116-133 | for every matrix and all rotations, a driver leaves what one call leaves if and only if the increment is 1 or one block holds all rows |
| FlatBuffer.FlatRunOnRows | examples/appg_test/FLA_Apply_G_rf_asm_var2.c:154-230 | when the visited cells differ, a trace of kernels on a buffer runs that trace on every visited row and changes no other cell |
| FlatBuffer.SchedulesAgree | examples/appg_test/FLA_Apply_G_rf_asm_var2.c:154-230 | when the visited cells differ, any two schedules leave the same buffer |
| FlatBuffer.CellsDifferIff | examples/appg_test/FLA_Apply_G_rf_asm_var1.c:155-159 | for the increment 2, exactly which numbers of rows, columns and cells in a column keep the visited cells apart |
| FlatBuffer.DefaultStridesIff | examples/appg_test/test_Apply_G.c:89 | for the increment 2 and columns of `m_A` cells, the visited cells lie in the buffer if and only if there is one row |
| FlatBuffer.SchedulesDiffer | examples/appg_test/FLA_Apply_G_rf_asm_var2.c:180-204 | where visited cells meet, the naive order and the anti-diagonals leave different buffers |
| Strided.EntriesRotated | src/lapack/util/app/givens/front/flamec/FLA_Apply_G_mx2_opt.h:68-93 | when the strides keep entries apart, rotating two buffer cells rotates one row, no other row and no padding |
| Strided.RowOfCells | examples/appg_test/FLA_Apply_G_rf_opt_var1.c:143-160 | entry `j` of logical row `i` is the cell `i * rs + j * cs` |
| Strided.StridedVar1 | examples/appg_test/FLA_Apply_G_rf_opt_var1.c:139-168 | for any strides that are injective on the matrix, the logical rows are as on a plain matrix and no cell outside the matrix changes |
| Orthogonal.RotationKeepsDot | examples/appg_test/FLA_Apply_G_rf_asm_var1.c:16-25 | a rotation with `gamma^2 + sigma^2 = 1` keeps the inner product of any two rows |
| Orthogonal.ApplySetsKeepsDot | old/lapack-test/play/givens.c:51-67 | the whole run keeps the inner product of any two rows, so the sum of squares of each row is conserved |
| Orthogonal.RunIsProduct | examples/appg_test/FLA_Apply_G_rf_asm_var1.c:141-168 | any trace multiplies a row by the matrix of the images of the unit rows |
| Orthogonal.ApplySetsIsProduct | examples/appg_test/FLA_Apply_G_rf_asm_var1.c:141-168 | the routine computes `A * Q`, where `Q` is what it makes of the identity |
| Orthogonal.QIsOrthogonal | old/lapack-test/play/givens.c:51-67 | with true Givens rotations the rows of `Q` are orthonormal |
| Orthogonal.RotationKeepsColumns | examples/appg_test/FLA_Apply_G_rf_asm_var1.c:16-25 | a true rotation of the rows of a matrix keeps its columns orthonormal |
| Orthogonal.QHasOrthonormalColumns | old/lapack-test/play/givens.c:51-67 | and so are its columns |
| Blas.Gemm | examples/lu/LU_blk_var5.c:50-53 | `C := C - A * B` on one block, and no other entry changes |
| Blas.TrsmLeftLower | examples/lu/LU_blk_var5.c:42-45 | the block solves `L * X = B` for the unit lower triangle, and no other entry changes |
| Blas.TrsmRightUpper | examples/lu/LU_blk_var5.c:46-49 | the block solves `X * U = B` for the upper triangle, and no other entry changes |
| Blas.InvScal | src/base/flamec/wrappers/blas/1/external/FLA_Inv_scal_external.c:20-23 | the column is divided by `alpha11`; with full checking a zero `alpha11` is refused, whatever the column, and nothing changes |
| LUFactors.FactorsReproduce | examples/lu/LU_unb_var5.c:22-45 | when all pivots but the last are non-zero, unit lower times upper triangle is the original matrix |
| LUFactors.FactorIsUnique | examples/lu/LU_unb_var1.c:32-41 | any pair of a unit lower and an upper triangle with that product and non-zero leading diagonal is the packed pair |
| LUFactors.PivotsIffFactorization | examples/lu/LU_unb_var5.c:32-36 | the leading pivots are non-zero if and only if such a pair exists |
| LUFactors.SchurOfSchur | examples/lu/LU_blk_var5.c:36-53 | eliminating a Schur complement continues the elimination of the matrix |
| LUFactors.ColumnSolved | examples/lu/LU_blk_var3.c:36-39 | the solution of the lower triangular system is the factor's entry |
| LUFactors.RowSolved | examples/lu/LU_blk_var1.c:36-39 | the solution of the upper triangular system is the factor's entry |
| LUSteps.BlockPivots | examples/lu/LU_blk_var5.c:36-37 | a diagonal block that is a Schur complement has the same pivots, zero or not, and the same factors as the whole matrix |
| LUSteps.RefusedIffZeroPivot | src/base/flamec/check/blas/1/FLA_Inv_scal_check.c:37 | some leading block, the whole included, is singular if and only if some pivot, the last included, is zero |
| LUSteps.RegularButRefused | src/base/flamec/check/blas/1/FLA_Inv_scal_check.c:37 | a matrix that is not singular and is refused |
| LUSteps.ReplacedReproduces | examples/lu/LU_unb_var5.c:22-45 | the array that a variant leaves holds triangles whose product is the matrix that was there before |
| LUUnblocked.UnbVar1 | examples/lu/LU_unb_var1.c:22-50 | bordered: the block is replaced by its packed factors and nothing else changes |
| LUUnblocked.UnbVar2 | examples/lu/LU_unb_var2.c:22-49 | row-lazy: the block is replaced by its packed factors and nothing else changes |
| LUUnblocked.UnbVar3 | examples/lu/LU_unb_var3.c:22-52 | left-looking: with full checking it stops if and only if a leading block is singular; the same factors when it does not, or only the last pivot is zero; nothing outside the block changes |
| LUUnblocked.UnbVar4 | examples/lu/LU_unb_var4.c:22-51 | Crout: with full checking it stops if and only if a leading block is singular; the same factors when it does not, or only the last pivot is zero; nothing outside the block changes |
| LUUnblocked.UnbVar5 | examples/lu/LU_unb_var5.c:22-45 | right-looking: with full checking it stops if and only if a leading block is singular; the same factors when it does not, or only the last pivot is zero; nothing outside the block changes |
| LUBlocked.BlkVar1 | examples/lu/LU_blk_var1.c:24-58 | the same factors for every block size |
| LUBlocked.BlkVar2 | examples/lu/LU_blk_var2.c:24-62 | the same factors for every block size |
| LUBlocked.BlkVar3 | examples/lu/LU_blk_var3.c:24-62 | for every block size, the same refusals and the same factors |
| LUBlocked.BlkVar4 | examples/lu/LU_blk_var4.c:24-66 | for every block size, the same refusals and the same factors |
| LUBlocked.BlkVar5 | examples/lu/LU_blk_var5.c:24-61 | for every block size, the same refusals and the same factors |
| RefLU.ColumnsApart | examples/lu/REF_LU.c:13 | a leading dimension of at least `n` places every entry in its own cell of the buffer |
| RefLU.GridCells | examples/lu/REF_LU.c:13 | entry `(i, j)` of the matrix is the cell `j * ld + i` of the buffer |
| RefLU.RightLookingStep | examples/lu/REF_LU.c:27-35 | one pass of the outer loop is one step of right-looking elimination |
| RefLU.RefLU | examples/lu/REF_LU.c:15-36 | the triple loop leaves the packed factors in the cells `j * ld + i`, changes no padding, and executes `n (n - 1) (4 n + 1) / 6` operations |
| RefLU.DriverCount | examples/lu/driver.c:90-91 | the driver's `2 n^3 / 3` exceeds the true count by `(3 n^2 + n) / 6` |
| Dominance.StepKeepsColumn | examples/lu/LU_unb_var5.c:32-36 | one elimination step on a strictly column dominant matrix leaves strictly dominant columns |
| Dominance.DominanceIsKept | examples/lu/LU_unb_var5.c:22-45 | through the whole run the trailing matrix is dominant, the pivot non-zero, and every multiplier below one in absolute value |
| Dominance.DominantHasPivots | examples/lu/driver.c:85-88 | a strictly dominant matrix meets what every LU variant requires |
| Singular.StepMapsToZero | examples/lu/LU_unb_var5.c:32-36 | an elimination step keeps which vectors the matrix maps to zero |
| Singular.LastPivotZeroIffSingular | src/base/flamec/check/blas/1/FLA_Inv_scal_check.c:37 | when the pivots before it are not, the last pivot is zero if and only if the matrix maps some vector other than zero to zero |
| Singular.LeadingBlocks | examples/lu/LU_unb_var5.c:22-45 | the pivots that the LU variants need are non-zero if and only if the smaller leading blocks are not singular |
| Shift.ShiftHasPivots | examples/lu/driver.c:82-88 | the driver's matrices meet what every LU variant requires, whatever the random entries are |
| Shift.SingularIsSigns | examples/lu/driver.c:82-88 | a singular one shows random entries that are minus the product of two signs each |
| Shift.RefusedIffSigns | examples/lu/driver.c:82-88 | full checking stops a variant on such a matrix if and only if the random entries are minus the outer product of signs |
| Shift.RefusalWitness | src/base/flamec/blis/util/bl1_rands.c:26 | two rows of random entries `-1`, which are in range, make a matrix that is refused |
| Shift.ShiftMakesDominant | examples/lu/driver.c:85-88 | the shift makes a matrix dominant if and only if no column has `-1` on the diagonal and only `1` and `-1` beside it |
| Shift.FormIsCouples | examples/chol/driver.c:82-88 | the quadratic form of such a matrix is what the diagonal exceeds `n - 1` by, plus one non-negative term for each pair of unknowns |
| Shift.DefiniteIffNotSigns | examples/chol/driver.c:82-88 | the Cholesky driver's matrix is positive definite unless its random lower triangle is minus the outer product of signs |
| RefLU.AgreesWithReference | examples/lu/LU_blk_var4.c:24-66 | on equal matrices, every variant leaves the entries that the reference loop leaves |
| LUSteps.VariantsAgree | examples/lu/LU_unb_var1.c:22-50 | on equal blocks, any two variants and block sizes leave equal entries |
| CholSteps.VariantsAgree | examples/chol/Chol_blk_var2.c:24-58 | on equal lower triangles, any two variants and block sizes leave equal entries |
| RefChol.NextStage | examples/chol/REF_Chol.c:28-37 | one pass of the loop subtracts the product with the untouched upper entry |
| RefChol.RefChol | examples/chol/REF_Chol.c:28-37 | the lower triangle, in the cells `j * ld + i`, becomes what that recurrence gives, the upper triangle and the padding stay, and it reports a number without a root |
| RefChol.RestGap | examples/chol/REF_Chol.c:33-36 | where a row agrees with the factor so far, the loop is off by what the differences contribute |
| RefChol.MatchesIffBalanced | examples/chol/REF_Chol.c:33-36 | on a positive definite matrix the loop leaves the factor if and only if the upper triangle is balanced |
| RefChol.FullStorageFails | examples/chol/REF_Chol.c:36 | a symmetric positive definite matrix stored in full, on which it does not |
| CholSteps.Sqrt | src/base/flamec/util/base/FLA_Sqrt.c:37-45 | a positive number becomes its root; any other is left alone and reported |
| CholSteps.SyrkLower | examples/chol/Chol_blk_var3.c:43-45 | `C := C - A * A'` on and below the diagonal, and no other entry changes |
| CholSteps.TrsmRightLowerT | examples/chol/Chol_blk_var3.c:39-42 | the block solves `X * L' = B`, and no other entry changes |
| CholFactors.CholReproduces | examples/chol/Chol_unb_var3.c:22-49 | with positive pivots, `L * L'` has the lower triangle of the original matrix |
| CholFactors.CholIsUnique | examples/chol/Chol_unb_var1.c:22-50 | any lower triangle with positive diagonal and that product is the computed one, and all pivots are positive |
| CholFactors.PositivePivotsIffFactorization | examples/chol/Chol_unb_var3.c:32-40 | the pivots are positive if and only if such a triangle exists |
| CholFactors.RestOfRest | examples/chol/Chol_blk_var3.c:36-46 | factoring a remainder continues the factorization of the matrix |
| Definiteness.FormIsQuadratic | examples/chol/Chol_unb_var3.c:22-49 | the form over the lower triangle is the quadratic form of the symmetric matrix |
| Definiteness.FormStep | examples/chol/Chol_unb_var3.c:32-40 | one step of the factorization splits a square off the quadratic form |
| Definiteness.NextIsPositive | examples/chol/Chol_unb_var3.c:38-40 | what a step leaves of a positive definite matrix is positive definite |
| Definiteness.PositiveDefiniteIffPivots | examples/chol/Chol_unb_var3.c:22-49 | a matrix is positive definite if and only if every number whose root is taken is positive |
| Definiteness.BlockPositiveDefinite | examples/chol/Chol_blk_var2.c:36-42 | a diagonal block that a blocked variant hands to an unblocked one is positive definite if and only if its pivots are positive |
| CholSteps.ReplacedReproduces | examples/chol/Chol_blk_var2.c:24-58 | the lower triangle that a variant leaves, times its transpose, has the lower triangle that was there before |
| CholVariants.UnbVar1 | examples/chol/Chol_unb_var1.c:22-50 | bordered: every root exists if and only if the matrix is positive definite; then the lower triangle becomes the factor; nothing else changes |
| CholVariants.UnbVar2 | examples/chol/Chol_unb_var2.c:22-52 | left-looking: the same |
| CholVariants.UnbVar3 | examples/chol/Chol_unb_var3.c:22-49 | right-looking: the same |
| CholVariants.BlkVar1 | examples/chol/Chol_blk_var1.c:24-54 | the same report and the same factor for every block size |
| CholVariants.BlkVar2 | examples/chol/Chol_blk_var2.c:24-58 | the same report and the same factor for every block size |
| CholVariants.BlkVar3 | examples/chol/Chol_blk_var3.c:24-54 | the same report and the same factor for every block size |
| Matrices.DotSplit | examples/gemm/Gemm_blk_var1.c:28-54 | an inner product may be split at any index |
| Gemm.PanelsJoin | examples/gemm/Gemm_blk_var1.c:28-54 | two panels of the inner dimension, one after the other, are one panel |
| Gemm.GeppBlkVar1 | examples/gemm/Gepp_blk_var1.c:31-61 | for every block of rows, `C` gains the panel product |
| Gemm.GemmBlkVar1 | examples/gemm/Gemm_blk_var1.c:28-54 | for every block size, `C` becomes `C + A * B` |
| Gemm.GemmUnbVar1 | examples/gemm/Gemm_unb_var1.c:26-50 | the sum of rank-one updates leaves the same `C + A * B` |

## Left out

- Floating-point rounding, integer overflow and SIMD code: arithmetic is over the reals and unbounded integers, so the schedules agree exactly here and up to rounding in the program. The assembly kernels, which count the increment in pairs of rows, are modelled by the plain C macros they replace.
- Complex matrices: those entry points apply the same real `gamma` and `sigma` to real and imaginary parts, which are two real matrices. The single precision entry points of the variants are empty stubs.
- Strides: `G` is a sequence of sets of rotations and `A` an `array2` with its columns next to each other, whose rows may include padding below the matrix. General strides are studied in `Strided` and `FlatBuffer`.
- ApplyG.Var1: a stripe that runs past the end of a column is excluded, likewise in the other variants and in RowBlocks.Blocked2, RowBlocks.Blocked6, RowBlocks.Blocked9 and RowBlocks.Blocked3. `FlatBuffer` treats such stripes for traces of two-column kernels: the variants then agree when the visited cells differ, and need not when they meet. Fused kernels on meeting cells are not modelled.
- FLAME views and objects: the submatrices of a partition are index ranges of one array, with the ranges that the repartitioning moves to.
- The inside of `FLA_Gemm`, `FLA_Trsm`, `FLA_Syrk` and their level 1 and 2 relatives: written from what the calls are documented to compute. `Dots`, `Gemv`, `Ger` and `Syr` are the matrix forms with one row, one column or both.
- LU without full checking, or by variants 1 and 2, of a matrix with a zero leading pivot: the program would divide by zero and store infinities; those methods require the pivots, and `LeadingBlocks` says that these are the matrices whose smaller leading blocks are not singular.
- CholVariants.UnbVar1: the program goes on after a number without a root, dividing by it; the method stops there and returns `false`, likewise in the other five variants and in `RefChol.RefChol`, where the program would store a NaN or, for zero, go on with it.
- LUUnblocked.UnbVar3: a refusal aborts the process in the program; here the method returns `false` and stops, likewise in variants 4 and 5 and the blocked variants 3, 4 and 5. What a refusal before the last step leaves inside the block is not stated.
- ApplyG.Var3: requires a column or a set, because of the read outside the grid described above; likewise ApplyG.Var9, and the drivers over them when there are rows.
- Square roots as a computation: the root is a parameter that is positive and squares to its argument.
- Block sizes below one, for which the blocked loops do not advance.
- `Gemm` variants 2 and 3, the drivers, timing, the tests of SVD and eigenvalue routines, the multithreaded copies, the C++ wrappers and the logging library: they add no harder property.
