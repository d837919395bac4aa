# findCorrelation in Dafny

`findCorrelation(df, threshold, exact, names)` is a Python port of the R caret
package's `findCorrelation`. It takes the absolute correlation matrix of a data
frame and returns the columns to drop so that no two remaining columns have a
correlation above `threshold`.

The function runs a masking loop on the matrix:

1. It sets the diagonal to NaN.
2. It scans the matrix in row-major order for the first entry strictly above
   the threshold. That entry gives a pair `(idx1, idx2)`.
3. It compares the two candidates' mean absolute correlations:
   - with `exact`, each mean is recomputed from the candidate's column of the
     current matrix;
   - without it, the means come from the rows of the initial matrix.
4. It removes `idx1` when its mean is strictly greater, and `idx2` otherwise.
5. It masks the removed variable's whole row and column with NaN, so
   positions keep their meaning.
6. It appends the removed position to a list.

The loop stops when the scan finds nothing. The list is then returned, either
as positions or as column labels.

This project models that loop and proves what it computes.

- **Entries** (`entries.dfy`). A matrix entry is `NaN` or `Num(r)` for a real `r`.
  - Both comparisons the loop makes (`corr_matrix > threshold` and `mean_corr1 > mean_corr2`) are false when NaN is involved.
  - `NanMean` is numpy's `nanmean`: the mean over the defined entries, or NaN when there are none.
- **Matrices** (`matrices.dfy`). The working matrix as a value.
  - This module defines masking the diagonal, masking one variable, and masking a sequence of variables in turn (`Masked`).
  - It also defines the scan `Argmax`, which models `np.unravel_index(np.argmax(corr_matrix > threshold), shape)`.
- **Pruning** (`pruning.dfy`). The loop as a recursive specification.
  - `Prune(d, threshold, exact, removed)` is the outcome of the loop once `removed` have been removed.
  - `FindCorrelationSpec` is the outcome of the whole run.
  - The two ways the source raises are `Failure` values:
    - `EmptyArgmax` is `argmax` of an empty array, for a matrix with no variables.
    - `ColumnIndexOutOfBounds` is the slice `corr_matrix[:, 2]` at line 49 on a matrix with at most two variables.
- **FindCorrelation** (`find_correlation.dfy`). The function itself, as an imperative method.
  - The matrix is an `array2` that the steps change in place: the diagonal fill, and the row and column masking.
  - `remove` is a sequence the loop appends to.
  - The loop is a `while loop` driven by the `loop` flag.
  - Loop invariants prove that the method returns what `FindCorrelationSpec` describes, mapped to labels when `names` is set.
- **PruningProperties, Decisions, Boundaries** (`properties.dfy`, `decisions.dfy`, `boundaries.dfy`). What a run promises:
  - where it stops, what it removed and why, and when it fails;
  - how the two mean strategies reduce to comparing sums;
  - the boundary outcomes;
  - that running again on the surviving columns removes nothing.
- **Scenarios** (`scenarios.dfy`). Two three-variable runs worked out in full. On the second one the two mean strategies remove different variables.

The real numbers in the model are exact reals, not IEEE doubles.

## Model

| member | source | states |
|---|---|---|
| Entries.Exceeds | findCorrelation.py:41 | the elementwise test `corr_matrix > threshold`: true only for a defined entry strictly above the threshold, so NaN never exceeds |
| Entries.Greater | findCorrelation.py:54 | the comparison `mean_corr1 > mean_corr2`: true only when both means are defined and the first is strictly greater, so a NaN mean never wins |
| Matrices.Column | findCorrelation.py:46-47 | the slice `corr_matrix[:, j]`: one entry per row, the row's entry in column `j` |
| Matrices.WithNanDiagonal | findCorrelation.py:28 | `np.fill_diagonal(corr_matrix, val=np.nan)` as a value: the same shape, NaN on the diagonal and the old entry elsewhere (properties in `Matrices.WithNanDiagonalKeepsSymmetry`) |
| Matrices.WithoutVariable | findCorrelation.py:59-64 | the two slice assignments as a value: row `k` and column `k` become NaN and every other entry is unchanged |
| Matrices.Masked | findCorrelation.py:57-64 | the working matrix once the listed variables have been removed in turn, each masked in the matrix left by the ones before (closed form in `Matrices.MaskedAt`) |
| Pruning.RowMeans | findCorrelation.py:31 | `np.nanmean(corr_matrix, axis=1)`: one mean per row, each that row's `nanmean` |
| Pruning.CandidateMean | findCorrelation.py:45-52 | the mean a candidate is judged by: with `exact`, the `nanmean` of its column in the current matrix; otherwise its entry of `RowMeans` of the initial matrix (compared as sums in `Decisions.ExactMeansCompareAsSums` and `Decisions.SnapshotMeansCompareAsSums`) |
| Pruning.Loser | findCorrelation.py:54-64 | `idx1` when `Greater(mean1, mean2)`, else `idx2`, so NaN means and ties fall to `idx2` |
| Pruning.Prune | findCorrelation.py:36-66 | the `while loop` from the state where `removed` have been removed: `EmptyArgmax` for no variables, the list so far when the scan finds nothing, `ColumnIndexOutOfBounds` at line 49 with `exact` and at most two variables, and otherwise the run continued after appending the loser (one step spelled out in `Pruning.PruneUnfold`; what it returns in `PruningProperties.PruneSucceeds` and `Decisions.PruneDecisions`) |
| Pruning.FindCorrelationSpec | findCorrelation.py:28-66 | the whole run: fill the diagonal, then prune from an empty list (its outcomes in `PruningProperties.FindCorrelationSucceeds` and `PruningProperties.FindCorrelationFails`) |
| FindCorrelation.ToLabels | findCorrelation.py:68 | `list(df.columns[remove])`: one label per removed position, in the same order, each the label of that position |
| Boundaries.Restrict | findCorrelation.py:27 | the correlation matrix of the kept columns of `df`: pairwise correlation depends only on each pair's two columns, so it is the submatrix of `corr` on those columns |
| Entries.NanMean | findCorrelation.py:46-47 | `nanmean` of a slice is a number exactly when some entry of the slice is defined, and NaN otherwise |
| Entries.GreaterMeansIffGreaterSums | findCorrelation.py:54 | two means over the same number of defined entries compare as their sums do, so `mean_corr1 > mean_corr2` needs no division |
| Matrices.MaskedAt | findCorrelation.py:57-64 | after any sequence of removals, an entry is NaN when its row or column was removed and the original entry otherwise, whatever the order of removal |
| Matrices.FirstInRow | findCorrelation.py:41 | the scan of one row returns the first column at or after `j` whose entry exceeds the threshold, or none when no such column exists |
| Matrices.FirstFrom | findCorrelation.py:41 | the row-major scan from row `i` returns the first exceeding position, with nothing before it exceeding, or none when nothing exceeds |
| Matrices.Argmax | findCorrelation.py:37-41 | the scan returns the first entry in row-major order that strictly exceeds the threshold, and `(0, 0)` when none does; NaN never exceeds |
| Matrices.ArgmaxStopsIffNoneExceeds | findCorrelation.py:40-43 | with a NaN diagonal, `idx1 != idx2` holds exactly when some entry exceeds the threshold |
| Matrices.FirstExceedingIsAboveDiagonal | findCorrelation.py:41-43 | on a symmetric matrix with a NaN diagonal, the first exceeding entry has `idx1 < idx2` |
| Matrices.ArgmaxIsFirst | findCorrelation.py:41 | the scan returns whichever position is the first exceeding one, so a known first exceeding pair is the scan's result |
| Matrices.MaskedExtend | findCorrelation.py:59-64 | removing one more variable masks that variable in the matrix reached so far |
| Pruning.ScanPairIsLive | findCorrelation.py:41-43 | a pair the scan finds has both variables still unremoved, exceeds the threshold in the original matrix, and leaves room for another removal |
| Pruning.PruneUnfold | findCorrelation.py:41-64 | one iteration: stop with the list so far when `idx1 == idx2`, fail at line 49 with `exact` and at most two variables, and otherwise continue with the loser appended to a list that stays distinct and in range |
| FindCorrelation.ToLabelsFaithful | findCorrelation.py:68 | with distinct column labels, the label list names each removed position in order and has no repeats |
| FindCorrelation.Load | findCorrelation.py:27 | `np.array(...)` gives a fresh array holding the correlation matrix |
| FindCorrelation.FillDiagonal | findCorrelation.py:28 | `np.fill_diagonal` leaves the array holding `WithNanDiagonal` of its old contents |
| FindCorrelation.MaskVariable | findCorrelation.py:59-64 | the two slice assignments leave the array holding `WithoutVariable(old, k)` |
| FindCorrelation.FindCorrelation | findCorrelation.py:27-69 | the method fails exactly when `FindCorrelationSpec` fails, with the same error; otherwise it returns `FindCorrelationSpec`'s removal list, as positions or mapped to labels when `names` is set |
| PruningProperties.MaskedKeepsNanDiagonal | findCorrelation.py:57-64 | removals keep the diagonal NaN |
| PruningProperties.MaskedKeepsSymmetry | findCorrelation.py:57-64 | removals keep a symmetric matrix symmetric |
| PruningProperties.StopMeansNoLiveExceeding | findCorrelation.py:65-66 | when the scan finds nothing, no two unremoved variables have an entry above the threshold |
| PruningProperties.StepRemovesOffending | findCorrelation.py:43-64 | the variable a step removes exceeds the threshold with another unremoved variable |
| PruningProperties.PruneSucceeds | findCorrelation.py:36-66 | from any reachable state, a successful run extends the list with distinct in-range variables, fewer than all of them; each was in an exceeding pair of unremoved variables when removed, and no unremoved pair exceeds the threshold at the end |
| PruningProperties.FindCorrelationSucceeds | findCorrelation.py:34-66 | a successful run returns distinct positions below `n`, at most `n - 1` of them; each removal was justified when made, and every pair of distinct survivors has correlation at most `threshold` |
| PruningProperties.PruneFailsOnlySmallExact | findCorrelation.py:41-49 | a run on a non-empty matrix never fails unless `exact` is set and there are fewer than three variables |
| PruningProperties.MaskedDiagonalExceeding | findCorrelation.py:28-41 | after the diagonal fill, some entry exceeds the threshold exactly when some off-diagonal entry of the input does |
| PruningProperties.FindCorrelationFails | findCorrelation.py:41-49 | the run fails exactly when there are no variables (`EmptyArgmax`), or when `exact` is set, there are at most two variables and a pair exceeds the threshold (`ColumnIndexOutOfBounds`) |
| PruningProperties.NothingRemovedIffNoneExceeds | findCorrelation.py:40-43 | a non-empty matrix has nothing removed exactly when no off-diagonal entry exceeds the threshold |
| Decisions.StepDecided | findCorrelation.py:41-64 | the variable a step removes is the decision on the scan's pair; on a symmetric matrix that pair has `idx1 < idx2` |
| Decisions.PruneDecisions | findCorrelation.py:36-64 | from any reachable state, every later removal is the decision taken in the state just before it |
| Matrices.WithNanDiagonalKeepsSymmetry | findCorrelation.py:28 | after the diagonal fill the diagonal is NaN, and a symmetric input stays symmetric |
| Decisions.RemovalsAreDecisions | findCorrelation.py:41-64 | each removal is the decision on the first exceeding pair at that point; it is `idx1` exactly when `idx1`'s mean is strictly greater, otherwise `idx2`, ties included; on a symmetric input `idx1 < idx2` |
| Decisions.LiveColumnDefined | findCorrelation.py:46-47 | in a complete matrix, an unremoved variable's current column is defined exactly at the other unremoved variables |
| Decisions.LiveColumnCount | findCorrelation.py:46-47 | in a complete matrix, an unremoved variable's current column has `n - removed - 1` defined entries |
| Decisions.ExactMeansCompareAsSums | findCorrelation.py:45-47 | with `exact` and a complete matrix, the candidates' means compare as their current column sums |
| Decisions.RowCount | findCorrelation.py:31 | in a complete matrix, every row after the diagonal fill has `n - 1` defined entries |
| Decisions.SnapshotMeansCompareAsSums | findCorrelation.py:51-52 | without `exact`, the candidates' means compare as their initial row sums, whatever has been removed since |
| Boundaries.TwoLive | findCorrelation.py:41-43 | with at least two fewer removals than variables, two distinct variables remain unremoved |
| Boundaries.NegativeThresholdLeavesOne | findCorrelation.py:36-66 | below zero every pair of distinct variables exceeds, so a run on defined non-negative correlations that is not `exact` on exactly two variables succeeds and removes all variables but one; one variable gives `[]` |
| Boundaries.MeanAfterNaN | findCorrelation.py:31 | `nanmean` of a NaN and a number is that number |
| Boundaries.MeanBeforeNaN | findCorrelation.py:31 | `nanmean` of a number and a NaN is that number |
| Boundaries.TwoVariablesSnapshotRemovesSecond | findCorrelation.py:51-64 | two variables with an exceeding correlation and no `exact`: the means tie and the result is `[1]` |
| Boundaries.Survivors | findCorrelation.py:6-20 | the columns a caller keeps after dropping the returned ones are the positions below `n` that were not removed, in increasing order |
| Boundaries.SurvivorsNonEmpty | findCorrelation.py:36-66 | a run that removes fewer than all variables keeps at least one |
| Boundaries.RerunRemovesNothing | findCorrelation.py:36-66 | running again on the surviving columns with the same threshold and strategy removes nothing |
| Scenarios.SumCountThree | findCorrelation.py:46-47 | the defined-entry count and sum of a three-entry slice are the counts and values of its entries |
| Scenarios.StepTo | findCorrelation.py:41-64 | with at least three variables and a found pair, a step continues with the loser appended |
| Scenarios.AbcDiagonal | findCorrelation.py:28 | the diagonal fill of the first example's matrix |
| Scenarios.AbcMeans | findCorrelation.py:45-52 | in the first example, A's mean is 0.675 and B's is 0.625 with either strategy |
| Scenarios.AbcFirstStep | findCorrelation.py:41-64 | the first example's scan finds (A, B), and A is removed |
| Scenarios.AbcStops | findCorrelation.py:65-66 | with A removed, the first example stops |
| Scenarios.AbcRemovesA | findCorrelation.py:36-66 | at threshold 0.9 the first example removes A alone, with either strategy |
| Scenarios.ChainDiagonal | findCorrelation.py:28 | the diagonal fill of the second example's matrix |
| Scenarios.ChainFirstMeans | findCorrelation.py:45-52 | in the second example, the first step's means are 0.85 and 0.75 with either strategy |
| Scenarios.ChainFirstStep | findCorrelation.py:41-64 | both strategies remove variable 0 first |
| Scenarios.ChainAfterFirst | findCorrelation.py:59-60 | with variable 0 removed, only the pair (1, 2) is left |
| Scenarios.ChainSecondExactMeans | findCorrelation.py:46-47 | recomputed over the remaining variables, the second step's means tie at 0.6 |
| Scenarios.ChainSecondSnapshotMeans | findCorrelation.py:51-52 | taken from the initial matrix, the second step's means are 0.75 and 0.7 |
| Scenarios.ChainSecondScan | findCorrelation.py:41 | the second scan finds the pair (1, 2) |
| Scenarios.ChainSecondStep | findCorrelation.py:41-64 | the second step removes variable 2 with `exact` and variable 1 without it |
| Scenarios.ChainSecondLoser | findCorrelation.py:54-64 | on the tie the `else` branch removes `idx2`, which is 2; with the initial means, variable 1's mean is the greater, so 1 is removed |
| Scenarios.ChainStops | findCorrelation.py:65-66 | once one variable is left, the run stops |
| Scenarios.ExactAndSnapshotDiverge | findCorrelation.py:45-52 | on the same matrix, `exact` returns `[0, 2]` and the initial-means strategy returns `[0, 1]` |

### Behaviour worth knowing

- **Ties.** A tie falls to the `else` branch at line 61, which removes
  `idx2`. On a symmetric matrix `idx2` is the higher-numbered variable of the
  pair, so two variables without `exact` give `[1]`
  (`Scenarios.ChainSecondLoser`,
  `Boundaries.TwoVariablesSnapshotRemovesSecond`).
- **No variables.** `np.argmax` of an empty array raises, and the model
  returns `Failure(EmptyArgmax)`.
- **Shape.** The function performs no shape check. The model has no shape
  error: squareness is a precondition, since the correlation step always
  yields a square matrix, and symmetry is assumed only by the lemmas that
  need it.
- **Line 49.** `np.delete(corr_matrix[:, 2], 2)` discards its value, but its
  slice raises below three columns. The model keeps this as
  `Failure(ColumnIndexOutOfBounds)`, reached with `exact` on a matrix of at
  most two variables that has an exceeding pair
  (`PruningProperties.FindCorrelationFails`). So two variables with `exact`
  fail rather than losing one.

## Left out

- `df.corr()` and `abs(...)` at line 27: the Pearson computation of pandas and
  numpy is a foreign library call. The model takes the resulting matrix as
  input. Symmetry, non-negativity and completeness of the entries are
  required only by the lemmas that need them.
- IEEE floating point: correlations and means are exact reals. Rounding in
  `nanmean` and in the comparisons is not modelled.
- The value `np.delete` computes at line 49 is discarded by the source and is
  not modelled. Only the slice's failure is modelled.
- pandas label semantics at line 68: `df.columns[remove]` is modelled as a
  lookup of each position in a sequence of labels.
- Warnings that `nanmean` emits on all-NaN slices. A mean that is NaN is
  modelled; the warning is I/O.
- The type and range checks a caller of the Python function might expect on
  `threshold` are not part of the source and are not modelled.
- The defaults `exact=True, names=False` of line 5: `FindCorrelation.FindCorrelation`
  takes both flags explicitly, as Dafny methods have no default arguments.
- Non-numeric columns: `df.corr()` leaves them out of the matrix, while the
  method requires one label per matrix column (`|columns| == |corr|`). The
  model thus assumes every column of `df` is numeric, so that the positions
  of the matrix are the positions of `df.columns`.
