# Dense-matrix elimination engine, modelled in Dafny

This project models the core of `org.kelvinho.matrix`, a small Java library of
dense matrices. That core is the two matrix classes `Matrix` (float entries)
and `AccurateMatrix` (double entries), together with the static helpers in
`Environment`. It has three parts:

- the elementary operations: constructors, `get`, copy-on-write `set`,
  `clone`, `dot`, `transpose`, `sum`, entrywise `operate` and tolerance `equals`;
- the two row operations `addRowToRow` and `changeRow`;
- the elimination engine built on the row operations:
  - `reducedRowEchelonForm`;
  - `pivotLocations` and `rank`;
  - the null-space basis `nullSpace`;
  - `inverse` and `nonNullInverse`, which reduce the augmented matrix [M | I].

## How the model is built

Entries are exact `real`s.

The Java matrices are modelled by one class, `Matrices.Matrix`:

- its entries are a `const values: array2<real>`;
- a `precision` constant (`Float` or `Double`) selects what differs between the
  two Java classes:
  - the zero tests;
  - the entry comparison of `equals`;
  - whether the fill constructor uses its value;
  - whether the `rank` and `nullSpace` memos exist.
- The memo fields (`transposedMatrix`, `sum`, and for AccurateMatrix `rank` and
  `nullSpace`) are the only state that changes. `Valid()` ties each memo to the
  entries.

Every loop of the Java code is a `method` with a `while` or `for` loop. Each
method is proved equal to a function on grids (`seq<seq<real>>`):

- module `Grids`: shapes, product, transpose, totals, entrywise maps;
- module `Elimination`: row operations, the forward and backward passes,
  `Rref`;
- module `Derived`: pivot locations, rank, the null-space grid and the
  inverse;
- module `Environment`: the grid copies and the tolerance equalities.

The properties of those functions are proved as lemmas. Module `Scenarios`
states the library's own test cases, and the cases where the code departs from
textbook elimination, as lemmas about the model.

The source calls three zero tests: `isStrictZero`, `isZero` and
`doubleLooselyEquals`. Their definitions are not part of the code modelled
here. They are carried as function values (`Environment.ZeroTests`), and the
only thing assumed about them is that each counts exact 0 as zero. Every
elimination function takes them as a `ZeroPolicy`:

- the `strict` test is used for forward pivots and pivot locations;
- the `loose` test is used for the backward pass and the singularity test of
  `inverse`.

Matrix uses `isStrictZero` and `isZero` respectively. AccurateMatrix uses
`doubleLooselyEquals(x, 0.0)` for both.

### Behaviour as written

Where the code departs from textbook Gauss-Jordan elimination, the model
follows the code.

- **No row swaps.** The forward pass searches each row from the previous
  pivot column onwards. It stops at the first row without a pivot.
  - `Scenarios.ZeroTopRowRank`: [[0,0],[1,0]] comes back unchanged and has
    rank 0.
  - `Scenarios.SwappedInverse`: `inverse()` of [[0,1],[1,0]] is the identity,
    and M·I ≠ I.
- **Rank can exceed the column count.** `rank()` counts rows up to the first
  row without a pivot location, and the backward pass can leave a non-zero
  entry in rows the forward pass never normalised.
  - `Scenarios.RankBeyondColumns`: [[0,1],[1,0],[2,0]] has rank 3 with 2
    columns.
  - `nullSpace()` then fails, because it allocates 2 − 3 columns.
- **Free columns left of the first pivot are skipped.** `nullSpace()` fills
  only the free columns right of each pivot, and writes its entries at rows
  0..i rather than at the pivot columns.
  - `Derived.NullSpaceSucceeds` counts the columns it fills:
    columns − rank − piv[0].
  - The remaining columns stay 0.
- **The rank memo is partial.** AccurateMatrix stores its rank only when every
  row has a pivot location, because the early `return` skips the assignment.
- **The null-space memo keeps a partial fill.** AccurateMatrix keeps the
  null-space matrix it allocated even when the fill then fails. Later calls
  return that partly filled matrix.
- **The float fill constructor ignores its value.** `Matrix(r, c, value)`
  fills with 0; `AccurateMatrix(r, c, value)` fills with `value`.

## Model

| member | source | states |
|---|---|---|
| Grids.Generated | src/main/java/org/kelvinho/matrix/Matrix.java:17-26 | r-by-c grid whose entry (i, j) is f(i, j) |
| Grids.Filled | src/main/java/org/kelvinho/matrix/AccurateMatrix.java:26-28 | r-by-c grid with every entry equal to the value |
| Grids.Identity | src/main/java/org/kelvinho/matrix/Matrix.java:311-313 | n-by-n grid with 1 on the diagonal, 0 elsewhere |
| Grids.WithCell | src/main/java/org/kelvinho/matrix/Matrix.java:57-61 | same shape; entry (i, j) is v; every other entry unchanged |
| Grids.WithCellTwice | src/main/java/org/kelvinho/matrix/Matrix.java:57-61 | setting a cell twice keeps only the second value |
| Grids.WithCellSame | src/main/java/org/kelvinho/matrix/Matrix.java:57-61 | setting a cell to its own value changes nothing |
| Grids.Transposed | src/main/java/org/kelvinho/matrix/Matrix.java:105-110 | columns-by-rows grid with T[j][i] = g[i][j] |
| Grids.TransposeInvolutive | src/main/java/org/kelvinho/matrix/Matrix.java:101-112 | transposing twice gives back the grid |
| Grids.Product | src/main/java/org/kelvinho/matrix/Matrix.java:63-78 | r-by-m grid whose entry (i, j) is the left-to-right sum over k of a[i][k]·b[k][j] |
| Grids.ProductTranspose | src/main/java/org/kelvinho/matrix/Matrix.java:63-78 | (A·B)ᵀ = Bᵀ·Aᵀ, relating `dot` and `transpose` |
| Grids.ProductIdentity | src/main/java/org/kelvinho/matrix/Matrix.java:63-78 | I·B = B |
| Grids.Mapped | src/main/java/org/kelvinho/matrix/Matrix.java:153-164 | same shape; each entry is f of the original entry |
| Grids.Zipped | src/main/java/org/kelvinho/matrix/Matrix.java:166-177 | same shape; each entry is f of the two entries at that position |
| Grids.TotalOfSum | src/main/java/org/kelvinho/matrix/Matrix.java:114-126 | the total of A + B is the total of A plus the total of B |
| Grids.NegateInvolutive | src/main/java/org/kelvinho/matrix/Matrix.java:340-342 | negating twice gives back the grid |
| Grids.OneMinusInvolutive | src/main/java/org/kelvinho/matrix/Matrix.java:364-366 | applying 1 − x twice gives back the grid |
| Grids.MinusUndoesAdd | src/main/java/org/kelvinho/matrix/Matrix.java:376-382 | (A + B) − B = A |
| Environment.Cloned | src/main/java/org/kelvinho/matrix/Environment.java:7-18 | fails exactly for no rows (InvalidShape) or a row shorter than the first (IndexOutOfRange); otherwise rows × first-row-length copy of the entries |
| Environment.Clone | src/main/java/org/kelvinho/matrix/Environment.java:7-18 | fresh array whose outcome and entries are those of `Cloned` |
| Environment.Converted | src/main/java/org/kelvinho/matrix/Environment.java:20-33 | the same failures as `Cloned`; otherwise each integer entry as the equal real |
| Environment.Convert | src/main/java/org/kelvinho/matrix/Environment.java:20-33 | fresh array whose outcome and entries are those of `Converted` |
| Environment.CloneInts | src/main/java/org/kelvinho/matrix/Environment.java:35-37 | delegates to `Convert`: the same outcome and entries |
| Environment.ToleranceEqualities | src/main/java/org/kelvinho/matrix/Environment.java:39-45 | both equalities are reflexive and symmetric, and hold iff the difference lies strictly inside ±tolerance |
| Environment.ToleranceEqualitiesNotTransitive | src/main/java/org/kelvinho/matrix/Environment.java:39-45 | values exist where a≈b and b≈c but not a≈c, for both tolerances |
| Elimination.RowAdded | src/main/java/org/kelvinho/matrix/Matrix.java:190-196 | row t becomes row t + m·row s entrywise; every other row unchanged |
| Elimination.RowAddedUndone | src/main/java/org/kelvinho/matrix/Matrix.java:190-196 | adding m·row s and then −m·row s to row t (s ≠ t) restores the grid |
| Elimination.AddRowToRow | src/main/java/org/kelvinho/matrix/Matrix.java:190-196 | IndexOutOfRange iff there are columns and s or t is out of range; otherwise the shape is kept, row t gets + m·row s, and the other rows are unchanged |
| Elimination.RowChanged | src/main/java/org/kelvinho/matrix/Matrix.java:198-207 | row t becomes f of each entry; every other row unchanged |
| Elimination.ChangeRow | src/main/java/org/kelvinho/matrix/Matrix.java:198-207 | IndexOutOfRange iff t is outside [0, rows); otherwise only row t changes, each entry to f(old) |
| Elimination.RowChangedIsScaled | src/main/java/org/kelvinho/matrix/Matrix.java:224-225 | changeRow with x ↦ x·k is scaling row t by k |
| Elimination.FindPivot | src/main/java/org/kelvinho/matrix/Matrix.java:216-222 | Some(p): p is the first column at or after `from` whose entry the test does not count as zero; None: all such entries count as zero |
| Elimination.FindPivotAt | src/main/java/org/kelvinho/matrix/Matrix.java:216-222 | the search returns exactly the first non-zero column after zeros |
| Elimination.EliminateBelow | src/main/java/org/kelvinho/matrix/Matrix.java:227-229 | shape kept; rows above the start unchanged |
| Elimination.EliminateBelowEntries | src/main/java/org/kelvinho/matrix/Matrix.java:227-229 | every row v below becomes row v − g[v][p]·row i |
| Elimination.PivotStep | src/main/java/org/kelvinho/matrix/Matrix.java:223-229 | shape kept, rows above i unchanged, pivot entry exactly 1, 0 in the pivot column below it |
| Elimination.PivotStepKeepsZeroColumn | src/main/java/org/kelvinho/matrix/Matrix.java:223-229 | a column that is 0 from row i down stays 0 there |
| Elimination.Forward | src/main/java/org/kelvinho/matrix/Matrix.java:213-233 | shape kept; rows above the start unchanged; at most one pivot per remaining row |
| Elimination.ForwardKeepsZeroColumn | src/main/java/org/kelvinho/matrix/Matrix.java:213-233 | a column that is 0 from row i down stays 0 there through the whole pass |
| Elimination.ForwardPivotsIncrease | src/main/java/org/kelvinho/matrix/Matrix.java:213-233 | pivot columns strictly increase from the start column and stay below the column count (the search never moves left) |
| Elimination.ForwardNormalisesPivotRows | src/main/java/org/kelvinho/matrix/Matrix.java:213-233 | every normalised row has exactly 1 at its pivot and 0 in that column in all rows below |
| Elimination.ForwardStopsAtZeroRow | src/main/java/org/kelvinho/matrix/Matrix.java:213-233 | when the pass stops early, the row it stopped at counts as zero from the last pivot column on |
| Elimination.EliminateAbove | src/main/java/org/kelvinho/matrix/Matrix.java:245-247 | shape kept; rows below the start unchanged |
| Elimination.EliminateAboveEntries | src/main/java/org/kelvinho/matrix/Matrix.java:245-247 | every row v above becomes row v − g[v][p]·row i |
| Elimination.BackStep | src/main/java/org/kelvinho/matrix/Matrix.java:236-248 | rows i and below unchanged; a row without a non-zero entry changes nothing |
| Elimination.BackStepEntries | src/main/java/org/kelvinho/matrix/Matrix.java:236-248 | with a first non-zero entry at p, each row above becomes itself − g[v][p]·row i |
| Elimination.Backward | src/main/java/org/kelvinho/matrix/Matrix.java:235-249 | shape kept; rows below the start unchanged |
| Elimination.BackwardKeepsZeroColumn | src/main/java/org/kelvinho/matrix/Matrix.java:235-249 | a column that is 0 in rows 0..i stays 0 there |
| Elimination.BackwardClearsAbove | src/main/java/org/kelvinho/matrix/AccurateMatrix.java:103-117 | a row whose first non-zero entry is 1 at column p leaves 0 at column p in every row above |
| Elimination.BackStepClearsColumn | src/main/java/org/kelvinho/matrix/AccurateMatrix.java:111-116 | one backward step clears the pivot column above the row |
| Elimination.BackwardKeepsPivot | src/main/java/org/kelvinho/matrix/Matrix.java:235-249 | a 1 with 0s below it in its column survives the backward pass |
| Elimination.BackStepKeepsPivot | src/main/java/org/kelvinho/matrix/Matrix.java:236-248 | a 1 with 0s below it in its column survives one backward step |
| Elimination.Rref | src/main/java/org/kelvinho/matrix/Matrix.java:209-251 | the forward pass from row 0, column 0 with the strict test, then the backward pass from the last row with the loose test; same shape as the input |
| Elimination.ForwardPivots | src/main/java/org/kelvinho/matrix/Matrix.java:213-233 | the pivot columns the forward pass of `reducedRowEchelonForm` takes: at most one per row, strictly increasing, each a column |
| Elimination.RrefFacts | src/main/java/org/kelvinho/matrix/Matrix.java:209-251 | shape kept; forward pivots strictly increase, one per leading row; in the result each such row has 1 at its pivot and 0 below it |
| Derived.Leading | src/main/java/org/kelvinho/matrix/Matrix.java:256-264 | −1 iff every entry counts as zero; otherwise the first column that does not |
| Derived.PivotLocations | src/main/java/org/kelvinho/matrix/Matrix.java:253-266 | one location per row, each −1 or a column of that row |
| Derived.RankOf | src/main/java/org/kelvinho/matrix/Matrix.java:268-276 | the first index whose location is −1, or the row count; all locations before it are pivots |
| Derived.RankOfUnique | src/main/java/org/kelvinho/matrix/Matrix.java:268-276 | the count is the only one with those two properties |
| Derived.Rank | src/main/java/org/kelvinho/matrix/Matrix.java:268-276 | rank ≤ rows |
| Derived.RankCountsForwardPivots | src/main/java/org/kelvinho/matrix/Matrix.java:268-276 | every row the forward pass normalised counts towards the rank |
| Derived.PivotBound | src/main/java/org/kelvinho/matrix/Matrix.java:284 | the loop bound is at least 1 and at least the rank |
| Derived.RowTasks | src/main/java/org/kelvinho/matrix/Matrix.java:286-289 | the free columns from piv[i] + 1 up to the next pivot (or the column count), in order |
| Derived.Tasks | src/main/java/org/kelvinho/matrix/Matrix.java:284-296 | every visited column is a column, attributed to a pivot below the bound |
| Derived.NullSpaceGrid | src/main/java/org/kelvinho/matrix/Matrix.java:289-294 | column y holds 1 at its free column, −R[x][free] in rows x ≤ i, 0 elsewhere; unused columns all 0 |
| Derived.NullSpaceOf | src/main/java/org/kelvinho/matrix/Matrix.java:278-298 | fails iff cols < rank (NegativeArraySize), no rows, or more free columns than width (IndexOutOfRange); otherwise columns × (columns − rank), where each built column has 1 at its free column, −R[x][free] in rows x ≤ its pivot row and 0 below, and every unused column is 0 |
| Derived.NullSpaceFilled | src/main/java/org/kelvinho/matrix/AccurateMatrix.java:157-171 | the partly filled memo; equals the null space when the fill succeeds, all 0 when there are no rows |
| Derived.NullSpace | src/main/java/org/kelvinho/matrix/Matrix.java:278-298 | `nullSpace()` of a grid: NegativeArraySize exactly when the rank exceeds the column count; fails for no rows; otherwise a columns × (columns − rank) grid |
| Derived.TaskCount | src/main/java/org/kelvinho/matrix/Matrix.java:284-296 | with increasing pivots, the number of filled columns telescopes to (next pivot or cols) − piv[0] − n |
| Derived.NullSpaceSucceeds | src/main/java/org/kelvinho/matrix/Matrix.java:278-298 | with rows and increasing pivots the fill succeeds, filling columns − rank − piv[0] columns |
| Derived.PivotAtOrRightOfRow | src/main/java/org/kelvinho/matrix/Matrix.java:284-286 | with strictly increasing pivots, pivot k lies in column k or later |
| Derived.Augmented | src/main/java/org/kelvinho/matrix/Matrix.java:305-313 | n × 2n: M on the left, the identity on the right |
| Derived.RightHalf | src/main/java/org/kelvinho/matrix/Matrix.java:317-322 | n × n, entry (i, j) is R[i][n + j] |
| Derived.LastRowVanishes | src/main/java/org/kelvinho/matrix/Matrix.java:315-316 | the singularity test of `inverse()`: holds iff there are no rows or the loose test counts every entry of the left half of the last reduced row as zero |
| Derived.InverseOf | src/main/java/org/kelvinho/matrix/Matrix.java:300-327 | NotInvertible iff not square; absent iff the reduced [M \| I]'s last row is zero on the left; otherwise its right half |
| Derived.InverseFromReduced | src/main/java/org/kelvinho/matrix/Matrix.java:314-326 | the inverse in terms of the reduced augmented grid |
| Derived.NonNullInverseOf | src/main/java/org/kelvinho/matrix/Matrix.java:329-332 | fails iff the inverse fails or is absent (absent gives MissingValue); otherwise the inverse |
| Derived.RrefOfIdentityBlock | src/main/java/org/kelvinho/matrix/Matrix.java:209-251 | a grid whose left block is the identity is already reduced, with pivots 0..n−1 and rank n |
| Derived.IdentityFacts | src/main/java/org/kelvinho/matrix/Matrix.java:268-276 | the rank of Iₙ is n, and for n > 0 its inverse is Iₙ |
| Derived.IdentityInverse | src/main/java/org/kelvinho/matrix/Matrix.java:300-327 | inverse(Iₙ) = Iₙ for n > 0 |
| Derived.NullSpaceOfIdentity | src/main/java/org/kelvinho/matrix/AccurateMatrix.java:150-174 | the null space of Iₙ is n × 0 |
| Derived.ZeroGridReduced | src/main/java/org/kelvinho/matrix/Matrix.java:209-251 | the zero grid is its own reduced form and has rank 0 |
| Derived.ZeroGridNullSpace | src/main/java/org/kelvinho/matrix/AccurateMatrix.java:150-174 | with rows, the null space of a zero grid is the identity |
| Derived.FirstAbsentFrom | src/main/java/org/kelvinho/matrix/Matrix.java:269-275 | the first location at or after `from` that is −1 (or the length); every location before it is a pivot |
| Derived.NullSpaceFilledByTasks | src/main/java/org/kelvinho/matrix/Matrix.java:289-295 | a grid holding the task columns in its first n columns and 0 elsewhere is the filled grid; the fill succeeds iff every task got a column |
| Derived.DiagonalTasksEmpty | src/main/java/org/kelvinho/matrix/Matrix.java:284-296 | pivots 0..n−1 on n columns leave no free column to fill |
| Derived.IdentityBlockPivots | src/main/java/org/kelvinho/matrix/Matrix.java:253-266 | a grid whose left block is the identity has pivot locations 0..n−1 |
| Derived.IdentityAugmentedReduced | src/main/java/org/kelvinho/matrix/Matrix.java:305-316 | [I \| I] is its own reduced form and its last row is not zero on the left |
| Derived.IdentityAugmentedRightHalf | src/main/java/org/kelvinho/matrix/Matrix.java:317-322 | the crop of [I \| I] is I |
| Derived.BackwardOnZeros | src/main/java/org/kelvinho/matrix/Matrix.java:235-249 | the backward pass leaves a zero grid unchanged |
| Derived.ZeroPivotsNullSpace | src/main/java/org/kelvinho/matrix/Matrix.java:278-298 | when every pivot location is −1 and the rank is 0, the null space is the identity |
| Matrices.Matrix.Generate | src/main/java/org/kelvinho/matrix/Matrix.java:17-26 | fresh matrix of the given shape and class, no memos, entries `Generated(r, c, f)` |
| Matrices.Matrix.NewArray | src/main/java/org/kelvinho/matrix/Matrix.java:21-25 | the loops fill a fresh r × c array with f(i, j) |
| Matrices.Matrix.Fill | src/main/java/org/kelvinho/matrix/Matrix.java:28-30 | a Matrix ignores the value and fills with 0; an AccurateMatrix fills with the value |
| Matrices.Matrix.Zero | src/main/java/org/kelvinho/matrix/Matrix.java:32-34 | all entries 0 |
| Matrices.Matrix.FromGrid | src/main/java/org/kelvinho/matrix/AccurateMatrix.java:34-41 | the outcome of `Cloned`: InvalidShape for no rows, IndexOutOfRange for a short row, else the copied entries |
| Matrices.Matrix.FromIntGrid | src/main/java/org/kelvinho/matrix/Matrix.java:42-46 | the outcome of `Converted`, as a Matrix |
| Matrices.Matrix.Get | src/main/java/org/kelvinho/matrix/Matrix.java:48-50 | the entry iff the indices are in range, else IndexOutOfRange |
| Matrices.Matrix.Clone | src/main/java/org/kelvinho/matrix/Matrix.java:180-188 | fresh matrix of the same shape, class and entries, without memos |
| Matrices.Matrix.Set | src/main/java/org/kelvinho/matrix/Matrix.java:57-61 | IndexOutOfRange iff out of range; otherwise a fresh copy equal to `WithCell`; the receiver is unchanged |
| Matrices.Matrix.Dot | src/main/java/org/kelvinho/matrix/Matrix.java:63-78 | DimensionMismatch with both shapes iff columns ≠ m.rows; otherwise a fresh rows × m.columns Matrix equal to `Product` |
| Matrices.Matrix.ProductArray | src/main/java/org/kelvinho/matrix/Matrix.java:67-77 | the loops build exactly the product grid |
| Matrices.Matrix.ProductRow | src/main/java/org/kelvinho/matrix/Matrix.java:69-75 | row i becomes row i of the product; other rows untouched |
| Matrices.Matrix.RowTimesColumn | src/main/java/org/kelvinho/matrix/Matrix.java:70-73 | the accumulated sum is `DotEntry` |
| Matrices.Matrix.Transpose | src/main/java/org/kelvinho/matrix/Matrix.java:101-112 | columns × rows grid with transposed entries; a second call returns the memoised matrix; other memos untouched |
| Matrices.Matrix.TransposedArray | src/main/java/org/kelvinho/matrix/Matrix.java:105-110 | the loops build exactly the transposed grid |
| Matrices.Matrix.Sum | src/main/java/org/kelvinho/matrix/Matrix.java:114-126 | the total of the entries, memoised; other memos untouched |
| Matrices.Matrix.EntryTotal | src/main/java/org/kelvinho/matrix/Matrix.java:118-123 | the loops add every entry row by row |
| Matrices.Matrix.Equals | src/main/java/org/kelvinho/matrix/Matrix.java:133-151 | true iff the other matrix exists, has the same shape and every entry pair is within the tolerance; a Matrix compares with the float tolerance, an AccurateMatrix also requires the other to be an AccurateMatrix and compares with `doubleLooselyEquals` |
| Matrices.Matrix.Operate | src/main/java/org/kelvinho/matrix/Matrix.java:153-164 | no function: the receiver itself; otherwise a fresh Matrix equal to `Mapped` |
| Matrices.Matrix.MappedArray | src/main/java/org/kelvinho/matrix/Matrix.java:157-163 | the loops apply f to every entry |
| Matrices.Matrix.Operate2 | src/main/java/org/kelvinho/matrix/Matrix.java:166-177 | DimensionMismatch iff the shapes differ; otherwise a fresh Matrix equal to `Zipped` |
| Matrices.Matrix.ZippedArray | src/main/java/org/kelvinho/matrix/Matrix.java:170-176 | the loops combine every entry pair |
| Matrices.Matrix.T | src/main/java/org/kelvinho/matrix/Matrix.java:336-338 | the transpose |
| Matrices.Matrix.Negate | src/main/java/org/kelvinho/matrix/Matrix.java:340-342 | every entry negated |
| Matrices.Matrix.Mul | src/main/java/org/kelvinho/matrix/Matrix.java:348-350 | every entry times the value |
| Matrices.Matrix.Sq | src/main/java/org/kelvinho/matrix/Matrix.java:356-358 | every entry squared |
| Matrices.Matrix.OneMinus | src/main/java/org/kelvinho/matrix/Matrix.java:364-366 | every entry x becomes 1 − x |
| Matrices.Matrix.Abs | src/main/java/org/kelvinho/matrix/Matrix.java:372-374 | every entry's absolute value |
| Matrices.Matrix.Add | src/main/java/org/kelvinho/matrix/Matrix.java:376-378 | fails iff the shapes differ; otherwise the entrywise sum |
| Matrices.Matrix.Minus | src/main/java/org/kelvinho/matrix/Matrix.java:380-382 | fails iff the shapes differ; otherwise the entrywise difference |
| Matrices.Matrix.MulEntries | src/main/java/org/kelvinho/matrix/Matrix.java:384-386 | fails iff the shapes differ; otherwise the entrywise product |
| Matrices.Matrix.AddRowToRow | src/main/java/org/kelvinho/matrix/Matrix.java:190-196 | the outcome of `Elimination.AddRowToRow` as a fresh matrix of the receiver's class |
| Matrices.Matrix.AddRowInPlace | src/main/java/org/kelvinho/matrix/Matrix.java:192-194 | the column loop turns the copy into `RowAdded` |
| Matrices.Matrix.ChangeRow | src/main/java/org/kelvinho/matrix/Matrix.java:198-207 | the outcome of `Elimination.ChangeRow` as a fresh matrix of the receiver's class |
| Matrices.Matrix.RowChangeInPlace | src/main/java/org/kelvinho/matrix/Matrix.java:203-205 | the column loop turns the copy into `RowChanged` |
| Matrices.Matrix.SearchRow | src/main/java/org/kelvinho/matrix/Matrix.java:216-222 | the scan returns `FindPivot` of the row |
| Matrices.Matrix.ForwardPass | src/main/java/org/kelvinho/matrix/Matrix.java:211-233 | the forward loop produces `Forward` with the strict test |
| Matrices.Matrix.Pivot | src/main/java/org/kelvinho/matrix/Matrix.java:223-229 | changeRow by 1/pivot, then the elimination below, gives `PivotStep` |
| Matrices.Matrix.ClearBelow | src/main/java/org/kelvinho/matrix/Matrix.java:227-229 | the loop gives `EliminateBelow` |
| Matrices.Matrix.ClearEntry | src/main/java/org/kelvinho/matrix/Matrix.java:228 | one addRowToRow step gives `RowAdded` |
| Matrices.Matrix.ClearAbove | src/main/java/org/kelvinho/matrix/Matrix.java:245-247 | the loop gives `EliminateAbove` |
| Matrices.Matrix.BackwardPass | src/main/java/org/kelvinho/matrix/Matrix.java:235-249 | the backward loop produces `Backward` with the loose test |
| Matrices.Matrix.BackRow | src/main/java/org/kelvinho/matrix/Matrix.java:236-248 | one pass of the backward loop gives `BackStep` |
| Matrices.Matrix.ReducedRowEchelonForm | src/main/java/org/kelvinho/matrix/Matrix.java:209-251 | fresh matrix of the receiver's class and shape equal to `Rref` under the receiver's zero tests; the receiver is unchanged |
| Matrices.Matrix.PivotLocations | src/main/java/org/kelvinho/matrix/Matrix.java:253-266 | fresh array equal to `Derived.PivotLocations` of the reduced form |
| Matrices.Matrix.PivotColumns | src/main/java/org/kelvinho/matrix/Matrix.java:255-264 | the row loop produces `Derived.PivotLocations` |
| Matrices.Matrix.LeadingColumn | src/main/java/org/kelvinho/matrix/Matrix.java:257-263 | the column loop produces `Leading` |
| Matrices.Matrix.Rank | src/main/java/org/kelvinho/matrix/AccurateMatrix.java:136-148 | `Derived.Rank` of the entries, the same whether or not the memo is set; the AccurateMatrix memo is written only when rank = rows |
| Matrices.Matrix.CountPivots | src/main/java/org/kelvinho/matrix/Matrix.java:269-275 | the count is `Derived.Rank` |
| Matrices.Matrix.LeadingPivots | src/main/java/org/kelvinho/matrix/Matrix.java:270-275 | the loop returns `RankOf` |
| Matrices.Matrix.NullSpace | src/main/java/org/kelvinho/matrix/AccurateMatrix.java:150-174 | the outcome of `Derived.NullSpace` as a fresh matrix of the receiver's class; for AccurateMatrix a set memo is returned unchanged; otherwise, unless the allocation failed (NegativeArraySize), a fresh memo is set even when the fill then fails, holding the partly filled grid `NullSpaceFilled`; a Matrix, or a failed allocation, leaves the memo unset |
| Matrices.Matrix.ComputeNullSpace | src/main/java/org/kelvinho/matrix/AccurateMatrix.java:154-171 | the result matches `Derived.NullSpace`; the allocated matrix holds `NullSpaceFilled`; none is allocated iff NegativeArraySize |
| Matrices.Matrix.NullSpaceMatrix | src/main/java/org/kelvinho/matrix/AccurateMatrix.java:157-171 | NegativeArraySize iff columns < rank; otherwise the fill result of `NullSpaceOf` and the filled grid |
| Matrices.Matrix.FillNullSpace | src/main/java/org/kelvinho/matrix/Matrix.java:283-296 | succeeds iff `NullSpaceOf` succeeds; the array ends as `NullSpaceFilled` |
| Matrices.Matrix.FillPivots | src/main/java/org/kelvinho/matrix/Matrix.java:284-296 | all tasks filled when they fit, otherwise exactly the columns that fit |
| Matrices.Matrix.FillPivot | src/main/java/org/kelvinho/matrix/Matrix.java:286-295 | the free columns of pivot i fill the next columns, or the write past the last column fails |
| Matrices.Matrix.FillColumn | src/main/java/org/kelvinho/matrix/Matrix.java:290-293 | column y gets −R[k][w] for k ≤ i, then 1 at row w |
| Matrices.Matrix.Inverse | src/main/java/org/kelvinho/matrix/Matrix.java:300-327 | the outcome of `Derived.InverseOf` as a fresh matrix of the receiver's class |
| Matrices.Matrix.AugmentedArray | src/main/java/org/kelvinho/matrix/Matrix.java:305-313 | the copy loops build `Augmented` |
| Matrices.Matrix.RightHalfArray | src/main/java/org/kelvinho/matrix/Matrix.java:317-322 | the crop loops build `RightHalf` |
| Matrices.Matrix.NonNullInverse | src/main/java/org/kelvinho/matrix/Matrix.java:329-332 | the outcome of `NonNullInverseOf` |
| Scenarios.AddRowToRowExample | src/test/java/org/kelvinho/matrix/AccurateMatrixTest.java:88-98 | addRowToRow(0, −1, 2) on 1..12 gives last row 8 8 8 8, rows 0 and 1 unchanged |
| Scenarios.FirstPivotStep | src/main/java/org/kelvinho/matrix/AccurateMatrix.java:91-97 | the first pivot step on 1..12 |
| Scenarios.SecondPivotStep | src/main/java/org/kelvinho/matrix/AccurateMatrix.java:91-97 | the second pivot step clears the last row |
| Scenarios.ForwardExample | src/main/java/org/kelvinho/matrix/AccurateMatrix.java:81-101 | the forward pass on 1..12 |
| Scenarios.BackwardExample | src/main/java/org/kelvinho/matrix/AccurateMatrix.java:103-117 | the backward pass on the forward result |
| Scenarios.RrefExample | src/test/java/org/kelvinho/matrix/AccurateMatrixTest.java:100-109 | reduced form of 1..12 is [[1,0,−1,−2],[0,1,2,3],[0,0,0,0]] |
| Scenarios.RankExample | src/test/java/org/kelvinho/matrix/AccurateMatrixTest.java:111-113 | pivot locations 0, 1, −1 and rank 2 |
| Scenarios.CountingTasks | src/main/java/org/kelvinho/matrix/AccurateMatrix.java:159-171 | the null-space loop visits free columns 2 and 3 after pivot 1 |
| Scenarios.CountingNullSpaceGrid | src/main/java/org/kelvinho/matrix/AccurateMatrix.java:164-170 | the filled 4 × 2 grid |
| Scenarios.NullSpaceExample | src/test/java/org/kelvinho/matrix/AccurateMatrixTest.java:125-126 | nullSpace of 1..12 is [[1,2],[−2,−3],[1,0],[0,1]] |
| Scenarios.TwoRowsFirstPivot | src/main/java/org/kelvinho/matrix/AccurateMatrix.java:91-97 | the first pivot step on [[1,2,3],[2,3,4]] |
| Scenarios.TwoRowsRank | src/test/java/org/kelvinho/matrix/AccurateMatrixTest.java:118-121 | forward pivots 0 and 1, rank 2 |
| Scenarios.ZeroTopRowRank | src/main/java/org/kelvinho/matrix/Matrix.java:213-233 | [[0,0],[1,0]] is its own reduced form, with rank 0 |
| Scenarios.LateForward | src/main/java/org/kelvinho/matrix/Matrix.java:213-233 | the forward pass leaves [[0,1],[1,0],[2,0]] unchanged |
| Scenarios.LatePivotStep | src/main/java/org/kelvinho/matrix/Matrix.java:223-229 | its single pivot step changes nothing |
| Scenarios.BackwardPivotRows | src/main/java/org/kelvinho/matrix/Matrix.java:235-249 | after the backward pass every row has a non-zero entry |
| Scenarios.RankBeyondColumns | src/main/java/org/kelvinho/matrix/Matrix.java:278-282 | rank 3 with 2 columns, so nullSpace fails with NegativeArraySize |
| Scenarios.SettledPivotStep | src/main/java/org/kelvinho/matrix/Matrix.java:223-229 | a pivot already 1 with 0s below leaves the grid unchanged |
| Scenarios.SettledBackStep | src/main/java/org/kelvinho/matrix/Matrix.java:236-248 | a row whose pivot column is already 0 above changes nothing |
| Scenarios.SettledBackward | src/main/java/org/kelvinho/matrix/Matrix.java:235-249 | with every row settled, the backward pass changes nothing |
| Scenarios.SwappedAugmentedReduced | src/main/java/org/kelvinho/matrix/Matrix.java:305-314 | [[0,1],[1,0] \| I] is its own reduced form |
| Scenarios.SwappedInverse | src/main/java/org/kelvinho/matrix/Matrix.java:300-327 | inverse of [[0,1],[1,0]] is I, and M·I ≠ I |

## Left out

- `print` methods: console output only.
- `sigmoid` and `sigmoidDerivative`: they call `Math.exp`.
- `oneOver` and `divide`: they rely on IEEE infinities and NaN for division by zero.
- `numberOfRows` and `numberOfColumns`: they are the `rows` and `columns` constants.
- `sameDimension`: the predicate `SameDimension`.
- Float and double rounding: entries are exact reals, so no rounding of `float`/`double` arithmetic and no difference between the two storage widths.
- Integer overflow of `int` sizes: the `2 * rows` width in `inverse` and array lengths are unbounded.
- Thread safety of the memo fields: the model is sequential.
- The zero tests `isStrictZero`, `isZero` and `doubleLooselyEquals` are not defined in the code modelled here.
  - They are parameters of every matrix, required only to count 0 as zero.
  - Every result holds for whatever they are.
- NormalMatrix.java is not part of this model.
- The exception classes' message texts are not modelled; each exception is an `Error` variant.
- Matrices.Matrix.Clone: gives the copy the receiver's class. The inherited `clone()` always builds a float `Matrix`, so AccurateMatrix's `(AccurateMatrix) clone()` casts in its row operations and `rref` could not succeed; the model follows the evidently intended copy of the receiver's class.
- Matrices.Matrix.Set: returns a copy of the receiver's class. The inherited `set` casts the result of that `clone()` to `Matrix`, so for an AccurateMatrix receiver it would return a float `Matrix`; the model follows the same intended copy as `Clone`.
- Matrices.Matrix.Generate: takes `nat` sizes, so the NegativeArraySizeException that `new float[r][c]` and `new double[r][c]` throw for a negative r or c is not modelled; a constructor cannot return an error value.
- Matrices.Matrix.Fill: takes `nat` sizes; the same negative-size exception is not modelled.
- Matrices.Matrix.Zero: takes `nat` sizes; the same negative-size exception is not modelled.
- Matrices.Matrix.Transpose: the recursive `return transpose()` after the fill is modelled as returning the memo directly.
- Matrices.Matrix.Sum: the same applies to its recursive `return sum()`.
- Matrices.Matrix.NullSpace: the memo is written after the fill rather than at allocation; the memo ends up holding the same partly filled matrix.
- General linear-algebra theorems are not claimed, because the code does not deliver them:
  - true reduced row echelon form;
  - M·nullSpace = 0;
  - M·inverse = I;
  - rank ≤ columns.
