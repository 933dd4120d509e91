/** What the library derives from the reduced row echelon form: the pivot
    location of each row, the rank, the null-space basis and the inverse
    through the augmented matrix [M | I], each as the source computes it. */
module Derived {
  import opened Failures
  import opened Grids
  import opened Elimination

  // ---------------------------------------------------------------------
  // Pivot locations and rank

  /** Pivot location of one row: the first column whose entry the test
      does not count as zero, or -1 when there is none. */
  function Leading(row: seq<real>, zero: real -> bool): (c: int)
    ensures -1 <= c < |row|
    ensures c == -1 <==> forall w | 0 <= w < |row| :: zero(row[w])
    ensures c != -1 ==> !zero(row[c]) && forall w | 0 <= w < c :: zero(row[w])
  {
    match FindPivot(row, 0, zero)
    case None => -1
    case Some(p) => p
  }

  /** `pivotLocations()`: the pivot location of every row of a reduced grid. */
  function PivotLocations(R: Grid, zero: real -> bool): (piv: seq<int>)
    ensures |piv| == |R|
    ensures forall i | 0 <= i < |R| :: -1 <= piv[i] < |R[i]|
  {
    seq(|R|, i requires 0 <= i < |R| => Leading(R[i], zero))
  }

  /** The index of the first -1 in piv[from..], or |piv| when there is none. */
  function FirstAbsentFrom(piv: seq<int>, from: nat): (k: nat)
    requires from <= |piv|
    ensures from <= k <= |piv|
    ensures forall i | from <= i < k :: piv[i] != -1
    ensures k < |piv| ==> piv[k] == -1
    decreases |piv| - from
  {
    if from == |piv| then |piv|
    else if piv[from] == -1 then from
    else FirstAbsentFrom(piv, from + 1)
  }

  /** The loop of `rank()`: the index of the first row without a pivot,
      or the number of rows when every row has one. */
  function RankOf(piv: seq<int>): (k: nat)
    ensures k <= |piv|
    ensures forall i | 0 <= i < k :: piv[i] != -1
    ensures k < |piv| ==> piv[k] == -1
  {
    FirstAbsentFrom(piv, 0)
  }

  /** The count `RankOf` returns is the only one with its two properties. */
  lemma RankOfUnique(piv: seq<int>, k: nat)
    requires k <= |piv|
    requires forall i | 0 <= i < k :: piv[i] != -1
    requires k < |piv| ==> piv[k] == -1
    ensures RankOf(piv) == k
  {
  }

  /** `rank()` of a grid: pivot locations of its reduced form, by the
      strict test, counted up to the first row without one. */
  function Rank(g: Grid, cols: nat, policy: ZeroPolicy): (k: nat)
    requires Rect(g, cols) && policy.strict(0.0)
    ensures k <= |g|
  {
    RankOf(PivotLocations(Rref(g, cols, policy), policy.strict))
  }

  /** Every row the forward pass normalised counts towards the rank when
      the strict test does not call 1 zero. */
  lemma RankCountsForwardPivots(g: Grid, cols: nat, policy: ZeroPolicy)
    requires Rect(g, cols) && policy.strict(0.0) && !policy.strict(1.0)
    ensures |ForwardPivots(g, cols, policy)| <= Rank(g, cols, policy)
  {
    RrefFacts(g, cols, policy);
    var R := Rref(g, cols, policy);
    var fp := ForwardPivots(g, cols, policy);
    var piv := PivotLocations(R, policy.strict);
    forall t | 0 <= t < |fp|
      ensures R[t][fp[t]] == 1.0
    {
      assert PivotRowNormalised(R, 0, fp, t);
    }
  }

  // ---------------------------------------------------------------------
  // Null space

  /** Bound of the pivot loop of `nullSpace`: the rank, or 1 when it is 0. */
  function PivotBound(rank: nat): (b: nat)
    ensures b >= 1 && b >= rank
  {
    if rank == 0 then 1 else rank
  }

  /** Every pivot location is -1 or a column. */
  predicate PivotsInRange(piv: seq<int>, cols: nat)
  {
    forall i | 0 <= i < |piv| :: -1 <= piv[i] < cols
  }

  /** `initialDependency` for pivot i: the column after the pivot. */
  function FreeStart(piv: seq<int>, i: nat): int
    requires i < |piv|
  {
    piv[i] + 1
  }

  /** `endDependency` for pivot i: the next row's pivot column, or the
      column count when there is no next row or it has no pivot. */
  function FreeEnd(piv: seq<int>, cols: nat, i: nat): int
  {
    if i + 1 < |piv| && piv[i + 1] != -1 then piv[i + 1] else cols
  }

  /** One pass of the inner loop of `nullSpace`: the column `free` is
      treated as dependent on the pivots 0..row. */
  datatype Task = Task(row: nat, free: nat)

  /** The free columns visited for pivot i, in order. */
  function RowTasks(piv: seq<int>, cols: nat, i: nat): (ts: seq<Task>)
    requires i < |piv| && PivotsInRange(piv, cols)
    ensures |ts| == if FreeStart(piv, i) < FreeEnd(piv, cols, i) then FreeEnd(piv, cols, i) - FreeStart(piv, i) else 0
    ensures forall y | 0 <= y < |ts| :: ts[y] == Task(i, FreeStart(piv, i) + y) && ts[y].free < cols
  {
    var s := FreeStart(piv, i);
    var e := FreeEnd(piv, cols, i);
    if e <= s then [] else seq(e - s, y requires 0 <= y < e - s => Task(i, s + y))
  }

  /** The columns `nullSpace` fills, in order, for pivots 0..n-1:
      column y of the result is built from `Tasks(...)[y]`. */
  function Tasks(piv: seq<int>, cols: nat, n: nat): (ts: seq<Task>)
    requires n <= |piv| && PivotsInRange(piv, cols)
    ensures forall y | 0 <= y < |ts| :: ts[y].row < n && ts[y].free < cols
    decreases n
  {
    if n == 0 then [] else Tasks(piv, cols, n - 1) + RowTasks(piv, cols, n - 1)
  }

  /** Entry x of the column built for task t: 1 at the free column itself,
      the negated reduced entry in rows 0..t.row, 0 elsewhere. */
  function TaskEntry(R: Grid, cols: nat, t: Task, x: nat): real
    requires Rect(R, cols) && t.row < |R| && t.free < cols
  {
    if x == t.free then 1.0 else if x <= t.row then -R[x][t.free] else 0.0
  }

  /** The cols-by-width grid whose first |ts| columns are built from the
      tasks, the rest left at 0. */
  function NullSpaceGrid(R: Grid, cols: nat, ts: seq<Task>, width: nat): (n: Grid)
    requires Rect(R, cols) && forall y | 0 <= y < |ts| :: ts[y].row < |R| && ts[y].free < cols
    ensures |n| == cols && Rect(n, width)
    ensures forall x, y | 0 <= x < cols && 0 <= y < width ::
      n[x][y] == if y < |ts| then TaskEntry(R, cols, ts[y], x) else 0.0
  {
    seq(cols, x requires 0 <= x < cols =>
      seq(width, y requires 0 <= y < width => if y < |ts| then TaskEntry(R, cols, ts[y], x) else 0.0))
  }

  /** `nullSpace()` from the reduced grid, its pivot locations and the rank:
      a negative width fails the allocation, a grid with no rows fails the
      read of the first pivot location, and more free columns than the
      width fail the write past the last column. Otherwise column y of the
      columns-by-(columns - rank) result has 1 at its free column and the
      negated reduced entries above. */
  function NullSpaceOf(R: Grid, cols: nat, piv: seq<int>, rank: nat): (r: Result<Grid>)
    requires Rect(R, cols) && |piv| == |R| && PivotsInRange(piv, cols) && rank <= |piv|
    ensures r.Err? <==> cols < rank || |piv| == 0 || |Tasks(piv, cols, PivotBound(rank))| > cols - rank
    ensures r.Err? ==> r.error == (if cols < rank then NegativeArraySize else IndexOutOfRange)
    ensures r.Ok? ==> |r.value| == cols && Rect(r.value, cols - rank)
    ensures r.Ok? ==>
      var ts, n := Tasks(piv, cols, PivotBound(rank)), r.value;
      && (forall y | 0 <= y < |ts| ::
            && n[ts[y].free][y] == 1.0
            && (forall x | 0 <= x <= ts[y].row && x != ts[y].free :: n[x][y] == -R[x][ts[y].free])
            && (forall x | ts[y].row < x < cols && x != ts[y].free :: n[x][y] == 0.0))
      && (forall x, y | 0 <= x < cols && |ts| <= y < cols - rank :: n[x][y] == 0.0)
  {
    if cols < rank then Err(NegativeArraySize)
    else if |piv| == 0 then Err(IndexOutOfRange)
    else
      var ts := Tasks(piv, cols, PivotBound(rank));
      if |ts| > cols - rank then Err(IndexOutOfRange)
      else Ok(NullSpaceGrid(R, cols, ts, cols - rank))
  }

  /** What the cache of the memoised `nullSpace()` holds once the call has
      allocated it: the grid filled as far as the loop got, that is, all
      zeros when the read of the first pivot location failed, and the
      columns that fit when a write went past the last column. */
  function NullSpaceFilled(R: Grid, cols: nat, piv: seq<int>, rank: nat): (n: Grid)
    requires Rect(R, cols) && |piv| == |R| && PivotsInRange(piv, cols) && rank <= cols && rank <= |piv|
    ensures |n| == cols && Rect(n, cols - rank)
    ensures NullSpaceOf(R, cols, piv, rank).Ok? ==> n == NullSpaceOf(R, cols, piv, rank).value
    ensures |piv| == 0 ==> n == Filled(cols, cols - rank, 0.0)
  {
    if |piv| == 0 then
      GridExt(NullSpaceGrid(R, cols, [], cols - rank), Filled(cols, cols - rank, 0.0), cols - rank);
      NullSpaceGrid(R, cols, [], cols - rank)
    else
      var ts := Tasks(piv, cols, PivotBound(rank));
      if |ts| > cols - rank then NullSpaceGrid(R, cols, ts[..cols - rank], cols - rank)
      else NullSpaceGrid(R, cols, ts, cols - rank)
  }

  /** A grid whose first n columns are built from the first n tasks and
      whose other columns are 0, where n is the number of tasks or the
      width, whichever is smaller, is the filled null-space grid; the
      null space succeeds exactly when every task got a column. */
  lemma NullSpaceFilledByTasks(R: Grid, cols: nat, piv: seq<int>, rank: nat, A: Grid, n: nat)
    requires Rect(R, cols) && |piv| == |R| && |piv| > 0 && PivotsInRange(piv, cols)
    requires rank <= cols && rank <= |piv|
    requires |A| == cols && Rect(A, cols - rank)
    requires n == if |Tasks(piv, cols, PivotBound(rank))| <= cols - rank then |Tasks(piv, cols, PivotBound(rank))| else cols - rank
    requires forall x, y | 0 <= x < cols && 0 <= y < cols - rank ::
      A[x][y] == if y < n then TaskEntry(R, cols, Tasks(piv, cols, PivotBound(rank))[y], x) else 0.0
    ensures A == NullSpaceFilled(R, cols, piv, rank)
    ensures NullSpaceOf(R, cols, piv, rank).Ok? <==> n == |Tasks(piv, cols, PivotBound(rank))|
  {
    var ts := Tasks(piv, cols, PivotBound(rank));
    var used := if |ts| > cols - rank then ts[..cols - rank] else ts;
    assert NullSpaceFilled(R, cols, piv, rank) == NullSpaceGrid(R, cols, used, cols - rank);
    var F := NullSpaceGrid(R, cols, used, cols - rank);
    forall x, y | 0 <= x < cols && 0 <= y < cols - rank
      ensures A[x][y] == F[x][y]
    {
      if y < |used| {
        assert used[y] == ts[y];
      }
    }
    GridExt(A, F, cols - rank);
  }

  /** The tasks for fewer pivots are a prefix of the tasks for more: task
      y of the shorter list is task y of the longer one. */
  lemma {:induction false} TasksPrefix(piv: seq<int>, cols: nat, m: nat, n: nat, y: nat)
    requires m <= n <= |piv| && PivotsInRange(piv, cols)
    requires y < |Tasks(piv, cols, m)|
    ensures y < |Tasks(piv, cols, n)| && Tasks(piv, cols, n)[y] == Tasks(piv, cols, m)[y]
    decreases n - m
  {
    if m < n {
      var a, b := Tasks(piv, cols, m), Tasks(piv, cols, m + 1);
      assert b == a + RowTasks(piv, cols, m);
      assert b[y] == a[y];
      TasksPrefix(piv, cols, m + 1, n, y);
    }
  }

  /** The free column w of pivot i is task number k of the task list for
      any bound above i, and is a column. */
  lemma TaskNumbered(piv: seq<int>, cols: nat, i: nat, n: nat, w: int, k: nat, all: seq<Task>)
    requires i < n <= |piv| && PivotsInRange(piv, cols) && all == Tasks(piv, cols, n)
    requires FreeStart(piv, i) <= w < FreeEnd(piv, cols, i)
    requires k == |Tasks(piv, cols, i)| + (w - FreeStart(piv, i))
    requires n == 1 || n <= cols
    ensures k < |all| && all[k] == Task(i, w) && i < cols
  {
    TaskInRow(piv, cols, i, w, k);
    TasksPrefix(piv, cols, i + 1, n, k);
    assert 0 <= w < cols;
  }

  /** The free column w of pivot i is task number k once pivot i's free
      columns are appended. */
  lemma TaskInRow(piv: seq<int>, cols: nat, i: nat, w: int, k: nat)
    requires i < |piv| && PivotsInRange(piv, cols)
    requires FreeStart(piv, i) <= w < FreeEnd(piv, cols, i)
    requires k == |Tasks(piv, cols, i)| + (w - FreeStart(piv, i))
    ensures k < |Tasks(piv, cols, i + 1)| && Tasks(piv, cols, i + 1)[k] == Task(i, w)
  {
    var before, row := Tasks(piv, cols, i), RowTasks(piv, cols, i);
    var upto := Tasks(piv, cols, i + 1);
    assert upto == before + row;
    var d := w - FreeStart(piv, i);
    assert row[d] == Task(i, w);
    assert upto[k] == row[d];
  }

  /** Once the visit of pivot i's free columns has stopped at column w
      (the end, or the start when the range is empty), the running count
      is the number of tasks for pivots 0..i, which is at most the count
      for any bound above. */
  lemma RowDone(piv: seq<int>, cols: nat, i: nat, after: nat, n: nat, w: int, count: nat)
    requires i < n <= |piv| && PivotsInRange(piv, cols) && after == i + 1
    requires FreeStart(piv, i) <= w && (w == FreeStart(piv, i) || w <= FreeEnd(piv, cols, i))
    requires FreeEnd(piv, cols, i) <= w
    requires count == |Tasks(piv, cols, i)| + (w - FreeStart(piv, i))
    ensures count == |Tasks(piv, cols, after)| <= |Tasks(piv, cols, n)|
  {
    var before, row := Tasks(piv, cols, i), RowTasks(piv, cols, i);
    var upto := Tasks(piv, cols, after);
    assert upto == before + row;
    TasksGrow(piv, cols, after, n);
  }

  /** The task list only grows with the number of pivots. */
  lemma TasksGrow(piv: seq<int>, cols: nat, m: nat, n: nat)
    requires m <= n <= |piv| && PivotsInRange(piv, cols)
    ensures |Tasks(piv, cols, m)| <= |Tasks(piv, cols, n)|
  {
    var few := |Tasks(piv, cols, m)|;
    if few > 0 {
      TasksPrefix(piv, cols, m, n, few - 1);
    }
  }

  /** The null space of a grid, as `nullSpace()` computes it. */
  function NullSpace(g: Grid, cols: nat, policy: ZeroPolicy): (r: Result<Grid>)
    requires Rect(g, cols) && policy.strict(0.0)
    ensures r == Err(NegativeArraySize) <==> cols < Rank(g, cols, policy)
    ensures |g| == 0 ==> r.Err?
    ensures r.Ok? ==> |r.value| == cols && Rect(r.value, cols - Rank(g, cols, policy))
  {
    var R := Rref(g, cols, policy);
    RrefFacts(g, cols, policy);
    NullSpaceOf(R, cols, PivotLocations(R, policy.strict), Rank(g, cols, policy))
  }

  /** The pivot locations of the first `rank` rows strictly increase. */
  predicate IncreasingPrefix(piv: seq<int>, rank: nat)
    requires rank <= |piv|
  {
    forall i, j | 0 <= i < j < rank :: piv[i] < piv[j]
  }

  /** Number of tasks for pivots 0..n-1 when the pivot locations increase:
      the free columns between consecutive pivots telescope. */
  lemma {:induction false} TaskCount(piv: seq<int>, cols: nat, rank: nat, n: nat)
    requires rank <= |piv| && PivotsInRange(piv, cols) && IncreasingPrefix(piv, rank)
    requires rank == RankOf(piv)
    requires 1 <= n <= rank
    ensures |Tasks(piv, cols, n)| == (if n < rank then piv[n] else cols) - piv[0] - n
  {
    var i := n - 1;
    assert FreeStart(piv, i) == piv[i] + 1;
    if n < rank {
      assert FreeEnd(piv, cols, i) == piv[n];
    } else {
      assert FreeEnd(piv, cols, i) == cols by {
        if i + 1 < |piv| {
          assert piv[i + 1] == -1;
        }
      }
    }
    if n > 1 {
      TaskCount(piv, cols, rank, n - 1);
    }
  }

  /** When the grid has rows and the pivot locations of the first `rank`
      rows increase, `nullSpace` succeeds. With rank > 0 it fills exactly
      columns - rank - piv[0] columns: the free columns left of the first
      pivot get none. */
  lemma NullSpaceSucceeds(R: Grid, cols: nat, piv: seq<int>, rank: nat)
    requires Rect(R, cols) && |piv| == |R| && |piv| > 0 && PivotsInRange(piv, cols)
    requires rank == RankOf(piv) && IncreasingPrefix(piv, rank)
    ensures NullSpaceOf(R, cols, piv, rank).Ok?
    ensures rank > 0 ==> |Tasks(piv, cols, rank)| == cols - rank - piv[0]
  {
    if rank > 0 {
      TaskCount(piv, cols, rank, rank);
      PivotAtOrRightOfRow(piv, cols, rank, rank - 1);
    } else {
      var ts := Tasks(piv, cols, 1);
      assert ts == RowTasks(piv, cols, 0);
      assert piv[0] == -1;
    }
  }

  /** Strictly increasing pivot columns: pivot k sits at column k or later. */
  lemma {:induction false} PivotAtOrRightOfRow(piv: seq<int>, cols: nat, rank: nat, k: nat)
    requires rank <= |piv| && PivotsInRange(piv, cols) && IncreasingPrefix(piv, rank)
    requires forall i | 0 <= i < rank :: piv[i] != -1
    requires k < rank
    ensures k <= piv[k]
  {
    if k > 0 {
      PivotAtOrRightOfRow(piv, cols, rank, k - 1);
    }
  }

  // ---------------------------------------------------------------------
  // Inverse

  /** The n-by-2n grid [g | I] that `inverse()` reduces. */
  function Augmented(g: Grid, n: nat): (a: Grid)
    requires |g| == n && Rect(g, n)
    ensures |a| == n && Rect(a, 2 * n)
    ensures forall i, j | 0 <= i < n && 0 <= j < n :: a[i][j] == g[i][j]
    ensures forall i, j | 0 <= i < n && n <= j < 2 * n :: a[i][j] == if j - n == i then 1.0 else 0.0
  {
    seq(n, i requires 0 <= i < n => g[i] + seq(n, j requires 0 <= j < n => if i == j then 1.0 else 0.0))
  }

  /** The right n columns of an n-by-2n grid (the cropped answer). */
  function RightHalf(R: Grid, n: nat): (h: Grid)
    requires |R| == n && Rect(R, 2 * n)
    ensures |h| == n && Rect(h, n)
    ensures forall i, j | 0 <= i < n && 0 <= j < n :: h[i][j] == R[i][n + j]
  {
    seq(n, i requires 0 <= i < n => R[i][n..])
  }

  /** The singularity test of `inverse()`: no pivot among the first n
      entries of the last row of the reduced [M | I], that is, all of them
      zero by the test (vacuously so when there are no rows). */
  predicate LastRowVanishes(R: Grid, n: nat, zero: real -> bool)
    requires |R| == n && Rect(R, 2 * n)
    ensures LastRowVanishes(R, n, zero) <==>
      n == 0 || var last := R[n - 1]; forall j | 0 <= j < n :: zero(last[j])
  {
    n == 0 || FindPivot(R[n - 1][..n], 0, zero).None?
  }

  /** `inverse()`: a non-square matrix fails; otherwise the reduced
      [M | I] gives no inverse when its last row vanishes on the left, and
      its right half when it does not. */
  function InverseOf(g: Grid, rows: nat, cols: nat, policy: ZeroPolicy): (r: Result<Option<Grid>>)
    requires |g| == rows && Rect(g, cols) && policy.strict(0.0)
    ensures r.Err? <==> rows != cols
    ensures r.Err? ==> r.error == NotInvertible
    ensures r.Ok? && r.value.Some? ==> |r.value.value| == rows && Rect(r.value.value, rows) && rows > 0
    ensures r.Ok? ==>
      (r.value.Some? <==> !LastRowVanishes(Rref(Augmented(g, rows), 2 * rows, policy), rows, policy.loose))
    ensures r.Ok? && r.value.Some? ==>
      forall i, j | 0 <= i < rows && 0 <= j < rows ::
        r.value.value[i][j] == Rref(Augmented(g, rows), 2 * rows, policy)[i][rows + j]
  {
    if rows != cols then Err(NotInvertible)
    else
      var a := Augmented(g, rows);
      RrefFacts(a, 2 * rows, policy);
      var R := Rref(a, 2 * rows, policy);
      if LastRowVanishes(R, rows, policy.loose) then Ok(None) else Ok(Some(RightHalf(R, rows)))
  }

  /** The inverse read off a reduced [M | I]. */
  lemma InverseFromReduced(g: Grid, n: nat, policy: ZeroPolicy, R: Grid)
    requires |g| == n && Rect(g, n) && policy.strict(0.0)
    requires R == Rref(Augmented(g, n), 2 * n, policy)
    ensures |R| == n && Rect(R, 2 * n)
    ensures InverseOf(g, n, n, policy) ==
      if LastRowVanishes(R, n, policy.loose) then Ok(None) else Ok(Some(RightHalf(R, n)))
  {
    RrefFacts(Augmented(g, n), 2 * n, policy);
  }

  /** `nonNullInverse()`: the inverse, with a missing one turned into a failure. */
  function NonNullInverseOf(g: Grid, rows: nat, cols: nat, policy: ZeroPolicy): (r: Result<Grid>)
    requires |g| == rows && Rect(g, cols) && policy.strict(0.0)
    ensures r.Err? <==> InverseOf(g, rows, cols, policy).Err? || InverseOf(g, rows, cols, policy).value.None?
    ensures r.Err? && rows == cols ==> r.error == MissingValue
    ensures r.Ok? ==> r.value == InverseOf(g, rows, cols, policy).value.value
  {
    match InverseOf(g, rows, cols, policy)
    case Err(e) => Err(e)
    case Ok(None) => Err(MissingValue)
    case Ok(Some(m)) => Ok(m)
  }

  // ---------------------------------------------------------------------
  // Grids whose left block is the identity

  /** The tests tell 0 from 1. */
  predicate TellsOneFromZero(zero: real -> bool)
  {
    zero(0.0) && !zero(1.0)
  }

  /** An n-row grid whose first n columns hold the identity. */
  predicate IdentityBlock(g: Grid, n: nat, cols: nat)
  {
    |g| == n && n <= cols && Rect(g, cols)
    && forall i, j | 0 <= i < n && 0 <= j < n :: g[i][j] == if i == j then 1.0 else 0.0
  }

  /** In such a grid the pivot of row i, searched from any column up to i, is i. */
  lemma IdentityRowPivot(g: Grid, n: nat, cols: nat, i: nat, from: nat, zero: real -> bool)
    requires IdentityBlock(g, n, cols) && TellsOneFromZero(zero) && from <= i < n
    ensures FindPivot(g[i], from, zero) == Some(i)
  {
    assert forall w | from <= w < i :: g[i][w] == 0.0;
    FindPivotAt(g[i], from, i, zero);
  }

  /** A pivot step at (i, i) leaves such a grid as it is. */
  lemma IdentityPivotStep(g: Grid, n: nat, cols: nat, i: nat)
    requires IdentityBlock(g, n, cols) && i < n
    ensures PivotStep(g, cols, i, i) == g
  {
    var s := RowScaled(g, i, 1.0 / g[i][i]);
    assert s == g by {
      assert s[i] == g[i];
    }
    var h := PivotStep(g, cols, i, i);
    EliminateBelowEntries(s, cols, i, i, i + 1);
    forall v, c | 0 <= v < n && 0 <= c < cols ensures h[v][c] == g[v][c] {
      if v > i {
        assert h[v][c] == g[v][c] + g[i][c] * -g[v][i];
      }
    }
    GridExt(h, g, cols);
  }

  /** A backward step at row i leaves such a grid as it is. */
  lemma IdentityBackStep(g: Grid, n: nat, cols: nat, i: nat, zero: real -> bool)
    requires IdentityBlock(g, n, cols) && TellsOneFromZero(zero) && i < n
    ensures BackStep(g, cols, i, zero) == g
  {
    IdentityRowPivot(g, n, cols, i, 0, zero);
    var h := BackStep(g, cols, i, zero);
    BackStepEntries(g, cols, i, zero);
    forall v, c | 0 <= v < i && 0 <= c < cols ensures h[v][c] == g[v][c] {
      assert h[v][c] == g[v][c] + g[i][c] * -g[v][i];
      assert g[v][i] == 0.0;
    }
    GridExt(h, g, cols);
  }

  /** The columns lo, lo + 1, ..., hi - 1. */
  function Span(lo: nat, hi: nat): (s: seq<nat>)
    ensures |s| == if lo <= hi then hi - lo else 0
    ensures forall k | 0 <= k < |s| :: s[k] == lo + k
    decreases hi - lo
  {
    if hi <= lo then [] else [lo] + Span(lo + 1, hi)
  }

  /** The forward pass leaves such a grid as it is, taking pivot i in row i. */
  lemma {:induction false} ForwardOnIdentityBlock(g: Grid, n: nat, cols: nat, i: nat, from: nat, zero: real -> bool)
    requires IdentityBlock(g, n, cols) && TellsOneFromZero(zero) && from <= i <= n
    ensures Forward(g, cols, i, from, zero) == Pass(g, Span(i, n))
    decreases n - i
  {
    if i < n {
      IdentityForwardStep(g, n, cols, i, from, zero);
      ForwardOnIdentityBlock(g, n, cols, i + 1, i, zero);
    }
  }

  /** One step of the forward pass over such a grid takes pivot i in row
      i and changes nothing. */
  lemma IdentityForwardStep(g: Grid, n: nat, cols: nat, i: nat, from: nat, zero: real -> bool)
    requires IdentityBlock(g, n, cols) && TellsOneFromZero(zero) && from <= i < n
    ensures var rest := Forward(g, cols, i + 1, i, zero);
      Forward(g, cols, i, from, zero) == Pass(rest.grid, [i] + rest.pivots)
  {
    IdentityRowPivot(g, n, cols, i, from, zero);
    IdentityPivotStep(g, n, cols, i);
  }

  /** The backward pass leaves such a grid as it is. */
  lemma {:induction false} BackwardOnIdentityBlock(g: Grid, n: nat, cols: nat, i: int, zero: real -> bool)
    requires IdentityBlock(g, n, cols) && TellsOneFromZero(zero) && -1 <= i < n
    ensures Backward(g, cols, i, zero) == g
    decreases i + 1
  {
    if i >= 0 {
      IdentityBackStep(g, n, cols, i, zero);
      BackwardOnIdentityBlock(g, n, cols, i - 1, zero);
    }
  }

  /** A grid whose left block is the identity is already reduced, and
      every row has its pivot on the diagonal. */
  lemma RrefOfIdentityBlock(g: Grid, n: nat, cols: nat, policy: ZeroPolicy)
    requires IdentityBlock(g, n, cols) && TellsOneFromZero(policy.strict) && TellsOneFromZero(policy.loose)
    ensures Rref(g, cols, policy) == g
    ensures ForwardPivots(g, cols, policy) == seq(n, k => k)
    ensures Rank(g, cols, policy) == n
  {
    ForwardOnIdentityBlock(g, n, cols, 0, 0, policy.strict);
    assert Span(0, n) == seq(n, k => k);
    BackwardOnIdentityBlock(g, n, cols, n - 1, policy.loose);
    var piv := PivotLocations(g, policy.strict);
    forall i | 0 <= i < n ensures piv[i] != -1 {
      IdentityRowPivot(g, n, cols, i, 0, policy.strict);
    }
    RankOfUnique(piv, n);
  }

  /** The identity has rank n and is its own inverse (n >= 1). */
  lemma IdentityFacts(n: nat, policy: ZeroPolicy)
    requires TellsOneFromZero(policy.strict) && TellsOneFromZero(policy.loose)
    ensures Rank(Identity(n), n, policy) == n
    ensures n > 0 ==> InverseOf(Identity(n), n, n, policy) == Ok(Some(Identity(n)))
  {
    RrefOfIdentityBlock(Identity(n), n, n, policy);
    if n > 0 {
      IdentityInverse(n, policy);
    }
  }

  /** The identity augmented with itself is already reduced, so its right
      half, the identity, is the inverse. */
  lemma IdentityInverse(n: nat, policy: ZeroPolicy)
    requires TellsOneFromZero(policy.strict) && TellsOneFromZero(policy.loose) && n > 0
    ensures InverseOf(Identity(n), n, n, policy) == Ok(Some(Identity(n)))
  {
    var a := Augmented(Identity(n), n);
    IdentityAugmentedReduced(n, policy);
    IdentityAugmentedRightHalf(n);
    var R := Rref(a, 2 * n, policy);
    assert R == a;
  }

  /** The identity augmented with itself is reduced, and its last row does
      not vanish. */
  lemma IdentityAugmentedReduced(n: nat, policy: ZeroPolicy)
    requires TellsOneFromZero(policy.strict) && TellsOneFromZero(policy.loose) && n > 0
    ensures Rref(Augmented(Identity(n), n), 2 * n, policy) == Augmented(Identity(n), n)
    ensures !LastRowVanishes(Augmented(Identity(n), n), n, policy.loose)
  {
    var a := Augmented(Identity(n), n);
    RrefOfIdentityBlock(a, n, 2 * n, policy);
    assert a[n - 1][n - 1] == 1.0;
  }

  /** The right half of the identity augmented with itself is the identity. */
  lemma IdentityAugmentedRightHalf(n: nat)
    ensures RightHalf(Augmented(Identity(n), n), n) == Identity(n)
  {
    GridExt(RightHalf(Augmented(Identity(n), n), n), Identity(n), n);
  }

  /** With every pivot on the diagonal of an n-column grid there are no
      free columns. */
  lemma {:induction false} DiagonalTasksEmpty(n: nat, m: nat)
    requires m <= n
    ensures Tasks(seq(n, k => k), n, m) == []
  {
    if m > 0 {
      DiagonalTasksEmpty(n, m - 1);
      var piv := seq(n, k => k);
      assert FreeStart(piv, m - 1) == m;
      assert FreeEnd(piv, n, m - 1) == m;
    }
  }

  /** The pivot locations of a grid whose left block is the identity lie
      on the diagonal. */
  lemma IdentityBlockPivots(g: Grid, n: nat, cols: nat, zero: real -> bool)
    requires IdentityBlock(g, n, cols) && TellsOneFromZero(zero)
    ensures PivotLocations(g, zero) == seq(n, k => k)
  {
    var piv := PivotLocations(g, zero);
    forall i | 0 <= i < n ensures piv[i] == i {
      IdentityRowPivot(g, n, cols, i, 0, zero);
    }
  }

  /** The null space of the n-by-n identity is n-by-0. */
  lemma NullSpaceOfIdentity(n: nat, policy: ZeroPolicy)
    requires TellsOneFromZero(policy.strict) && TellsOneFromZero(policy.loose)
    ensures n > 0 ==> NullSpace(Identity(n), n, policy) == Ok(seq(n, _ => []))
  {
    if n > 0 {
      var g := Identity(n);
      RrefOfIdentityBlock(g, n, n, policy);
      IdentityBlockPivots(g, n, n, policy.strict);
      var piv := PivotLocations(g, policy.strict);
      assert NullSpace(g, n, policy) == NullSpaceOf(g, n, piv, n);
      DiagonalNullSpaceOf(n);
    }
  }

  /** With the pivots 0..n-1 of the identity and rank n, no column is free:
      the null-space grid is n rows of width 0. */
  lemma DiagonalNullSpaceOf(n: nat)
    requires n > 0
    ensures PivotsInRange(seq(n, k => k), n)
    ensures NullSpaceOf(Identity(n), n, seq(n, k => k), n) == Ok(seq(n, _ => []))
  {
    DiagonalTasksEmpty(n, n);
    var e := NullSpaceGrid(Identity(n), n, [], 0);
    assert e == seq(n, _ => []) by {
      assert forall x | 0 <= x < n :: e[x] == [];
    }
  }

  // ---------------------------------------------------------------------
  // The zero grid

  /** The backward pass leaves a grid of zeros as it is. */
  lemma {:induction false} BackwardOnZeros(r: nat, c: nat, i: int, zero: real -> bool)
    requires zero(0.0) && -1 <= i < r
    ensures Backward(Filled(r, c, 0.0), c, i, zero) == Filled(r, c, 0.0)
    decreases i + 1
  {
    if i >= 0 {
      assert FindPivot(Filled(r, c, 0.0)[i], 0, zero).None?;
      BackwardOnZeros(r, c, i - 1, zero);
    }
  }

  /** A grid of zeros is its own reduced form and has rank 0. */
  lemma ZeroGridReduced(r: nat, c: nat, policy: ZeroPolicy)
    requires policy.BothCountZero()
    ensures Rref(Filled(r, c, 0.0), c, policy) == Filled(r, c, 0.0)
    ensures Rank(Filled(r, c, 0.0), c, policy) == 0
  {
    var g := Filled(r, c, 0.0);
    if r > 0 {
      assert FindPivot(g[0], 0, policy.strict).None?;
    }
    assert Forward(g, c, 0, 0, policy.strict) == Pass(g, []);
    BackwardOnZeros(r, c, r - 1, policy.loose);
    if r > 0 {
      assert PivotLocations(g, policy.strict)[0] == -1;
    }
  }

  /** With at least one row, the null space of a grid of zeros is the
      c-by-c identity: every column is free. */
  lemma ZeroGridNullSpace(r: nat, c: nat, policy: ZeroPolicy)
    requires policy.BothCountZero() && r > 0
    ensures NullSpace(Filled(r, c, 0.0), c, policy) == Ok(Identity(c))
  {
    var g := Filled(r, c, 0.0);
    ZeroGridReduced(r, c, policy);
    var piv := PivotLocations(g, policy.strict);
    forall i | 0 <= i < r
      ensures piv[i] == -1
    {
      assert FindPivot(g[i], 0, policy.strict).None?;
    }
    ZeroPivotsNullSpace(g, r, c, piv);
  }

  /** When no row has a pivot, every column of a grid of zeros is a free
      column of pivot 0, so the null space is the identity. */
  lemma ZeroPivotsNullSpace(g: Grid, r: nat, c: nat, piv: seq<int>)
    requires g == Filled(r, c, 0.0) && r > 0 && |piv| == r
    requires forall i | 0 <= i < r :: piv[i] == -1
    ensures NullSpaceOf(g, c, piv, 0) == Ok(Identity(c))
  {
    assert FreeEnd(piv, c, 0) == c;
    var ts := Tasks(piv, c, 1);
    assert ts == RowTasks(piv, c, 0);
    var n := NullSpaceGrid(g, c, ts, c);
    forall x, y | 0 <= x < c && 0 <= y < c
      ensures n[x][y] == Identity(c)[x][y]
    {
      assert ts[y] == Task(0, y);
    }
    GridExt(n, Identity(c), c);
  }
}
