/** The elimination engine on grid values: the two row operations, the
    forward pass and the backward pass of `reducedRowEchelonForm`, written
    step for step as the source's loops run them (no row swaps, a pivot
    search that never moves left and stops at the first row without a
    pivot), and what those passes guarantee. */
module Elimination {
  import opened Failures
  import opened Grids

  /** The zero tests one elimination uses: `strict` in the forward pivot
      search and in pivot extraction, `loose` in the backward pass and in
      the inverse's singularity test. Matrix.java passes `isStrictZero` and
      `isZero`; AccurateMatrix.java passes `doubleLooselyEquals(x, 0.0)` for
      both. */
  datatype ZeroPolicy = ZeroPolicy(strict: real -> bool, loose: real -> bool)
  {
    /** Both tests this elimination uses, the strict and the loose one,
        count exact 0 as zero. */
    predicate BothCountZero()
    {
      strict(0.0) && loose(0.0)
    }
  }

  // ---------------------------------------------------------------------
  // Row operations

  /** Row `t` replaced by row t + m * row s; every other row as it was. */
  function RowAdded(g: Grid, s: nat, m: real, t: nat): (r: Grid)
    requires s < |g| && t < |g| && |g[s]| == |g[t]|
    ensures |r| == |g|
    ensures forall w | 0 <= w < |g| && w != t :: r[w] == g[w]
    ensures |r[t]| == |g[t]|
    ensures forall c | 0 <= c < |g[t]| :: r[t][c] == g[t][c] + g[s][c] * m
  {
    g[t := seq(|g[t]|, c requires 0 <= c < |g[t]| => g[t][c] + g[s][c] * m)]
  }

  /** Adding m times another row and then -m times it gives the grid back. */
  lemma RowAddedUndone(g: Grid, cols: nat, s: nat, m: real, t: nat)
    requires Rect(g, cols) && s < |g| && t < |g| && s != t
    ensures RowAdded(RowAdded(g, s, m, t), s, -m, t) == g
  {
    var h := RowAdded(RowAdded(g, s, m, t), s, -m, t);
    assert Rect(h, cols);
    GridExt(h, g, cols);
  }

  /** `addRowToRow(s, m, t)`: row t becomes row t + m * row s. The column
      loop reads both rows, so an index outside the grid fails unless there
      are no columns to read. */
  function AddRowToRow(g: Grid, cols: nat, s: int, m: real, t: int): (r: Result<Grid>)
    requires Rect(g, cols)
    ensures r.Err? <==> cols > 0 && !(0 <= s < |g| && 0 <= t < |g|)
    ensures r.Err? ==> r.error == IndexOutOfRange
    ensures r.Ok? ==> Rect(r.value, cols) && |r.value| == |g|
    ensures r.Ok? ==> forall w | 0 <= w < |g| && w != t :: r.value[w] == g[w]
    ensures r.Ok? && cols > 0 ==> forall c | 0 <= c < cols :: r.value[t][c] == g[t][c] + g[s][c] * m
  {
    if cols == 0 then Ok(g)
    else if !(0 <= s < |g| && 0 <= t < |g|) then Err(IndexOutOfRange)
    else Ok(RowAdded(g, s, m, t))
  }

  /** Row `t` with `f` applied to each entry; every other row as it was. */
  function RowChanged(g: Grid, t: nat, f: real -> real): (r: Grid)
    requires t < |g|
    ensures |r| == |g|
    ensures forall w | 0 <= w < |g| && w != t :: r[w] == g[w]
    ensures |r[t]| == |g[t]|
    ensures forall c | 0 <= c < |g[t]| :: r[t][c] == f(g[t][c])
  {
    g[t := seq(|g[t]|, c requires 0 <= c < |g[t]| => f(g[t][c]))]
  }

  /** `changeRow(t, f)`: an index outside [0, rows) fails; otherwise only
      row t changes, each entry to f(old entry). */
  function ChangeRow(g: Grid, cols: nat, t: int, f: real -> real): (r: Result<Grid>)
    requires Rect(g, cols)
    ensures r.Err? <==> !(0 <= t < |g|)
    ensures r.Err? ==> r.error == IndexOutOfRange
    ensures r.Ok? ==> Rect(r.value, cols) && |r.value| == |g|
    ensures r.Ok? ==> forall w | 0 <= w < |g| && w != t :: r.value[w] == g[w]
    ensures r.Ok? ==> forall c | 0 <= c < cols :: r.value[t][c] == f(g[t][c])
  {
    if !(0 <= t < |g|) then Err(IndexOutOfRange) else Ok(RowChanged(g, t, f))
  }

  /** Row `t` multiplied by `k` (the `changeRow(i, x -> x * factor)` of the forward pass). */
  function RowScaled(g: Grid, t: nat, k: real): (r: Grid)
    requires t < |g|
  {
    g[t := seq(|g[t]|, c requires 0 <= c < |g[t]| => g[t][c] * k)]
  }

  /** Changing a row by multiplication with `k` is scaling it by `k`. */
  lemma RowChangedIsScaled(g: Grid, t: nat, f: real -> real, k: real)
    requires t < |g|
    requires forall x :: f(x) == x * k
    ensures RowChanged(g, t, f) == RowScaled(g, t, k)
  {
    var changed, scaled := RowChanged(g, t, f)[t], RowScaled(g, t, k)[t];
    assert |changed| == |scaled|;
    assert forall c | 0 <= c < |changed| :: changed[c] == scaled[c];
    assert changed == scaled;
  }

  // ---------------------------------------------------------------------
  // Forward pass

  /** The first column at or after `from` whose entry the test does not
      count as zero (the pivot searches of the forward and backward passes
      and of `pivotLocations`). */
  function FindPivot(row: seq<real>, from: nat, zero: real -> bool): (r: Option<nat>)
    ensures r.Some? ==> from <= r.value < |row| && !zero(row[r.value])
    ensures r.Some? ==> forall w | from <= w < r.value :: zero(row[w])
    ensures r.None? ==> forall w | from <= w < |row| :: zero(row[w])
    decreases |row| - from
  {
    if from >= |row| then None
    else if !zero(row[from]) then Some(from)
    else FindPivot(row, from + 1, zero)
  }

  /** A non-zero entry preceded by zeros from `from` on is the pivot found. */
  lemma {:induction false} FindPivotAt(row: seq<real>, from: nat, i: nat, zero: real -> bool)
    requires from <= i < |row| && !zero(row[i])
    requires forall w | from <= w < i :: zero(row[w])
    ensures FindPivot(row, from, zero) == Some(i)
    decreases i - from
  {
    if from < i {
      FindPivotAt(row, from + 1, i, zero);
    }
  }

  /** The elimination below a pivot: for w = from, ..., rows - 1, row w
      gets -g[w][p] times row i added. */
  function EliminateBelow(g: Grid, cols: nat, i: nat, p: nat, from: nat): (r: Grid)
    requires Rect(g, cols) && i < from <= |g| && p < cols
    ensures Rect(r, cols) && |r| == |g|
    ensures forall v | 0 <= v < from :: r[v] == g[v]
    decreases |g| - from
  {
    if from == |g| then g
    else EliminateBelow(RowAdded(g, i, -g[from][p], from), cols, i, p, from + 1)
  }

  /** The first step of the elimination below row i: row `from` gets
      -g[from][p] times row i added. */
  lemma EliminateBelowStep(g: Grid, cols: nat, i: nat, p: nat, from: nat, h: Grid, next: nat)
    requires Rect(g, cols) && i < from < |g| && p < cols
    requires h == RowAdded(g, i, -g[from][p], from) && next == from + 1
    ensures Rect(h, cols) && i < next <= |h|
    ensures EliminateBelow(g, cols, i, p, from) == EliminateBelow(h, cols, i, p, next)
  {
  }

  /** Each row from `from` on ends as itself plus -g[w][p] times row i. */
  lemma {:induction false} EliminateBelowEntries(g: Grid, cols: nat, i: nat, p: nat, from: nat)
    requires Rect(g, cols) && i < from <= |g| && p < cols
    ensures forall v, c | from <= v < |g| && 0 <= c < cols ::
      EliminateBelow(g, cols, i, p, from)[v][c] == g[v][c] + g[i][c] * -g[v][p]
    decreases |g| - from
  {
    if from < |g| {
      var h := RowAdded(g, i, -g[from][p], from);
      EliminateBelowEntries(h, cols, i, p, from + 1);
    }
  }

  /** One step of the forward pass at pivot (i, p): row i scaled by
      1 / g[i][p], then the column p cleared below it. */
  function PivotStep(g: Grid, cols: nat, i: nat, p: nat): (h: Grid)
    requires Rect(g, cols) && i < |g| && p < cols && g[i][p] != 0.0
    ensures Rect(h, cols) && |h| == |g|
    ensures forall v | 0 <= v < i :: h[v] == g[v]
    ensures h[i][p] == 1.0
    ensures forall v | i < v < |g| :: h[v][p] == 0.0
  {
    ScaledPivotIsOne(g[i][p]);
    EliminateBelowEntries(RowScaled(g, i, 1.0 / g[i][p]), cols, i, p, i + 1);
    EliminateBelow(RowScaled(g, i, 1.0 / g[i][p]), cols, i, p, i + 1)
  }

  lemma ScaledPivotIsOne(x: real)
    requires x != 0.0
    ensures x * (1.0 / x) == 1.0
  {
  }

  /** A column that is zero in rows i and below stays zero there after a pivot step at row i. */
  lemma PivotStepKeepsZeroColumn(g: Grid, cols: nat, i: nat, p: nat, c: nat)
    requires Rect(g, cols) && i < |g| && p < cols && g[i][p] != 0.0 && c < cols
    requires forall v | i <= v < |g| :: g[v][c] == 0.0
    ensures forall v | i <= v < |g| :: PivotStep(g, cols, i, p)[v][c] == 0.0
  {
    var s := RowScaled(g, i, 1.0 / g[i][p]);
    assert s[i][c] == 0.0;
    EliminateBelowEntries(s, cols, i, p, i + 1);
  }

  /** Where the forward pass ends: the grid, and the pivot column found in
      each row it normalised (the successive values of `pivotLocation`). */
  datatype Pass = Pass(grid: Grid, pivots: seq<nat>)

  /** The forward pass from row `i` with the pivot search starting at
      column `from`: find the row's pivot, scale the row so the pivot is 1,
      clear the pivot column below it, and go on with the next row from
      the same column; stop at the first row with no pivot. */
  function Forward(g: Grid, cols: nat, i: nat, from: nat, zero: real -> bool): (r: Pass)
    requires Rect(g, cols) && i <= |g| && zero(0.0)
    ensures Rect(r.grid, cols) && |r.grid| == |g|
    ensures i + |r.pivots| <= |g|
    ensures forall v | 0 <= v < i :: r.grid[v] == g[v]
    decreases |g| - i
  {
    if i == |g| then Pass(g, [])
    else match FindPivot(g[i], from, zero)
      case None => Pass(g, [])
      case Some(p) =>
        var rest := Forward(PivotStep(g, cols, i, p), cols, i + 1, p, zero);
        Pass(rest.grid, [p] + rest.pivots)
  }

  /** One step of the forward pass: with a pivot at column p of row i,
      the pass goes on from row i + 1 over the grid pivoted there. */
  lemma ForwardStep(g: Grid, cols: nat, i: nat, from: nat, zero: real -> bool, p: nat, h: Grid, next: nat)
    requires Rect(g, cols) && i < |g| && zero(0.0) && FindPivot(g[i], from, zero) == Some(p)
    requires p < cols && g[i][p] != 0.0 && h == PivotStep(g, cols, i, p) && next == i + 1
    ensures Rect(h, cols) && next <= |h|
    ensures Forward(g, cols, i, from, zero).grid == Forward(h, cols, next, p, zero).grid
  {
  }

  /** A column that is zero in rows i and below stays zero there. */
  lemma {:induction false} ForwardKeepsZeroColumn(g: Grid, cols: nat, i: nat, from: nat, zero: real -> bool, c: nat)
    requires Rect(g, cols) && i <= |g| && zero(0.0) && c < cols
    requires forall v | i <= v < |g| :: g[v][c] == 0.0
    ensures forall v | i <= v < |g| :: Forward(g, cols, i, from, zero).grid[v][c] == 0.0
    decreases |g| - i
  {
    if i < |g| && FindPivot(g[i], from, zero).Some? {
      var p := FindPivot(g[i], from, zero).value;
      var h := PivotStep(g, cols, i, p);
      PivotStepKeepsZeroColumn(g, cols, i, p, c);
      ForwardKeepsZeroColumn(h, cols, i + 1, p, zero, c);
    }
  }

  /** The pivot columns recorded strictly increase, from `from` on. */
  ghost predicate IncreasingFrom(piv: seq<nat>, from: nat, cols: nat)
  {
    && (forall t | 0 <= t < |piv| :: from <= piv[t] < cols)
    && (forall t, u | 0 <= t < u < |piv| :: piv[t] < piv[u])
  }

  /** The pivot search column never moves left, and never stays put: the
      row after a pivot row is exactly 0 in the old pivot column. */
  lemma {:induction false} ForwardPivotsIncrease(g: Grid, cols: nat, i: nat, from: nat, zero: real -> bool)
    requires Rect(g, cols) && i <= |g| && zero(0.0)
    ensures IncreasingFrom(Forward(g, cols, i, from, zero).pivots, from, cols)
    decreases |g| - i
  {
    if i < |g| && FindPivot(g[i], from, zero).Some? {
      var p := FindPivot(g[i], from, zero).value;
      var h := PivotStep(g, cols, i, p);
      var rest := Forward(h, cols, i + 1, p, zero);
      ForwardPivotsIncrease(h, cols, i + 1, p, zero);
      if |rest.pivots| > 0 {
        assert rest.pivots[0] == FindPivot(h[i + 1], p, zero).value;
      }
      var P := Forward(g, cols, i, from, zero);
      assert P == Pass(rest.grid, [p] + rest.pivots);
      PivotsConsIncreasing(p, rest.pivots, from, cols);
    }
  }

  /** A pivot column followed by strictly larger increasing ones increases. */
  lemma PivotsConsIncreasing(p: nat, rest: seq<nat>, from: nat, cols: nat)
    requires from <= p < cols && IncreasingFrom(rest, p, cols) && (|rest| > 0 ==> p < rest[0])
    ensures IncreasingFrom([p] + rest, from, cols)
  {
    var piv := [p] + rest;
    forall t, u | 0 <= t < u < |piv|
      ensures piv[t] < piv[u]
    {
      if t > 0 {
        assert piv[t] == rest[t - 1] && piv[u] == rest[u - 1];
      } else {
        assert piv[u] == rest[u - 1];
        assert rest[0] <= rest[u - 1];
      }
    }
  }

  /** Every row the pass normalised holds exactly 1 at its pivot, with
      exactly 0 in the pivot column in every row below it. */
  ghost predicate PivotRowsNormalised(G: Grid, i: nat, piv: seq<nat>)
  {
    forall t | 0 <= t < |piv| :: PivotRowNormalised(G, i, piv, t)
  }

  /** Row i + t holds exactly 1 at pivot column piv[t], and every row below
      it exactly 0 in that column. */
  ghost predicate PivotRowNormalised(G: Grid, i: nat, piv: seq<nat>, t: nat)
    requires t < |piv|
  {
    && i + t < |G| && piv[t] < |G[i + t]| && G[i + t][piv[t]] == 1.0
    && forall v | i + t < v < |G| :: piv[t] < |G[v]| && G[v][piv[t]] == 0.0
  }

  lemma {:induction false} ForwardNormalisesPivotRows(g: Grid, cols: nat, i: nat, from: nat, zero: real -> bool)
    requires Rect(g, cols) && i <= |g| && zero(0.0)
    ensures IncreasingFrom(Forward(g, cols, i, from, zero).pivots, from, cols)
    ensures PivotRowsNormalised(Forward(g, cols, i, from, zero).grid, i, Forward(g, cols, i, from, zero).pivots)
    decreases |g| - i
  {
    ForwardPivotsIncrease(g, cols, i, from, zero);
    if i < |g| && FindPivot(g[i], from, zero).Some? {
      var p := FindPivot(g[i], from, zero).value;
      var h := PivotStep(g, cols, i, p);
      var rest := Forward(h, cols, i + 1, p, zero);
      ForwardNormalisesPivotRows(h, cols, i + 1, p, zero);
      ForwardKeepsZeroColumn(h, cols, i + 1, p, zero, p);
      var P := Forward(g, cols, i, from, zero);
      assert P == Pass(rest.grid, [p] + rest.pivots);
      assert rest.grid[i] == h[i];
      forall t | 0 <= t < |P.pivots|
        ensures PivotRowNormalised(P.grid, i, P.pivots, t)
      {
        if t > 0 {
          assert PivotRowNormalised(rest.grid, i + 1, rest.pivots, t - 1);
          assert P.pivots[t] == rest.pivots[t - 1];
          assert i + t == (i + 1) + (t - 1);
        }
      }
    }
  }

  /** Pivot search column of pivot row `t` of a pass that started at `from`. */
  function SearchStart(pivots: seq<nat>, from: nat, t: nat): nat
    requires t <= |pivots|
  {
    if t == 0 then from else pivots[t - 1]
  }

  /** When the pass stops before the last row, the row it stopped at has
      no pivot: it is zero (by the test) from the last pivot column to the
      end, by `FindPivot`'s contract. */
  ghost predicate StoppedAtZeroRow(G: Grid, i: nat, piv: seq<nat>, from: nat, cols: nat, zero: real -> bool)
  {
    i + |piv| < |G| ==> FindPivot(G[i + |piv|], SearchStart(piv, from, |piv|), zero).None?
  }

  lemma {:induction false} ForwardStopsAtZeroRow(g: Grid, cols: nat, i: nat, from: nat, zero: real -> bool)
    requires Rect(g, cols) && i <= |g| && zero(0.0)
    ensures StoppedAtZeroRow(Forward(g, cols, i, from, zero).grid, i, Forward(g, cols, i, from, zero).pivots, from, cols, zero)
    decreases |g| - i
  {
    if i < |g| && FindPivot(g[i], from, zero).Some? {
      var p := FindPivot(g[i], from, zero).value;
      var h := PivotStep(g, cols, i, p);
      var rest := Forward(h, cols, i + 1, p, zero);
      ForwardStopsAtZeroRow(h, cols, i + 1, p, zero);
      var P := Forward(g, cols, i, from, zero);
      assert P == Pass(rest.grid, [p] + rest.pivots);
      assert SearchStart(P.pivots, from, |P.pivots|) == SearchStart(rest.pivots, p, |rest.pivots|);
      assert i + |P.pivots| == (i + 1) + |rest.pivots|;
    }
  }

  // ---------------------------------------------------------------------
  // Backward pass

  /** The elimination above a row: for w = from, ..., 0, row w gets
      -g[w][p] times row i added. */
  function EliminateAbove(g: Grid, cols: nat, i: nat, p: nat, from: int): (r: Grid)
    requires Rect(g, cols) && i < |g| && p < cols && -1 <= from < i
    ensures Rect(r, cols) && |r| == |g|
    ensures forall v | from < v < |g| :: r[v] == g[v]
    decreases from + 1
  {
    if from < 0 then g
    else EliminateAbove(RowAdded(g, i, -g[from][p], from), cols, i, p, from - 1)
  }

  /** The first step of the elimination above row i: row `from` gets
      -g[from][p] times row i added. */
  lemma EliminateAboveStep(g: Grid, cols: nat, i: nat, p: nat, from: nat, h: Grid, next: nat)
    requires Rect(g, cols) && i < |g| && p < cols && from < i
    requires h == RowAdded(g, i, -g[from][p], from) && next == from
    ensures Rect(h, cols) && i < |h| && next <= i
    ensures EliminateAbove(g, cols, i, p, from) == EliminateAbove(h, cols, i, p, next - 1)
  {
  }

  /** Each row from `from` up to 0 ends as itself plus -g[w][p] times row i. */
  lemma {:induction false} EliminateAboveEntries(g: Grid, cols: nat, i: nat, p: nat, from: int)
    requires Rect(g, cols) && i < |g| && p < cols && -1 <= from < i
    ensures forall v, c | 0 <= v <= from && 0 <= c < cols ::
      EliminateAbove(g, cols, i, p, from)[v][c] == g[v][c] + g[i][c] * -g[v][p]
    decreases from + 1
  {
    if from >= 0 {
      var h := RowAdded(g, i, -g[from][p], from);
      EliminateAboveEntries(h, cols, i, p, from - 1);
      var r := EliminateAbove(h, cols, i, p, from - 1);
      assert h[i] == g[i];
      forall v, c | 0 <= v <= from && 0 <= c < cols
        ensures r[v][c] == g[v][c] + g[i][c] * -g[v][p]
      {
        if v == from {
          assert r[v] == h[v];
        } else {
          assert h[v] == g[v];
        }
      }
    }
  }

  /** One step of the backward pass, for row i: when the row has an entry
      that is not zero by the test, the column of the first one is cleared
      in every row above; otherwise nothing changes. */
  function BackStep(g: Grid, cols: nat, i: nat, zero: real -> bool): (r: Grid)
    requires Rect(g, cols) && i < |g|
    ensures Rect(r, cols) && |r| == |g|
    ensures forall v | i <= v < |g| :: r[v] == g[v]
    ensures FindPivot(g[i], 0, zero).None? ==> r == g
  {
    match FindPivot(g[i], 0, zero)
    case None => g
    case Some(p) => EliminateAbove(g, cols, i, p, i - 1)
  }

  /** With a pivot p in row i, every row above ends as itself plus -g[v][p] times row i. */
  lemma BackStepEntries(g: Grid, cols: nat, i: nat, zero: real -> bool)
    requires Rect(g, cols) && i < |g|
    ensures FindPivot(g[i], 0, zero).Some? ==>
      forall v, c | 0 <= v < i && 0 <= c < cols ::
        BackStep(g, cols, i, zero)[v][c] == g[v][c] + g[i][c] * -g[v][FindPivot(g[i], 0, zero).value]
  {
    if FindPivot(g[i], 0, zero).Some? {
      EliminateAboveEntries(g, cols, i, FindPivot(g[i], 0, zero).value, i - 1);
    }
  }

  /** One step of the backward pass, for row i. */
  lemma BackwardStep(g: Grid, cols: nat, i: nat, zero: real -> bool, h: Grid, next: nat)
    requires Rect(g, cols) && i < |g| && h == BackStep(g, cols, i, zero) && next == i
    ensures Rect(h, cols) && next <= |h|
    ensures Backward(g, cols, i, zero) == Backward(h, cols, next - 1, zero)
  {
  }

  /** The backward pass over rows i, i - 1, ..., 0. */
  function Backward(g: Grid, cols: nat, i: int, zero: real -> bool): (r: Grid)
    requires Rect(g, cols) && -1 <= i < |g|
    ensures Rect(r, cols) && |r| == |g|
    ensures forall v | i < v < |g| :: r[v] == g[v]
    decreases i + 1
  {
    if i < 0 then g else Backward(BackStep(g, cols, i, zero), cols, i - 1, zero)
  }

  /** A column that is zero in rows 0..i stays zero there through the rest
      of the backward pass. */
  lemma {:induction false} BackwardKeepsZeroColumn(g: Grid, cols: nat, i: int, zero: real -> bool, c: nat)
    requires Rect(g, cols) && -1 <= i < |g| && c < cols
    requires forall v | 0 <= v <= i :: g[v][c] == 0.0
    ensures forall v | 0 <= v <= i :: Backward(g, cols, i, zero)[v][c] == 0.0
    decreases i + 1
  {
    if i >= 0 {
      var next := BackStep(g, cols, i, zero);
      BackStepEntries(g, cols, i, zero);
      assert forall v | 0 <= v <= i :: next[v][c] == 0.0;
      BackwardKeepsZeroColumn(next, cols, i - 1, zero, c);
    }
  }

  /** The backward step for row i: when the row's first entry that is
      not zero by the test is exactly 1, at column p, every row above ends
      the pass with 0 in column p. */
  lemma BackwardClearsAbove(g: Grid, cols: nat, i: nat, zero: real -> bool, p: nat)
    requires Rect(g, cols) && i < |g| && FindPivot(g[i], 0, zero) == Some(p) && g[i][p] == 1.0
    ensures forall w | 0 <= w < i :: Backward(g, cols, i, zero)[w][p] == 0.0
  {
    var next := BackStep(g, cols, i, zero);
    BackStepClearsColumn(g, cols, i, zero, p);
    BackwardKeepsZeroColumn(next, cols, i - 1, zero, p);
    assert Backward(g, cols, i, zero) == Backward(next, cols, i - 1, zero);
  }

  /** The backward step for row i, with a pivot entry 1 at column p, leaves
      0 in column p of every row above. */
  lemma BackStepClearsColumn(g: Grid, cols: nat, i: nat, zero: real -> bool, p: nat)
    requires Rect(g, cols) && i < |g| && FindPivot(g[i], 0, zero) == Some(p) && g[i][p] == 1.0
    ensures forall v | 0 <= v < i :: BackStep(g, cols, i, zero)[v][p] == 0.0
  {
    BackStepEntries(g, cols, i, zero);
    forall v | 0 <= v < i
      ensures BackStep(g, cols, i, zero)[v][p] == 0.0
    {
      assert BackStep(g, cols, i, zero)[v][p] == g[v][p] + 1.0 * -g[v][p];
    }
  }

  /** A pivot entry 1 in row t with zeros below it survives the backward pass. */
  lemma {:induction false} BackwardKeepsPivot(g: Grid, cols: nat, i: int, zero: real -> bool, t: nat, c: nat)
    requires Rect(g, cols) && -1 <= i < |g| && t < |g| && c < cols
    requires g[t][c] == 1.0 && forall v | t < v < |g| :: g[v][c] == 0.0
    ensures Backward(g, cols, i, zero)[t][c] == 1.0
    ensures forall v | t < v < |g| :: Backward(g, cols, i, zero)[v][c] == 0.0
    decreases i + 1
  {
    if i >= 0 {
      var next := BackStep(g, cols, i, zero);
      BackStepKeepsPivot(g, cols, i, zero, t, c);
      BackwardKeepsPivot(next, cols, i - 1, zero, t, c);
      var r := Backward(g, cols, i, zero);
      assert r == Backward(next, cols, i - 1, zero);
    }
  }

  /** One backward step keeps a pivot entry 1 in row t with zeros below it:
      rows from i down are untouched, and when t < i the rows above get a
      multiple of row i, whose entry in that column is 0. */
  lemma BackStepKeepsPivot(g: Grid, cols: nat, i: nat, zero: real -> bool, t: nat, c: nat)
    requires Rect(g, cols) && i < |g| && t < |g| && c < cols
    requires g[t][c] == 1.0 && forall v | t < v < |g| :: g[v][c] == 0.0
    ensures BackStep(g, cols, i, zero)[t][c] == 1.0
    ensures forall v | t < v < |g| :: BackStep(g, cols, i, zero)[v][c] == 0.0
  {
    var next := BackStep(g, cols, i, zero);
    if FindPivot(g[i], 0, zero).Some? && t < i {
      var p := FindPivot(g[i], 0, zero).value;
      BackStepEntries(g, cols, i, zero);
      assert g[i][c] == 0.0;
      forall v | 0 <= v < i
        ensures next[v][c] == g[v][c]
      {
        assert next[v][c] == g[v][c] + g[i][c] * -g[v][p];
      }
    }
  }

  // ---------------------------------------------------------------------
  // Reduced row echelon form

  /** `reducedRowEchelonForm`: the forward pass from row 0 and column 0,
      then the backward pass from the last row. */
  function Rref(g: Grid, cols: nat, policy: ZeroPolicy): (r: Grid)
    requires Rect(g, cols) && policy.strict(0.0)
    ensures Rect(r, cols) && |r| == |g|
  {
    Backward(Forward(g, cols, 0, 0, policy.strict).grid, cols, |g| - 1, policy.loose)
  }

  /** The pivot columns the forward pass of `Rref` records. */
  function ForwardPivots(g: Grid, cols: nat, policy: ZeroPolicy): (p: seq<nat>)
    requires Rect(g, cols) && policy.strict(0.0)
    ensures |p| <= |g|
    ensures IncreasingFrom(p, 0, cols)
  {
    ForwardPivotsIncrease(g, cols, 0, 0, policy.strict);
    Forward(g, cols, 0, 0, policy.strict).pivots
  }

  /** `Rref` keeps the shape; the forward pivots strictly increase, one per
      row from the top; and in the result each of those rows has exactly 1
      at its pivot column with exactly 0 below it. */
  lemma RrefFacts(g: Grid, cols: nat, policy: ZeroPolicy)
    requires Rect(g, cols) && policy.strict(0.0)
    ensures Rect(Rref(g, cols, policy), cols) && |Rref(g, cols, policy)| == |g|
    ensures |ForwardPivots(g, cols, policy)| <= |g|
    ensures IncreasingFrom(ForwardPivots(g, cols, policy), 0, cols)
    ensures PivotRowsNormalised(Rref(g, cols, policy), 0, ForwardPivots(g, cols, policy))
  {
    var P := Forward(g, cols, 0, 0, policy.strict);
    ForwardNormalisesPivotRows(g, cols, 0, 0, policy.strict);
    var R := Rref(g, cols, policy);
    forall t | 0 <= t < |P.pivots|
      ensures PivotRowNormalised(R, 0, P.pivots, t)
    {
      assert PivotRowNormalised(P.grid, 0, P.pivots, t);
      assert P.grid[0 + t] == P.grid[t];
      BackwardKeepsPivot(P.grid, cols, |g| - 1, policy.loose, t, P.pivots[t]);
    }
  }
}
