/** The library's own worked examples, stated as lemmas about the model
    with zero tests that count exactly 0 as zero: adding a multiple of one row to
    another, the reduced form, rank and null space of the 3-by-4 grid
    1..12, and a grid whose reduced form has more pivot rows than columns
    because the elimination never swaps rows. */
module Scenarios {
  import opened Failures
  import opened Grids
  import opened Elimination
  import opened Derived

  /** The exact zero test: only 0 itself counts as zero. */
  function IsZero(x: real): bool
  {
    x == 0.0
  }

  /** Both zero tests exact. */
  function Exact(): (p: ZeroPolicy)
    ensures p.BothCountZero() && TellsOneFromZero(p.strict) && TellsOneFromZero(p.loose)
  {
    ZeroPolicy(IsZero, IsZero)
  }

  /** The grid with rows 1 2 3 4, 5 6 7 8 and 9 10 11 12. */
  function Counting(): (g: Grid)
    ensures |g| == 3 && Rect(g, 4)
  {
    [[1.0, 2.0, 3.0, 4.0], [5.0, 6.0, 7.0, 8.0], [9.0, 10.0, 11.0, 12.0]]
  }

  /** `addRowToRow(0, -1, 2)` on the counting grid: the last row becomes 8 8 8 8. */
  lemma AddRowToRowExample()
    ensures AddRowToRow(Counting(), 4, 0, -1.0, 2) ==
      Ok([[1.0, 2.0, 3.0, 4.0], [5.0, 6.0, 7.0, 8.0], [8.0, 8.0, 8.0, 8.0]])
  {
    var g := Counting();
    var r := AddRowToRow(g, 4, 0, -1.0, 2).value;
    var e: Grid := [[1.0, 2.0, 3.0, 4.0], [5.0, 6.0, 7.0, 8.0], [8.0, 8.0, 8.0, 8.0]];
    forall i, j | 0 <= i < 3 && 0 <= j < 4
      ensures r[i][j] == e[i][j]
    {
      if i == 2 {
        assert r[2][j] == g[2][j] + g[0][j] * -1.0;
      } else {
        assert r[i] == g[i];
      }
    }
    GridExt(r, e, 4);
  }

  /** After the first pivot step: row 0 kept, column 0 cleared below it. */
  function AfterFirstPivot(): (g: Grid)
    ensures |g| == 3 && Rect(g, 4)
  {
    [[1.0, 2.0, 3.0, 4.0], [0.0, -4.0, -8.0, -12.0], [0.0, -8.0, -16.0, -24.0]]
  }

  /** After the second pivot step: row 1 scaled to 0 1 2 3 and the last row cleared. */
  function AfterSecondPivot(): (g: Grid)
    ensures |g| == 3 && Rect(g, 4)
  {
    [[1.0, 2.0, 3.0, 4.0], [0.0, 1.0, 2.0, 3.0], [0.0, 0.0, 0.0, 0.0]]
  }

  /** The reduced form the library's tests expect. */
  function CountingReduced(): (g: Grid)
    ensures |g| == 3 && Rect(g, 4)
  {
    [[1.0, 0.0, -1.0, -2.0], [0.0, 1.0, 2.0, 3.0], [0.0, 0.0, 0.0, 0.0]]
  }

  lemma FirstPivotStep()
    ensures PivotStep(Counting(), 4, 0, 0) == AfterFirstPivot()
  {
    var g, e := Counting(), AfterFirstPivot();
    var s := RowScaled(g, 0, 1.0 / g[0][0]);
    assert s[0] == g[0];
    EliminateBelowEntries(s, 4, 0, 0, 1);
    var h := PivotStep(g, 4, 0, 0);
    assert h == EliminateBelow(s, 4, 0, 0, 1);
    forall i, j | 0 <= i < 3 && 0 <= j < 4
      ensures h[i][j] == e[i][j]
    {
      if i > 0 {
        assert h[i][j] == g[i][j] + g[0][j] * -g[i][0];
      }
    }
    GridExt(h, e, 4);
  }

  lemma SecondPivotStep()
    ensures PivotStep(AfterFirstPivot(), 4, 1, 1) == AfterSecondPivot()
  {
    var g, e := AfterFirstPivot(), AfterSecondPivot();
    var s := RowScaled(g, 1, 1.0 / g[1][1]);
    assert s[1] == [0.0, 1.0, 2.0, 3.0];
    EliminateBelowEntries(s, 4, 1, 1, 2);
    var h := PivotStep(g, 4, 1, 1);
    assert h == EliminateBelow(s, 4, 1, 1, 2);
    forall i, j | 0 <= i < 3 && 0 <= j < 4
      ensures h[i][j] == e[i][j]
    {
      if i == 2 {
        assert h[2][j] == s[2][j] + s[1][j] * -s[2][1];
      }
    }
    GridExt(h, e, 4);
  }

  /** The forward pass takes pivots in columns 0 and 1 and stops at the zero row. */
  lemma ForwardExample()
    ensures Forward(Counting(), 4, 0, 0, IsZero).grid == AfterSecondPivot()
  {
    var g0, g1, g2 := Counting(), AfterFirstPivot(), AfterSecondPivot();
    FindPivotAt(g0[0], 0, 0, IsZero);
    FirstPivotStep();
    ForwardStep(g0, 4, 0, 0, IsZero, 0, g1, 1);
    FindPivotAt(g1[1], 0, 1, IsZero);
    SecondPivotStep();
    ForwardStep(g1, 4, 1, 0, IsZero, 1, g2, 2);
    assert FindPivot(g2[2], 1, IsZero).None?;
  }

  /** The backward pass clears column 1 above row 1 and changes nothing else. */
  lemma BackwardExample()
    ensures Backward(AfterSecondPivot(), 4, 2, IsZero) == CountingReduced()
  {
    var g, e := AfterSecondPivot(), CountingReduced();
    assert FindPivot(g[2], 0, IsZero).None?;
    BackwardStep(g, 4, 2, IsZero, g, 2);
    FindPivotAt(g[1], 0, 1, IsZero);
    var h := BackStep(g, 4, 1, IsZero);
    BackStepEntries(g, 4, 1, IsZero);
    forall i, j | 0 <= i < 3 && 0 <= j < 4
      ensures h[i][j] == e[i][j]
    {
      if i == 0 {
        assert h[0][j] == g[0][j] + g[1][j] * -g[0][1];
      }
    }
    GridExt(h, e, 4);
    BackwardStep(g, 4, 1, IsZero, e, 1);
    FindPivotAt(e[0], 0, 0, IsZero);
    assert BackStep(e, 4, 0, IsZero) == e;
    BackwardStep(e, 4, 0, IsZero, e, 0);
  }

  /** `reducedRowEchelonForm()` of the counting grid is 1 0 -1 -2, 0 1 2 3, 0 0 0 0. */
  lemma RrefExample()
    ensures Rref(Counting(), 4, Exact()) == CountingReduced()
  {
    ForwardExample();
    BackwardExample();
  }

  /** Its pivot locations are 0, 1 and -1, so its rank is 2. */
  lemma RankExample()
    ensures PivotLocations(Rref(Counting(), 4, Exact()), IsZero) == [0, 1, -1]
    ensures Rank(Counting(), 4, Exact()) == 2
  {
    RrefExample();
    var R := CountingReduced();
    var piv := PivotLocations(R, IsZero);
    assert piv[0] == 0 && piv[1] == 1 && piv[2] == -1;
    assert piv == [0, 1, -1];
    RankOfUnique(piv, 2);
  }

  /** The columns `nullSpace()` fills for the counting grid: free columns
      2 and 3, both after the pivot of row 1. */
  lemma CountingTasks()
    ensures PivotsInRange([0, 1, -1], 4)
    ensures Tasks([0, 1, -1], 4, 2) == [Task(1, 2), Task(1, 3)]
  {
    var piv: seq<int> := [0, 1, -1];
    assert RowTasks(piv, 4, 0) == [];
    assert RowTasks(piv, 4, 1) == [Task(1, 2), Task(1, 3)];
    assert Tasks(piv, 4, 1) == [];
  }

  /** The null-space grid built from the counting grid's reduced form. */
  lemma CountingNullSpaceGrid()
    ensures NullSpaceOf(CountingReduced(), 4, [0, 1, -1], 2) ==
      Ok([[1.0, 2.0], [-2.0, -3.0], [1.0, 0.0], [0.0, 1.0]])
  {
    CountingTasks();
    var R := CountingReduced();
    var ts := [Task(1, 2), Task(1, 3)];
    var n := NullSpaceGrid(R, 4, ts, 2);
    var e: Grid := [[1.0, 2.0], [-2.0, -3.0], [1.0, 0.0], [0.0, 1.0]];
    forall x, y | 0 <= x < 4 && 0 <= y < 2
      ensures n[x][y] == e[x][y]
    {
      assert n[x][y] == TaskEntry(R, 4, ts[y], x);
    }
    GridExt(n, e, 2);
  }

  /** Its null space: the free columns 2 and 3 right of the second pivot
      give the columns (1, -2, 1, 0) and (2, -3, 0, 1). */
  lemma NullSpaceExample()
    ensures NullSpace(Counting(), 4, Exact()) ==
      Ok([[1.0, 2.0], [-2.0, -3.0], [1.0, 0.0], [0.0, 1.0]])
  {
    RankExample();
    RrefExample();
    var p := Exact();
    assert p.strict == IsZero;
    var R := Rref(Counting(), 4, p);
    assert R == CountingReduced();
    assert PivotLocations(R, p.strict) == [0, 1, -1];
    CountingNullSpaceGrid();
  }

  /** A grid whose first row has its pivot in the last column. */
  function LateFirstPivot(): (g: Grid)
    ensures |g| == 3 && Rect(g, 2)
  {
    [[0.0, 1.0], [1.0, 0.0], [2.0, 0.0]]
  }

  /** Without row swaps the forward pass stops after row 0, the backward
      pass then pivots rows 1 and 2 on column 0, and every row of the
      result has a pivot location: the rank is 3 for a grid of 2 columns,
      and `nullSpace()` fails allocating 2 - 3 columns. */
  lemma RankBeyondColumns()
    ensures Rank(LateFirstPivot(), 2, Exact()) == 3
    ensures NullSpace(LateFirstPivot(), 2, Exact()) == Err(NegativeArraySize)
  {
    var g := LateFirstPivot();
    LateForward();
    var R := Backward(g, 2, 2, IsZero);
    BackwardPivotRows(g, R);
    var piv := PivotLocations(R, IsZero);
    assert piv[0] != -1 && piv[1] != -1 && piv[2] != -1;
    RankOfUnique(piv, 3);
  }

  /** The forward pass over the late-pivot grid changes nothing: the pivot
      of row 0 is already 1 with zeros below it, and row 1 has no entry
      right of column 1. */
  lemma LateForward()
    ensures Forward(LateFirstPivot(), 2, 0, 0, IsZero).grid == LateFirstPivot()
  {
    var g := LateFirstPivot();
    FindPivotAt(g[0], 0, 1, IsZero);
    LatePivotStep();
    ForwardStep(g, 2, 0, 0, IsZero, 1, g, 1);
    assert FindPivot(g[1], 1, IsZero).None?;
  }

  /** The pivot step on row 0, column 1 of the late-pivot grid. */
  lemma LatePivotStep()
    ensures PivotStep(LateFirstPivot(), 2, 0, 1) == LateFirstPivot()
  {
    SettledPivotStep(LateFirstPivot(), 2, 0, 1);
  }

  /** The backward pass over the late-pivot grid leaves a non-zero entry in every row. */
  lemma BackwardPivotRows(g: Grid, R: Grid)
    requires g == LateFirstPivot() && R == Backward(g, 2, 2, IsZero)
    ensures |R| == 3 && Rect(R, 2)
    ensures R[0][1] != 0.0 && R[1][0] != 0.0 && R[2][0] != 0.0
  {
    FindPivotAt(g[2], 0, 0, IsZero);
    var b2 := BackStep(g, 2, 2, IsZero);
    BackStepEntries(g, 2, 2, IsZero);
    assert b2[0][1] == 1.0 && b2[1][0] == -1.0 && b2[2] == g[2];
    BackwardStep(g, 2, 2, IsZero, b2, 2);
    FindPivotAt(b2[1], 0, 0, IsZero);
    var b1 := BackStep(b2, 2, 1, IsZero);
    BackStepEntries(b2, 2, 1, IsZero);
    assert b1[0][1] == 1.0 && b1[1] == b2[1] && b1[2] == b2[2];
    BackwardStep(b2, 2, 1, IsZero, b1, 1);
    assert b1[0][0] == 0.0;
    FindPivotAt(b1[0], 0, 1, IsZero);
    var b0 := BackStep(b1, 2, 0, IsZero);
    assert b0 == b1;
    BackwardStep(b1, 2, 0, IsZero, b0, 0);
  }

  // ---------------------------------------------------------------------
  // Steps that change nothing

  /** A pivot that is already 1 with zeros below it: the pivot step leaves
      the grid as it is. */
  lemma SettledPivotStep(g: Grid, cols: nat, i: nat, p: nat)
    requires Rect(g, cols) && i < |g| && p < cols && g[i][p] == 1.0
    requires forall v | i < v < |g| :: g[v][p] == 0.0
    ensures PivotStep(g, cols, i, p) == g
  {
    var s := RowScaled(g, i, 1.0 / g[i][p]);
    assert s == g by {
      assert 1.0 / g[i][p] == 1.0;
      assert forall c | 0 <= c < |g[i]| :: s[i][c] == g[i][c];
      assert s[i] == g[i];
    }
    var h := PivotStep(g, cols, i, p);
    EliminateBelowEntries(s, cols, i, p, i + 1);
    forall v, c | 0 <= v < |g| && 0 <= c < cols
      ensures h[v][c] == g[v][c]
    {
      if v > i {
        assert h[v][c] == g[v][c] + g[i][c] * -g[v][p];
      }
    }
    GridExt(h, g, cols);
  }

  /** Row i needs no backward step: it has no entry the test counts as
      non-zero, or the column of its first one is already 0 above it. */
  predicate SettledRow(g: Grid, cols: nat, i: nat, zero: real -> bool)
    requires Rect(g, cols) && i < |g|
  {
    match FindPivot(g[i], 0, zero)
    case None => true
    case Some(p) => forall v | 0 <= v < i :: g[v][p] == 0.0
  }

  /** A backward step at a settled row leaves the grid as it is. */
  lemma SettledBackStep(g: Grid, cols: nat, i: nat, zero: real -> bool)
    requires Rect(g, cols) && i < |g| && SettledRow(g, cols, i, zero)
    ensures BackStep(g, cols, i, zero) == g
  {
    if FindPivot(g[i], 0, zero).Some? {
      var p := FindPivot(g[i], 0, zero).value;
      var h := BackStep(g, cols, i, zero);
      BackStepEntries(g, cols, i, zero);
      forall v, c | 0 <= v < |g| && 0 <= c < cols
        ensures h[v][c] == g[v][c]
      {
        if v < i {
          assert h[v][c] == g[v][c] + g[i][c] * -g[v][p];
        }
      }
      GridExt(h, g, cols);
    }
  }

  /** The backward pass from row i over a grid whose rows 0..i are all
      settled leaves it as it is. */
  lemma {:induction false} SettledBackward(g: Grid, cols: nat, i: int, zero: real -> bool)
    requires Rect(g, cols) && -1 <= i < |g|
    requires forall t | 0 <= t <= i :: SettledRow(g, cols, t, zero)
    ensures Backward(g, cols, i, zero) == g
    decreases i + 1
  {
    if i >= 0 {
      SettledBackStep(g, cols, i, zero);
      BackwardStep(g, cols, i, zero, g, i);
      SettledBackward(g, cols, i - 1, zero);
    }
  }

  // ---------------------------------------------------------------------
  // More of the library's rank examples

  /** The grid with rows 1 2 3 and 2 3 4. */
  function TwoRows(): (g: Grid)
    ensures |g| == 2 && Rect(g, 3)
  {
    [[1.0, 2.0, 3.0], [2.0, 3.0, 4.0]]
  }

  lemma TwoRowsFirstPivot()
    ensures PivotStep(TwoRows(), 3, 0, 0) == [[1.0, 2.0, 3.0], [0.0, -1.0, -2.0]]
  {
    var g: Grid := TwoRows();
    var e: Grid := [[1.0, 2.0, 3.0], [0.0, -1.0, -2.0]];
    var s := RowScaled(g, 0, 1.0 / g[0][0]);
    assert s[0] == g[0];
    EliminateBelowEntries(s, 3, 0, 0, 1);
    var h := PivotStep(g, 3, 0, 0);
    assert h == EliminateBelow(s, 3, 0, 0, 1);
    forall i, j | 0 <= i < 2 && 0 <= j < 3
      ensures h[i][j] == e[i][j]
    {
      if i == 1 {
        assert h[1][j] == s[1][j] + s[0][j] * -s[1][0];
      }
    }
    GridExt(h, e, 3);
  }

  /** The forward pass over rows 1 2 3 and 2 3 4 finds pivots in columns
      0 and 1, so `rank()` is 2. */
  lemma TwoRowsRank()
    ensures ForwardPivots(TwoRows(), 3, Exact()) == [0, 1]
    ensures Rank(TwoRows(), 3, Exact()) == 2
  {
    var g0: Grid := TwoRows();
    var g1: Grid := [[1.0, 2.0, 3.0], [0.0, -1.0, -2.0]];
    FindPivotAt(g0[0], 0, 0, IsZero);
    TwoRowsFirstPivot();
    FindPivotAt(g1[1], 0, 1, IsZero);
    var g2 := PivotStep(g1, 3, 1, 1);
    assert Forward(g0, 3, 0, 0, IsZero).pivots == [0] + Forward(g1, 3, 1, 0, IsZero).pivots;
    assert Forward(g1, 3, 1, 0, IsZero).pivots == [1] + Forward(g2, 3, 2, 1, IsZero).pivots;
    RankCountsForwardPivots(g0, 3, Exact());
  }

  /** A grid whose top row is zero. */
  function ZeroTopRow(): (g: Grid)
    ensures |g| == 2 && Rect(g, 2)
  {
    [[0.0, 0.0], [1.0, 0.0]]
  }

  /** The forward pass stops at the zero top row and the backward pass has
      nothing to clear above the 1 below it: the grid comes back as it is,
      row 0 has no pivot location, and `rank()` is 0 although row 1 is not
      zero. */
  lemma ZeroTopRowRank()
    ensures Rref(ZeroTopRow(), 2, Exact()) == ZeroTopRow()
    ensures Rank(ZeroTopRow(), 2, Exact()) == 0
  {
    var g := ZeroTopRow();
    assert FindPivot(g[0], 0, IsZero).None?;
    FindPivotAt(g[1], 0, 0, IsZero);
    assert SettledRow(g, 2, 0, IsZero) && SettledRow(g, 2, 1, IsZero);
    SettledBackward(g, 2, 1, IsZero);
    var piv := PivotLocations(g, IsZero);
    assert piv[0] == -1;
    RankOfUnique(piv, 0);
  }

  /** The two rows of the 2-by-2 identity in the other order. */
  function Swapped(): (g: Grid)
    ensures |g| == 2 && Rect(g, 2)
  {
    [[0.0, 1.0], [1.0, 0.0]]
  }

  /** [Swapped | I]: the forward pass takes the pivot of row 0 in column 1
      and, searching row 1 from column 1 on, the pivot of row 1 in column
      3; no step changes anything. */
  lemma SwappedAugmentedReduced()
    ensures Augmented(Swapped(), 2) == [[0.0, 1.0, 1.0, 0.0], [1.0, 0.0, 0.0, 1.0]]
    ensures Rref(Augmented(Swapped(), 2), 4, Exact()) == Augmented(Swapped(), 2)
  {
    var a: Grid := [[0.0, 1.0, 1.0, 0.0], [1.0, 0.0, 0.0, 1.0]];
    var A := Augmented(Swapped(), 2);
    assert A[0] == a[0] && A[1] == a[1];
    FindPivotAt(a[0], 0, 1, IsZero);
    SettledPivotStep(a, 4, 0, 1);
    ForwardStep(a, 4, 0, 0, IsZero, 1, a, 1);
    FindPivotAt(a[1], 1, 3, IsZero);
    SettledPivotStep(a, 4, 1, 3);
    ForwardStep(a, 4, 1, 1, IsZero, 3, a, 2);
    FindPivotAt(a[1], 0, 0, IsZero);
    FindPivotAt(a[0], 0, 1, IsZero);
    assert SettledRow(a, 4, 0, IsZero) && SettledRow(a, 4, 1, IsZero);
    SettledBackward(a, 4, 1, IsZero);
  }

  /** `inverse()` of [[0, 1], [1, 0]] is the identity: with no row swaps the
      reduced [M | I] keeps M on the left, its last row does not vanish
      there, and the right half is I, which is not the inverse of M. */
  lemma SwappedInverse()
    ensures InverseOf(Swapped(), 2, 2, Exact()) == Ok(Some(Identity(2)))
    ensures Product(Swapped(), 2, Identity(2), 2) != Identity(2)
  {
    SwappedAugmentedReduced();
    var R := Augmented(Swapped(), 2);
    InverseFromReduced(Swapped(), 2, Exact(), R);
    FindPivotAt(R[1][..2], 0, 0, IsZero);
    var h := RightHalf(R, 2);
    var I := Identity(2);
    forall i, j | 0 <= i < 2 && 0 <= j < 2
      ensures h[i][j] == I[i][j]
    {
    }
    GridExt(h, I, 2);
    var M := Swapped();
    assert DotEntry(M, I, 0, 0, 2) == 0.0 by {
      assert DotEntry(M, I, 0, 0, 1) == 0.0;
    }
    assert Product(M, 2, I, 2)[0][0] != I[0][0];
  }
}
