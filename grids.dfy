/** Value-level view of a dense matrix: a row-major grid of reals, and the
    plain operations on grids (fill, transpose, dot product, sum,
    entrywise maps) that the matrix class computes with its loops. */
module Grids {

  /** `g[i][j]` is the entry in row `i`, column `j`. */
  type Grid = seq<seq<real>>

  /** Every row of `g` has exactly `cols` entries. */
  predicate Rect(g: Grid, cols: nat)
  {
    forall i | 0 <= i < |g| :: |g[i]| == cols
  }

  /** The grid held by a two-dimensional array. */
  ghost function ArrayGrid(a: array2<real>): (g: Grid)
    reads a
    ensures |g| == a.Length0 && Rect(g, a.Length1)
    ensures forall i, j | 0 <= i < a.Length0 && 0 <= j < a.Length1 :: g[i][j] == a[i, j]
  {
    seq(a.Length0, i requires 0 <= i < a.Length0 reads a =>
      seq(a.Length1, j requires 0 <= j < a.Length1 reads a => a[i, j]))
  }

  /** Two rectangular grids of the same shape are equal when their entries are. */
  lemma GridExt(g: Grid, h: Grid, cols: nat)
    requires Rect(g, cols) && Rect(h, cols) && |g| == |h|
    requires forall i, j | 0 <= i < |g| && 0 <= j < cols :: g[i][j] == h[i][j]
    ensures g == h
  {
    forall i | 0 <= i < |g| ensures g[i] == h[i] {
      assert forall j | 0 <= j < cols :: g[i][j] == h[i][j];
    }
  }

  /** An r-by-c grid whose entry (i, j) is `f(i, j)` (the generator constructor). */
  function Generated(r: nat, c: nat, f: (nat, nat) -> real): (g: Grid)
    ensures |g| == r && Rect(g, c)
    ensures forall i, j | 0 <= i < r && 0 <= j < c :: g[i][j] == f(i, j)
  {
    seq(r, i requires 0 <= i < r => seq(c, j requires 0 <= j < c => f(i, j)))
  }

  /** An r-by-c grid with every entry `v`. */
  function Filled(r: nat, c: nat, v: real): (g: Grid)
    ensures |g| == r && Rect(g, c)
    ensures forall i, j | 0 <= i < r && 0 <= j < c :: g[i][j] == v
  {
    seq(r, _ => seq(c, _ => v))
  }

  /** The n-by-n identity. */
  function Identity(n: nat): (g: Grid)
    ensures |g| == n && Rect(g, n)
    ensures forall i, j | 0 <= i < n && 0 <= j < n :: g[i][j] == if i == j then 1.0 else 0.0
  {
    seq(n, i => seq(n, j => if i == j then 1.0 else 0.0))
  }

  /** The copy of `g` whose entry (i, j) is `v` (`set`). */
  function WithCell(g: Grid, i: nat, j: nat, v: real): (r: Grid)
    requires i < |g| && j < |g[i]|
    ensures |r| == |g| && forall x | 0 <= x < |g| :: |r[x]| == |g[x]|
    ensures r[i][j] == v
    ensures forall x, y | 0 <= x < |g| && 0 <= y < |g[x]| && (x, y) != (i, j) :: r[x][y] == g[x][y]
  {
    g[i := g[i][j := v]]
  }

  /** Setting a cell twice keeps only the second value. */
  lemma WithCellTwice(g: Grid, i: nat, j: nat, v: real, w: real)
    requires i < |g| && j < |g[i]|
    ensures WithCell(WithCell(g, i, j, v), i, j, w) == WithCell(g, i, j, w)
  {
    assert WithCell(g, i, j, v)[i][j := w] == g[i][j := w];
  }

  /** Setting a cell to the value it holds changes nothing. */
  lemma WithCellSame(g: Grid, i: nat, j: nat)
    requires i < |g| && j < |g[i]|
    ensures WithCell(g, i, j, g[i][j]) == g
  {
    assert g[i][j := g[i][j]] == g[i];
  }

  /** The transpose of an r-by-cols grid: a cols-by-r grid with T[j][i] == g[i][j]. */
  function Transposed(g: Grid, cols: nat): (t: Grid)
    requires Rect(g, cols)
    ensures |t| == cols && Rect(t, |g|)
    ensures forall j, i | 0 <= j < cols && 0 <= i < |g| :: t[j][i] == g[i][j]
  {
    seq(cols, j requires 0 <= j < cols => seq(|g|, i requires 0 <= i < |g| => g[i][j]))
  }

  /** Transposing twice gives the grid back. */
  lemma TransposeInvolutive(g: Grid, cols: nat)
    requires Rect(g, cols)
    ensures Transposed(Transposed(g, cols), |g|) == g
  {
    GridExt(Transposed(Transposed(g, cols), |g|), g, cols);
  }

  /** The sum a[i][0]*b[0][j] + ... + a[i][n-1]*b[n-1][j], accumulated left to right from 0. */
  function DotEntry(a: Grid, b: Grid, i: nat, j: nat, n: nat): real
    requires i < |a| && n <= |a[i]| && n <= |b|
    requires forall k | 0 <= k < n :: j < |b[k]|
    decreases n
  {
    if n == 0 then 0.0 else DotEntry(a, b, i, j, n - 1) + a[i][n - 1] * b[n - 1][j]
  }

  /** The matrix product of an r-by-n grid and an n-by-m grid. */
  function Product(a: Grid, n: nat, b: Grid, m: nat): (p: Grid)
    requires Rect(a, n) && |b| == n && Rect(b, m)
    ensures |p| == |a| && Rect(p, m)
    ensures forall i, j | 0 <= i < |a| && 0 <= j < m :: p[i][j] == DotEntry(a, b, i, j, n)
  {
    seq(|a|, i requires 0 <= i < |a| => seq(m, j requires 0 <= j < m => DotEntry(a, b, i, j, n)))
  }

  lemma {:induction false} DotEntrySwap(a: Grid, n: nat, b: Grid, m: nat, i: nat, j: nat, k: nat)
    requires Rect(a, n) && |b| == n && Rect(b, m) && i < |a| && j < m && k <= n
    ensures DotEntry(Transposed(b, m), Transposed(a, n), j, i, k) == DotEntry(a, b, i, j, k)
  {
    if k > 0 {
      DotEntrySwap(a, n, b, m, i, j, k - 1);
    }
  }

  /** (A B)^T == B^T A^T. */
  lemma ProductTranspose(a: Grid, n: nat, b: Grid, m: nat)
    requires Rect(a, n) && |b| == n && Rect(b, m)
    ensures Transposed(Product(a, n, b, m), m) == Product(Transposed(b, m), n, Transposed(a, n), |a|)
  {
    var lhs := Transposed(Product(a, n, b, m), m);
    var rhs := Product(Transposed(b, m), n, Transposed(a, n), |a|);
    forall j, i | 0 <= j < m && 0 <= i < |a| ensures lhs[j][i] == rhs[j][i] {
      DotEntrySwap(a, n, b, m, i, j, n);
    }
    GridExt(lhs, rhs, |a|);
  }

  lemma {:induction false} DotEntryIdentity(r: nat, b: Grid, m: nat, i: nat, j: nat, k: nat)
    requires |b| == r && Rect(b, m) && i < r && j < m && k <= r
    ensures DotEntry(Identity(r), b, i, j, k) == if i < k then b[i][j] else 0.0
  {
    if k > 0 {
      DotEntryIdentity(r, b, m, i, j, k - 1);
    }
  }

  /** I B == B. */
  lemma ProductIdentity(b: Grid, m: nat)
    requires Rect(b, m)
    ensures Product(Identity(|b|), |b|, b, m) == b
  {
    var p := Product(Identity(|b|), |b|, b, m);
    forall i, j | 0 <= i < |b| && 0 <= j < m ensures p[i][j] == b[i][j] {
      DotEntryIdentity(|b|, b, m, i, j, |b|);
    }
    GridExt(p, b, m);
  }

  /** row[0] + ... + row[n-1], accumulated left to right from 0. */
  function RowTotal(row: seq<real>, n: nat): real
    requires n <= |row|
  {
    if n == 0 then 0.0 else RowTotal(row, n - 1) + row[n - 1]
  }

  /** The sum of the first `r` rows of `g`, row by row (`sum`). */
  function Total(g: Grid, r: nat): real
    requires r <= |g|
  {
    if r == 0 then 0.0 else Total(g, r - 1) + RowTotal(g[r - 1], |g[r - 1]|)
  }

  /** The grid with `f` applied to every entry (unary `operate`). */
  function Mapped(g: Grid, f: real -> real): (r: Grid)
    ensures |r| == |g| && forall i | 0 <= i < |g| :: |r[i]| == |g[i]|
    ensures forall i, j | 0 <= i < |g| && 0 <= j < |g[i]| :: r[i][j] == f(g[i][j])
  {
    seq(|g|, i requires 0 <= i < |g| => seq(|g[i]|, j requires 0 <= j < |g[i]| => f(g[i][j])))
  }

  /** The grid combining `a` and `b` entry by entry with `f` (binary `operate`). */
  function Zipped(a: Grid, b: Grid, cols: nat, f: (real, real) -> real): (r: Grid)
    requires Rect(a, cols) && Rect(b, cols) && |a| == |b|
    ensures |r| == |a| && Rect(r, cols)
    ensures forall i, j | 0 <= i < |a| && 0 <= j < cols :: r[i][j] == f(a[i][j], b[i][j])
  {
    seq(|a|, i requires 0 <= i < |a| => seq(cols, j requires 0 <= j < cols => f(a[i][j], b[i][j])))
  }

  // The entry functions behind the named operations.
  function Neg(x: real): real { -x }
  function OneMinus(x: real): real { 1.0 - x }
  function Square(x: real): real { x * x }
  function Abs(x: real): real { if x < 0.0 then -x else x }
  function Plus(x: real, y: real): real { x + y }
  function Minus(x: real, y: real): real { x - y }
  function Times(x: real, y: real): real { x * y }

  lemma {:induction false} RowTotalZipped(a: seq<real>, b: seq<real>, n: nat)
    requires n <= |a| && n <= |b|
    ensures RowTotal(seq(n, j requires 0 <= j < n => a[j] + b[j]), n) == RowTotal(a, n) + RowTotal(b, n)
  {
    if n > 0 {
      var s := seq(n, j requires 0 <= j < n => a[j] + b[j]);
      var s' := seq(n - 1, j requires 0 <= j < n - 1 => a[j] + b[j]);
      RowTotalPrefix(s, s', n - 1);
      RowTotalZipped(a, b, n - 1);
    }
  }

  lemma {:induction false} RowTotalPrefix(s: seq<real>, t: seq<real>, n: nat)
    requires n <= |s| && n <= |t| && s[..n] == t[..n]
    ensures RowTotal(s, n) == RowTotal(t, n)
  {
    if n > 0 {
      assert s[..n - 1] == t[..n - 1] by {
        assert s[..n - 1] == s[..n][..n - 1];
        assert t[..n - 1] == t[..n][..n - 1];
      }
      assert s[n - 1] == s[..n][n - 1];
      assert t[n - 1] == t[..n][n - 1];
      RowTotalPrefix(s, t, n - 1);
    }
  }

  /** The sum of the entrywise sum is the sum of the sums. */
  lemma {:induction false} TotalOfSum(a: Grid, b: Grid, cols: nat, r: nat)
    requires Rect(a, cols) && Rect(b, cols) && |a| == |b| && r <= |a|
    ensures Total(Zipped(a, b, cols, Plus), r) == Total(a, r) + Total(b, r)
  {
    if r > 0 {
      TotalOfSum(a, b, cols, r - 1);
      var z := Zipped(a, b, cols, Plus);
      assert z[r - 1] == seq(cols, j requires 0 <= j < cols => a[r - 1][j] + b[r - 1][j]);
      RowTotalZipped(a[r - 1], b[r - 1], cols);
    }
  }

  /** Negating twice gives the grid back. */
  lemma NegateInvolutive(g: Grid)
    ensures Mapped(Mapped(g, Neg), Neg) == g
  {
    var h := Mapped(Mapped(g, Neg), Neg);
    forall i | 0 <= i < |g| ensures h[i] == g[i] {
      assert forall j | 0 <= j < |g[i]| :: h[i][j] == g[i][j];
    }
  }

  /** `oneMinus` applied twice gives the grid back. */
  lemma OneMinusInvolutive(g: Grid)
    ensures Mapped(Mapped(g, OneMinus), OneMinus) == g
  {
    var h := Mapped(Mapped(g, OneMinus), OneMinus);
    forall i | 0 <= i < |g| ensures h[i] == g[i] {
      assert forall j | 0 <= j < |g[i]| :: h[i][j] == g[i][j];
    }
  }

  /** `minus` undoes `add`. */
  lemma MinusUndoesAdd(a: Grid, b: Grid, cols: nat)
    requires Rect(a, cols) && Rect(b, cols) && |a| == |b|
    ensures Zipped(Zipped(a, b, cols, Plus), b, cols, Minus) == a
  {
    GridExt(Zipped(Zipped(a, b, cols, Plus), b, cols, Minus), a, cols);
  }

  /** Entry-by-entry comparison of two same-shaped grids with the entry test `eq`. */
  predicate AllClose(a: Grid, b: Grid, cols: nat, eq: (real, real) -> bool)
    requires Rect(a, cols) && Rect(b, cols) && |a| == |b|
  {
    forall i, j | 0 <= i < |a| && 0 <= j < cols :: eq(a[i][j], b[i][j])
  }
}
