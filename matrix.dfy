/** The two matrix classes of the library, `Matrix` (float entries) and
    `AccurateMatrix` (double entries), as one class over a two-dimensional
    array. Every operation but the memoised ones builds a fresh matrix and
    leaves the receiver alone; the memo fields (`transposedMatrix`, `sum`,
    and for AccurateMatrix `rank` and `nullSpace`) are the only state that
    ever changes. */
module Matrices {
  import opened Failures
  import opened Grids
  import Environment
  import opened Elimination
  import Derived

  /** Which of the two classes a matrix is. */
  datatype Precision =
    /** `Matrix`: float entries, `isStrictZero`/`isZero`, `equals(float, float)`. */
    | Float
    /** `AccurateMatrix`: double entries, `doubleLooselyEquals` for every test. */
    | Double

  /** `doubleLooselyEquals(x, 0.0)`, the zero test of AccurateMatrix. */
  function LooselyZero(tests: Environment.ZeroTests): real -> bool
  {
    x => tests.doubleLooselyEquals(x, 0.0)
  }

  class Matrix {
    const rows: nat
    const columns: nat
    const precision: Precision
    /** The zero tests of the library's helper class, which every matrix calls. */
    const tests: Environment.ZeroTests
    const values: array2<real>
    var transposedMatrix: Matrix?
    var sumCache: Option<real>
    /** AccurateMatrix only. */
    var rankCache: Option<nat>
    /** AccurateMatrix only. */
    var nullSpaceCache: Matrix?

    /** The storage has the recorded shape, and the zero tests count 0 as zero. */
    predicate Shaped()
    {
      values.Length0 == rows && values.Length1 == columns && tests.AcceptsZero()
    }

    /** No memo field has been written yet. */
    predicate NoCaches()
      reads this
    {
      transposedMatrix == null && sumCache.None? && rankCache.None? && nullSpaceCache == null
    }

    /** `other` has this matrix's shape, class and zero tests. */
    ghost predicate Like(other: Matrix)
    {
      other.rows == rows && other.columns == columns && other.precision == precision && other.tests == tests
    }

    /** The entries, row by row. */
    ghost function Entries(): Grid
      reads values
    {
      ArrayGrid(values)
    }

    /** The zero tests the elimination of this class uses. */
    function Policy(): (p: ZeroPolicy)
      ensures tests.AcceptsZero() ==> p.BothCountZero()
    {
      match precision
      case Float => ZeroPolicy(tests.isStrictZero, tests.isZero)
      case Double => ZeroPolicy(LooselyZero(tests), LooselyZero(tests))
    }

    /** The entry comparison of `equals`. */
    function EntryEquals(): (real, real) -> bool
    {
      match precision
      case Float => Environment.FloatEquals
      case Double => tests.doubleLooselyEquals
    }

    ghost function CacheArrays(): set<object>
      reads this
    {
      (if transposedMatrix != null then {transposedMatrix.values} else {})
      + (if nullSpaceCache != null then {nullSpaceCache.values} else {})
    }

    /** The memo fields agree with the entries: the transpose, the sum,
        the rank (cached only when it equals the number of rows) and the
        null space as far as its fill got. */
    ghost predicate Valid()
      reads this, values, CacheArrays()
    {
      && Shaped()
      && (transposedMatrix != null ==>
            && transposedMatrix.Shaped()
            && transposedMatrix.rows == columns && transposedMatrix.columns == rows
            && transposedMatrix.precision == Float && transposedMatrix.tests == tests
            && transposedMatrix.Entries() == Transposed(Entries(), columns))
      && (sumCache.Some? ==> sumCache.value == Total(Entries(), rows))
      && RankMemoHolds(rankCache)
      && NullSpaceMemoHolds(nullSpaceCache)
    }

    /** The rank memo (AccurateMatrix only) is set only to a rank equal to
        the number of rows. */
    ghost predicate RankCacheValid()
      reads this, values
    {
      RankMemoHolds(rankCache)
    }

    /** What a rank memo may hold: the rank, and only when it is the number
        of rows of a matrix with double precision. */
    ghost predicate RankMemoHolds(cache: Option<nat>)
      reads values
    {
      && Shaped()
      && (cache.Some? ==>
            precision == Double && cache.value == rows && Derived.Rank(Entries(), columns, Policy()) == rows)
    }

    /** The null-space memo (AccurateMatrix only) holds what the fill had
        written when the call that allocated it ended. */
    ghost predicate NullSpaceCacheValid()
      reads this, values, if nullSpaceCache != null then {nullSpaceCache.values} else {}
    {
      NullSpaceMemoHolds(nullSpaceCache)
    }

    /** What a null-space memo may hold. */
    ghost predicate NullSpaceMemoHolds(cache: Matrix?)
      reads values, if cache != null then {cache.values} else {}
    {
      && Shaped()
      && (cache != null ==>
            && precision == Double
            && cache.Shaped()
            && cache.precision == Double && cache.tests == tests
            && NullSpaceCacheHolds(Entries(), columns, Policy(), cache.rows, cache.columns, cache.Entries()))
    }

    // -------------------------------------------------------------------
    // Constructors

    /** The generator constructor: entry (i, j) is `f(i, j)`. */
    constructor Generate(r: nat, c: nat, f: (nat, nat) -> real, precision: Precision, tests: Environment.ZeroTests)
      requires tests.AcceptsZero()
      ensures Shaped() && NoCaches() && fresh(values)
      ensures this.rows == r && this.columns == c && this.precision == precision && this.tests == tests
      ensures Entries() == Generated(r, c, f)
    {
      rows, columns := r, c;
      this.precision, this.tests := precision, tests;
      var a := NewArray(r, c, f);
      values := a;
      transposedMatrix, sumCache, rankCache, nullSpaceCache := null, None, None, null;
    }

    /** The fill constructor. Matrix passes a generator returning 0 and so
        ignores `value`; AccurateMatrix fills with `value`. */
    constructor Fill(r: nat, c: nat, value: real, precision: Precision, tests: Environment.ZeroTests)
      requires tests.AcceptsZero()
      ensures Shaped() && NoCaches() && fresh(values)
      ensures this.rows == r && this.columns == c && this.precision == precision && this.tests == tests
      ensures precision == Float ==> Entries() == Filled(r, c, 0.0)
      ensures precision == Double ==> Entries() == Filled(r, c, value)
    {
      rows, columns := r, c;
      this.precision, this.tests := precision, tests;
      var v := if precision == Float then 0.0 else value;
      var a := NewArray(r, c, (_, _) => v);
      values := a;
      transposedMatrix, sumCache, rankCache, nullSpaceCache := null, None, None, null;
      GridExt(Generated(r, c, (_, _) => v), Filled(r, c, v), c);
    }

    /** The shape constructor: all entries 0. */
    constructor Zero(r: nat, c: nat, precision: Precision, tests: Environment.ZeroTests)
      requires tests.AcceptsZero()
      ensures Shaped() && NoCaches() && fresh(values)
      ensures this.rows == r && this.columns == c && this.precision == precision && this.tests == tests
      ensures Entries() == Filled(r, c, 0.0)
    {
      rows, columns := r, c;
      this.precision, this.tests := precision, tests;
      var a := NewArray(r, c, (_, _) => 0.0);
      values := a;
      transposedMatrix, sumCache, rankCache, nullSpaceCache := null, None, None, null;
      GridExt(Generated(r, c, (_, _) => 0.0), Filled(r, c, 0.0), c);
    }

    /** A matrix over storage already copied from a grid literal. */
    constructor Wrap(a: array2<real>, precision: Precision, tests: Environment.ZeroTests)
      requires tests.AcceptsZero()
      ensures Shaped() && NoCaches() && values == a
      ensures this.rows == a.Length0 && this.columns == a.Length1 && this.precision == precision && this.tests == tests
    {
      rows, columns := a.Length0, a.Length1;
      this.precision, this.tests := precision, tests;
      values := a;
      transposedMatrix, sumCache, rankCache, nullSpaceCache := null, None, None, null;
    }

    /** The row and column loops of the generator constructor. */
    static method NewArray(r: nat, c: nat, f: (nat, nat) -> real) returns (a: array2<real>)
      ensures fresh(a) && a.Length0 == r && a.Length1 == c
      ensures ArrayGrid(a) == Generated(r, c, f)
    {
      a := new real[r, c];
      for i := 0 to r
        invariant forall x, y | 0 <= x < i && 0 <= y < c :: a[x, y] == f(x, y)
      {
        for j := 0 to c
          invariant forall x, y | 0 <= x < i && 0 <= y < c :: a[x, y] == f(x, y)
          invariant forall y | 0 <= y < j :: a[i, y] == f(i, y)
        {
          a[i, j] := f(i, j);
        }
      }
      GridExt(ArrayGrid(a), Generated(r, c, f), c);
    }

    /** The grid-literal constructors: the literal is copied by the helper
        class's `clone`, which rejects a literal without rows and fails on
        a row shorter than the first; AccurateMatrix rejects a literal
        without rows itself before copying. */
    static method FromGrid(literal: seq<seq<real>>, precision: Precision, tests: Environment.ZeroTests)
      returns (r: Result<Matrix>)
      requires tests.AcceptsZero()
      ensures r.Err? <==> Environment.Cloned(literal).Err?
      ensures r.Err? ==> r.error == Environment.Cloned(literal).error
      ensures |literal| == 0 ==> r == Err(InvalidShape)
      ensures r.Ok? ==> fresh(r.value) && r.value.Shaped() && r.value.NoCaches()
      ensures r.Ok? ==> r.value.rows == |literal| && r.value.columns == |literal[0]|
      ensures r.Ok? ==> r.value.precision == precision && r.value.tests == tests
      ensures r.Ok? ==> r.value.Entries() == Environment.Cloned(literal).value
    {
      if precision == Double && |literal| == 0 {
        return Err(InvalidShape);
      }
      var copied := Environment.Clone(literal);
      if copied.Err? {
        return Err(copied.error);
      }
      var m := new Matrix.Wrap(copied.value, precision, tests);
      return Ok(m);
    }

    /** `Matrix(int[][])`: the literal is converted entry by entry. */
    static method FromIntGrid(literal: seq<seq<int>>, tests: Environment.ZeroTests) returns (r: Result<Matrix>)
      requires tests.AcceptsZero()
      ensures r.Err? <==> Environment.Converted(literal).Err?
      ensures r.Err? ==> r.error == Environment.Converted(literal).error
      ensures r.Ok? ==> fresh(r.value) && r.value.Shaped() && r.value.NoCaches()
      ensures r.Ok? ==> r.value.rows == |literal| && r.value.columns == |literal[0]|
      ensures r.Ok? ==> r.value.precision == Float && r.value.tests == tests
      ensures r.Ok? ==> r.value.Entries() == Environment.Converted(literal).value
    {
      var copied := Environment.CloneInts(literal);
      if copied.Err? {
        return Err(copied.error);
      }
      var m := new Matrix.Wrap(copied.value, Float, tests);
      return Ok(m);
    }

    // -------------------------------------------------------------------
    // Reading, copying, setting

    /** `get(i, j)`: the entry, or a failure outside the grid. */
    function Get(i: int, j: int): (r: Result<real>)
      requires Shaped()
      reads values
      ensures r.Ok? <==> 0 <= i < rows && 0 <= j < columns
      ensures r.Err? ==> r.error == IndexOutOfRange
      ensures r.Ok? ==> r.value == Entries()[i][j]
    {
      if 0 <= i < rows && 0 <= j < columns then Ok(values[i, j]) else Err(IndexOutOfRange)
    }

    /** `clone()`: a fresh matrix of the same class with the same entries. */
    method Clone() returns (r: Matrix)
      requires Shaped()
      ensures fresh(r) && fresh(r.values) && r.Shaped() && r.NoCaches() && Like(r)
      ensures r.Entries() == Entries()
    {
      r := new Matrix.Zero(rows, columns, precision, tests);
      for i := 0 to rows
        modifies r.values
        invariant forall x, y | 0 <= x < i && 0 <= y < columns :: r.values[x, y] == values[x, y]
      {
        for j := 0 to columns
          modifies r.values
          invariant forall x, y | 0 <= x < i && 0 <= y < columns :: r.values[x, y] == values[x, y]
          invariant forall y | 0 <= y < j :: r.values[i, y] == values[i, y]
        {
          r.values[i, j] := values[i, j];
        }
      }
      GridExt(r.Entries(), Entries(), columns);
    }

    /** `set(i, j, v)`: a copy with entry (i, j) replaced; the receiver
        keeps its entries. */
    method Set(i: int, j: int, v: real) returns (r: Result<Matrix>)
      requires Shaped()
      ensures r.Ok? <==> 0 <= i < rows && 0 <= j < columns
      ensures r.Err? ==> r.error == IndexOutOfRange
      ensures r.Ok? ==> fresh(r.value) && r.value.Shaped() && r.value.NoCaches() && Like(r.value)
      ensures r.Ok? ==> r.value.Entries() == WithCell(Entries(), i, j, v)
    {
      var answer := Clone();
      if !(0 <= i < rows && 0 <= j < columns) {
        return Err(IndexOutOfRange);
      }
      answer.values[i, j] := v;
      GridExt(answer.Entries(), WithCell(Entries(), i, j, v), columns);
      return Ok(answer);
    }

    // -------------------------------------------------------------------
    // Product, transpose, sum

    /** `dot(m)`: the matrix product, a fresh Matrix. */
    method Dot(m: Matrix) returns (r: Result<Matrix>)
      requires Shaped() && m.Shaped()
      ensures r.Err? <==> columns != m.rows
      ensures r.Err? ==> r.error == DimensionMismatch(rows, columns, m.rows, m.columns)
      ensures r.Ok? ==> fresh(r.value) && r.value.Shaped() && r.value.NoCaches()
      ensures r.Ok? ==> r.value.rows == rows && r.value.columns == m.columns
      ensures r.Ok? ==> r.value.precision == Float && r.value.tests == tests
      ensures r.Ok? ==> r.value.Entries() == Product(Entries(), columns, m.Entries(), m.columns)
    {
      if columns != m.rows {
        return Err(DimensionMismatch(rows, columns, m.rows, m.columns));
      }
      var product := ProductArray(values, m.values);
      var answer := new Matrix.Wrap(product, Float, tests);
      return Ok(answer);
    }

    /** The row and column loops of `dot`, filling a fresh array. */
    static method ProductArray(a: array2<real>, b: array2<real>) returns (p: array2<real>)
      requires a.Length1 == b.Length0
      ensures fresh(p) && p.Length0 == a.Length0 && p.Length1 == b.Length1
      ensures ArrayGrid(p) == Product(ArrayGrid(a), a.Length1, ArrayGrid(b), b.Length1)
    {
      ghost var P := Product(ArrayGrid(a), a.Length1, ArrayGrid(b), b.Length1);
      p := new real[a.Length0, b.Length1];
      for i := 0 to a.Length0
        invariant forall x, y | 0 <= x < i && 0 <= y < b.Length1 :: p[x, y] == P[x][y]
      {
        ProductRow(p, a, b, i, P);
      }
      GridExt(ArrayGrid(p), P, b.Length1);
    }

    /** The column loop of `dot` for row i: row i of `p` becomes row i of
        the product, every other row is left as it was. */
    static method ProductRow(p: array2<real>, a: array2<real>, b: array2<real>, i: nat, ghost P: Grid)
      requires p != a && p != b && a.Length1 == b.Length0
      requires p.Length0 == a.Length0 && p.Length1 == b.Length1 && i < a.Length0
      requires P == Product(ArrayGrid(a), a.Length1, ArrayGrid(b), b.Length1)
      modifies p
      ensures forall y | 0 <= y < b.Length1 :: p[i, y] == P[i][y]
      ensures forall x, y | 0 <= x < p.Length0 && x != i && 0 <= y < p.Length1 :: p[x, y] == old(p[x, y])
    {
      for j := 0 to b.Length1
        invariant forall x, y | 0 <= x < p.Length0 && x != i && 0 <= y < p.Length1 :: p[x, y] == old(p[x, y])
        invariant forall y | 0 <= y < j :: p[i, y] == P[i][y]
      {
        var sum := RowTimesColumn(a, b, i, j);
        p[i, j] := sum;
      }
    }

    /** The innermost loop of `dot`: row i of `a` times column j of `b`,
        added from left to right. */
    static method RowTimesColumn(a: array2<real>, b: array2<real>, i: nat, j: nat) returns (sum: real)
      requires i < a.Length0 && a.Length1 == b.Length0 && j < b.Length1
      ensures sum == DotEntry(ArrayGrid(a), ArrayGrid(b), i, j, a.Length1)
    {
      sum := 0.0;
      for k := 0 to a.Length1
        invariant sum == DotEntry(ArrayGrid(a), ArrayGrid(b), i, j, k)
      {
        sum := sum + a[i, k] * b[k, j];
      }
    }

    /** `transpose()`: the first call fills a fresh Matrix and memoises it;
        every later call returns that same matrix. */
    method Transpose() returns (r: Matrix)
      requires Valid()
      modifies this
      ensures Valid()
      ensures r.Shaped() && r.rows == columns && r.columns == rows && r.precision == Float && r.tests == tests
      ensures r.Entries() == Transposed(Entries(), columns)
      ensures old(transposedMatrix) != null ==> r == old(transposedMatrix)
      ensures old(transposedMatrix) == null ==> fresh(r) && r.Shaped() && r.NoCaches()
      ensures transposedMatrix == r
      ensures sumCache == old(sumCache) && rankCache == old(rankCache) && nullSpaceCache == old(nullSpaceCache)
    {
      if transposedMatrix != null {
        return transposedMatrix;
      }
      var flipped := TransposedArray(values);
      var t := new Matrix.Wrap(flipped, Float, tests);
      transposedMatrix := t;
      return t;
    }

    /** The loops of `transpose()`: entry (i, j) copied to (j, i) of a
        fresh array. */
    static method TransposedArray(a: array2<real>) returns (b: array2<real>)
      ensures fresh(b) && b.Length0 == a.Length1 && b.Length1 == a.Length0
      ensures ArrayGrid(b) == Transposed(ArrayGrid(a), a.Length1)
    {
      b := new real[a.Length1, a.Length0]((_, _) => 0.0);
      for i := 0 to a.Length0
        invariant forall x, y | 0 <= x < i && 0 <= y < a.Length1 :: b[y, x] == a[x, y]
      {
        for j := 0 to a.Length1
          invariant forall x, y | 0 <= x < i && 0 <= y < a.Length1 :: b[y, x] == a[x, y]
          invariant forall y | 0 <= y < j :: b[y, i] == a[i, y]
        {
          b[j, i] := a[i, j];
        }
      }
      GridExt(ArrayGrid(b), Transposed(ArrayGrid(a), a.Length1), a.Length0);
    }

    /** `sum()`: the entries added row by row into the memo field, which
        later calls return. */
    method Sum() returns (s: real)
      requires Valid()
      modifies this
      ensures Valid()
      ensures s == Total(Entries(), rows)
      ensures sumCache == Some(s)
      ensures transposedMatrix == old(transposedMatrix) && rankCache == old(rankCache) && nullSpaceCache == old(nullSpaceCache)
    {
      if sumCache.Some? {
        return sumCache.value;
      }
      var total := EntryTotal(values);
      sumCache := Some(total);
      return sumCache.value;
    }

    /** The loops of `sum`: every entry added, row by row, left to right. */
    static method EntryTotal(a: array2<real>) returns (s: real)
      ensures s == Total(ArrayGrid(a), a.Length0)
    {
      ghost var g := ArrayGrid(a);
      s := 0.0;
      for i := 0 to a.Length0
        invariant s == Total(g, i)
      {
        for j := 0 to a.Length1
          invariant s == Total(g, i) + RowTotal(g[i], j)
        {
          s := s + a[i, j];
        }
        assert |g[i]| == a.Length1;
      }
    }

    // -------------------------------------------------------------------
    // Equality and entrywise operations

    /** `sameDimension(m)`. */
    predicate SameDimension(m: Matrix)
    {
      rows == m.rows && columns == m.columns
    }

    /** `equals(obj)`: false for a missing matrix, for a Matrix compared by
        an AccurateMatrix and for another shape; otherwise true exactly
        when every pair of entries passes this class's comparison. */
    method Equals(other: Matrix?) returns (b: bool)
      requires Shaped() && (other != null ==> other.Shaped())
      ensures b <==>
        && other != null
        && (precision == Double ==> other.precision == Double)
        && SameDimension(other)
        && AllClose(Entries(), other.Entries(), columns, EntryEquals())
    {
      if other == null || (precision == Double && other.precision != Double) {
        return false;
      }
      if !SameDimension(other) {
        return false;
      }
      var eq := EntryEquals();
      for i := 0 to rows
        invariant forall x, y | 0 <= x < i && 0 <= y < columns :: eq(values[x, y], other.values[x, y])
      {
        for j := 0 to columns
          invariant forall x, y | 0 <= x < i && 0 <= y < columns :: eq(values[x, y], other.values[x, y])
          invariant forall y | 0 <= y < j :: eq(values[i, y], other.values[i, y])
        {
          if !eq(values[i, j], other.values[i, j]) {
            return false;
          }
        }
      }
      return true;
    }

    /** `operate(f)`: without a function the receiver itself; otherwise a
        fresh Matrix with `f` applied to every entry. */
    method Operate(f: Option<real -> real>) returns (r: Matrix)
      requires Shaped()
      ensures f.None? ==> r == this
      ensures f.Some? ==> fresh(r) && r.Shaped() && r.NoCaches() && r.SameDimension(this) && r.precision == Float && r.tests == tests
      ensures f.Some? ==> r.Entries() == Mapped(Entries(), f.value)
    {
      if f.None? {
        return this;
      }
      var mapped := MappedArray(values, f.value);
      r := new Matrix.Wrap(mapped, Float, tests);
    }

    /** The loops of `operate(f)`: `f` applied to every entry, into a fresh
        array. */
    static method MappedArray(a: array2<real>, f: real -> real) returns (b: array2<real>)
      ensures fresh(b) && b.Length0 == a.Length0 && b.Length1 == a.Length1
      ensures ArrayGrid(b) == Mapped(ArrayGrid(a), f)
    {
      b := new real[a.Length0, a.Length1]((_, _) => 0.0);
      for i := 0 to a.Length0
        invariant forall x, y | 0 <= x < i && 0 <= y < a.Length1 :: b[x, y] == f(a[x, y])
      {
        for j := 0 to a.Length1
          invariant forall x, y | 0 <= x < i && 0 <= y < a.Length1 :: b[x, y] == f(a[x, y])
          invariant forall y | 0 <= y < j :: b[i, y] == f(a[i, y])
        {
          b[i, j] := f(a[i, j]);
        }
      }
      GridExt(ArrayGrid(b), Mapped(ArrayGrid(a), f), a.Length1);
    }

    /** `operate(f, m)`: another shape fails; otherwise a fresh Matrix
        combining the entries pairwise with `f`. */
    method Operate2(f: (real, real) -> real, m: Matrix) returns (r: Result<Matrix>)
      requires Shaped() && m.Shaped()
      ensures r.Err? <==> !SameDimension(m)
      ensures r.Err? ==> r.error == DimensionMismatch(rows, columns, m.rows, m.columns)
      ensures r.Ok? ==> fresh(r.value) && r.value.Shaped() && r.value.NoCaches() && r.value.SameDimension(this)
      ensures r.Ok? ==> r.value.precision == Float && r.value.tests == tests
      ensures r.Ok? ==> r.value.Entries() == Zipped(Entries(), m.Entries(), columns, f)
    {
      if !SameDimension(m) {
        return Err(DimensionMismatch(rows, columns, m.rows, m.columns));
      }
      var zipped := ZippedArray(values, m.values, f);
      var answer := new Matrix.Wrap(zipped, Float, tests);
      return Ok(answer);
    }

    /** The loops of `operate(f, m)`: `f` applied to each pair of entries
        of two arrays of one shape, into a fresh array. */
    static method ZippedArray(a: array2<real>, b: array2<real>, f: (real, real) -> real) returns (c: array2<real>)
      requires a.Length0 == b.Length0 && a.Length1 == b.Length1
      ensures fresh(c) && c.Length0 == a.Length0 && c.Length1 == a.Length1
      ensures ArrayGrid(c) == Zipped(ArrayGrid(a), ArrayGrid(b), a.Length1, f)
    {
      c := new real[a.Length0, a.Length1]((_, _) => 0.0);
      for i := 0 to a.Length0
        invariant forall x, y | 0 <= x < i && 0 <= y < a.Length1 :: c[x, y] == f(a[x, y], b[x, y])
      {
        for j := 0 to a.Length1
          invariant forall x, y | 0 <= x < i && 0 <= y < a.Length1 :: c[x, y] == f(a[x, y], b[x, y])
          invariant forall y | 0 <= y < j :: c[i, y] == f(a[i, y], b[i, y])
        {
          c[i, j] := f(a[i, j], b[i, j]);
        }
      }
      GridExt(ArrayGrid(c), Zipped(ArrayGrid(a), ArrayGrid(b), a.Length1, f), a.Length1);
    }

    /** `T()`. */
    method T() returns (r: Matrix)
      requires Valid()
      modifies this
      ensures Valid()
      ensures r.Shaped() && r.rows == columns && r.columns == rows
      ensures r.Entries() == Transposed(Entries(), columns)
    {
      r := Transpose();
    }

    /** `negate()`. */
    method Negate() returns (r: Matrix)
      requires Shaped()
      ensures fresh(r) && r.Shaped() && r.NoCaches() && r.SameDimension(this) && r.Entries() == Mapped(Entries(), Neg)
    {
      r := Operate(Some(Neg));
    }

    /** `mul(value)`: every entry times `value`. */
    method Mul(value: real) returns (r: Matrix)
      requires Shaped()
      ensures fresh(r) && r.Shaped() && r.NoCaches() && r.SameDimension(this)
      ensures forall i, j | 0 <= i < rows && 0 <= j < columns :: r.Entries()[i][j] == Entries()[i][j] * value
    {
      r := Operate(Some(x => x * value));
    }

    /** `sq()`. */
    method Sq() returns (r: Matrix)
      requires Shaped()
      ensures fresh(r) && r.Shaped() && r.NoCaches() && r.SameDimension(this) && r.Entries() == Mapped(Entries(), Square)
    {
      r := Operate(Some(Square));
    }

    /** `oneMinus()`. */
    method OneMinus() returns (r: Matrix)
      requires Shaped()
      ensures fresh(r) && r.Shaped() && r.NoCaches() && r.SameDimension(this) && r.Entries() == Mapped(Entries(), Grids.OneMinus)
    {
      r := Operate(Some(Grids.OneMinus));
    }

    /** `abs()`. */
    method Abs() returns (r: Matrix)
      requires Shaped()
      ensures fresh(r) && r.Shaped() && r.NoCaches() && r.SameDimension(this) && r.Entries() == Mapped(Entries(), Grids.Abs)
    {
      r := Operate(Some(Grids.Abs));
    }

    /** `add(m)`. */
    method Add(m: Matrix) returns (r: Result<Matrix>)
      requires Shaped() && m.Shaped()
      ensures r.Err? <==> !SameDimension(m)
      ensures r.Ok? ==> fresh(r.value) && r.value.Shaped() && r.value.NoCaches() && r.value.Entries() == Zipped(Entries(), m.Entries(), columns, Plus)
    {
      r := Operate2(Plus, m);
    }

    /** `minus(m)`. */
    method Minus(m: Matrix) returns (r: Result<Matrix>)
      requires Shaped() && m.Shaped()
      ensures r.Err? <==> !SameDimension(m)
      ensures r.Ok? ==> fresh(r.value) && r.value.Shaped() && r.value.NoCaches() && r.value.Entries() == Zipped(Entries(), m.Entries(), columns, Grids.Minus)
    {
      r := Operate2(Grids.Minus, m);
    }

    /** `mul(m)`: the entrywise product. */
    method MulEntries(m: Matrix) returns (r: Result<Matrix>)
      requires Shaped() && m.Shaped()
      ensures r.Err? <==> !SameDimension(m)
      ensures r.Ok? ==> fresh(r.value) && r.value.Shaped() && r.value.NoCaches() && r.value.Entries() == Zipped(Entries(), m.Entries(), columns, Times)
    {
      r := Operate2(Times, m);
    }

    // -------------------------------------------------------------------
    // Row operations

    /** `addRowToRow(s, m, t)`: a copy whose row t is row t plus m times
        row s; an index outside the grid fails at the first column read. */
    method AddRowToRow(s: int, m: real, t: int) returns (r: Result<Matrix>)
      requires Shaped()
      ensures r.Err? <==> Elimination.AddRowToRow(Entries(), columns, s, m, t).Err?
      ensures r.Err? ==> r.error == IndexOutOfRange
      ensures r.Ok? ==> fresh(r.value) && r.value.Shaped() && r.value.NoCaches() && Like(r.value)
      ensures r.Ok? ==> r.value.Entries() == Elimination.AddRowToRow(Entries(), columns, s, m, t).value
    {
      var answer := Clone();
      if columns > 0 && !(0 <= t < rows && 0 <= s < rows) {
        // the first pass of the column loop reads outside the grid
        return Err(IndexOutOfRange);
      }
      if columns > 0 {
        AddRowInPlace(answer.values, s, m, t, Entries());
      }
      return Ok(answer);
    }

    /** The column loop of `addRowToRow` on the copy: row t gets m times
        row s added, entry by entry. */
    static method AddRowInPlace(b: array2<real>, s: nat, m: real, t: nat, ghost before: Grid)
      requires s < b.Length0 && t < b.Length0 && before == ArrayGrid(b)
      modifies b
      ensures ArrayGrid(b) == RowAdded(before, s, m, t)
    {
      for c := 0 to b.Length1
        invariant forall x, y | 0 <= x < b.Length0 && 0 <= y < b.Length1 ::
          b[x, y] == if x == t && y < c then before[t][y] + before[s][y] * m else before[x][y]
      {
        b[t, c] := b[t, c] + b[s, c] * m;
      }
      GridExt(ArrayGrid(b), RowAdded(before, s, m, t), b.Length1);
    }

    /** `changeRow(t, f)`: an index outside [0, rows) fails; otherwise a
        copy whose row t has `f` applied to every entry. */
    method ChangeRow(t: int, f: real -> real) returns (r: Result<Matrix>)
      requires Shaped()
      ensures r.Err? <==> Elimination.ChangeRow(Entries(), columns, t, f).Err?
      ensures r.Err? ==> r.error == IndexOutOfRange
      ensures r.Ok? ==> fresh(r.value) && r.value.Shaped() && r.value.NoCaches() && Like(r.value)
      ensures r.Ok? ==> r.value.Entries() == Elimination.ChangeRow(Entries(), columns, t, f).value
    {
      var answer := Clone();
      if t < 0 || t >= rows {
        return Err(IndexOutOfRange);
      }
      RowChangeInPlace(answer.values, t, f, Entries());
      return Ok(answer);
    }

    /** The column loop of `changeRow` on the copy: every entry of row t
        becomes f of itself. */
    static method RowChangeInPlace(b: array2<real>, t: nat, f: real -> real, ghost before: Grid)
      requires t < b.Length0 && before == ArrayGrid(b)
      modifies b
      ensures ArrayGrid(b) == RowChanged(before, t, f)
    {
      for c := 0 to b.Length1
        invariant forall x, y | 0 <= x < b.Length0 && 0 <= y < b.Length1 ::
          b[x, y] == if x == t && y < c then f(before[t][y]) else before[x][y]
      {
        b[t, c] := f(b[t, c]);
      }
      GridExt(ArrayGrid(b), RowChanged(before, t, f), b.Length1);
    }

    // -------------------------------------------------------------------
    // Reduced row echelon form

    /** The scan for the first entry of row i, from column `from` up to
        column `end`, that the test does not count as zero. */
    method SearchRow(i: nat, from: nat, end: nat, zero: real -> bool) returns (found: Option<nat>)
      requires Shaped() && i < rows && end <= columns
      ensures found == FindPivot(Entries()[i][..end], from, zero)
    {
      ghost var row := Entries()[i][..end];
      var w := from;
      while w < end
        invariant from <= w
        invariant FindPivot(row, w, zero) == FindPivot(row, from, zero)
        decreases end - w
      {
        if !zero(values[i, w]) {
          return Some(w);
        }
        w := w + 1;
      }
      return None;
    }

    /** The forward loop of `reducedRowEchelonForm`, run on a copy: each
        row's pivot is searched from the previous pivot column on; a pivot
        row is scaled by `changeRow` and the rows below it are cleared by
        `addRowToRow`, each step producing a new matrix; the loop stops at
        the first row without a pivot. */
    method ForwardPass() returns (r: Matrix)
      requires Shaped() && NoCaches()
      ensures (r == this || fresh(r)) && r.Shaped() && r.NoCaches() && Like(r)
      ensures r.Entries() == Forward(Entries(), columns, 0, 0, Policy().strict).grid
    {
      var strict := Policy().strict;
      ghost var goal := Forward(Entries(), columns, 0, 0, strict).grid;
      ghost var current := Entries();
      r := this;
      var pivotLocation := 0;
      var i := 0;
      while i < rows
        invariant i <= rows
        invariant (r == this || fresh(r)) && r.Shaped() && r.NoCaches() && Like(r)
        invariant current == r.Entries()
        invariant Forward(current, columns, i, pivotLocation, strict).grid == goal
        decreases rows - i
      {
        var found := r.SearchRow(i, pivotLocation, columns, strict);
        assert current[i][..columns] == current[i];
        if found.None? {
          break;
        }
        var p := found.value;
        ghost var before, from, row := current, pivotLocation, i;
        pivotLocation := p;
        r := r.Pivot(i, p);
        current := PivotStep(current, columns, i, p);
        i := i + 1;
        ForwardStep(before, columns, row, from, strict, p, current, i);
      }
    }

    /** One step of the forward loop at pivot (i, p): `changeRow(i, x ->
        x * factor)` with factor = 1 / get(i, p), then the elimination
        below. */
    method Pivot(i: nat, p: nat) returns (r: Matrix)
      requires Shaped() && NoCaches() && i < rows && p < columns && values[i, p] != 0.0
      ensures (r == this || fresh(r)) && r.Shaped() && r.NoCaches() && Like(r)
      ensures r.Entries() == PivotStep(Entries(), columns, i, p)
    {
      ghost var before := Entries();
      var factor := 1.0 / values[i, p];
      var scaled := ChangeRow(i, x => x * factor);
      RowChangedIsScaled(before, i, x => x * factor, factor);
      r := scaled.value.ClearBelow(i, p);
    }

    /** The elimination below pivot (i, p) in the forward loop: for each
        row w below i, `addRowToRow(i, -get(w, p), w)`. */
    method ClearBelow(i: nat, p: nat) returns (r: Matrix)
      requires Shaped() && NoCaches() && i < rows && p < columns
      ensures (r == this || fresh(r)) && r.Shaped() && r.NoCaches() && Like(r)
      ensures r.Entries() == EliminateBelow(Entries(), columns, i, p, i + 1)
    {
      ghost var goal := EliminateBelow(Entries(), columns, i, p, i + 1);
      ghost var current := Entries();
      r := this;
      var w := i + 1;
      while w < rows
        invariant i + 1 <= w <= rows
        invariant (r == this || fresh(r)) && r.Shaped() && r.NoCaches() && Like(r)
        invariant current == r.Entries()
        invariant EliminateBelow(current, columns, i, p, w) == goal
        decreases rows - w
      {
        ghost var before, from := current, w;
        r := r.ClearEntry(i, p, w, current);
        current := RowAdded(current, i, -current[w][p], w);
        w := w + 1;
        EliminateBelowStep(before, columns, i, p, from, current, w);
      }
    }

    /** One step of either elimination loop: `addRowToRow(i, -get(w, p), w)`
        with both rows in range. */
    method ClearEntry(i: nat, p: nat, w: nat, ghost before: Grid) returns (r: Matrix)
      requires Shaped() && NoCaches() && i < rows && w < rows && p < columns && before == Entries()
      ensures fresh(r) && r.Shaped() && r.NoCaches() && Like(r)
      ensures r.Entries() == RowAdded(before, i, -before[w][p], w)
    {
      var added := AddRowToRow(i, -values[w, p], w);
      r := added.value;
    }

    /** The elimination above row i in the backward loop: for each row w
        from i - 1 up to 0, `addRowToRow(i, -get(w, p), w)`. */
    method ClearAbove(i: nat, p: nat) returns (r: Matrix)
      requires Shaped() && NoCaches() && i < rows && p < columns
      ensures (r == this || fresh(r)) && r.Shaped() && r.NoCaches() && Like(r)
      ensures r.Entries() == EliminateAbove(Entries(), columns, i, p, i - 1)
    {
      ghost var goal := EliminateAbove(Entries(), columns, i, p, i - 1);
      ghost var current := Entries();
      r := this;
      var k: nat := i;
      while k > 0
        invariant k <= i
        invariant (r == this || fresh(r)) && r.Shaped() && r.NoCaches() && Like(r)
        invariant current == r.Entries()
        invariant EliminateAbove(current, columns, i, p, k - 1) == goal
      {
        var w := k - 1;
        ghost var before := current;
        r := r.ClearEntry(i, p, w, current);
        current := RowAdded(current, i, -current[w][p], w);
        k := w;
        EliminateAboveStep(before, columns, i, p, w, current, k);
      }
    }

    /** The backward loop of `reducedRowEchelonForm`: from the last row up,
        a row with an entry that the loose test does not count as zero has
        the column of the first one cleared in every row above it, by
        `addRowToRow`. */
    method BackwardPass() returns (r: Matrix)
      requires Shaped() && NoCaches()
      ensures (r == this || fresh(r)) && r.Shaped() && r.NoCaches() && Like(r)
      ensures r.Entries() == Backward(Entries(), columns, rows - 1, Policy().loose)
    {
      var loose := Policy().loose;
      ghost var goal := Backward(Entries(), columns, rows - 1, loose);
      ghost var current := Entries();
      r := this;
      var k: nat := rows;
      while k > 0
        invariant k <= rows
        invariant (r == this || fresh(r)) && r.Shaped() && r.NoCaches() && Like(r)
        invariant current == r.Entries()
        invariant Backward(current, columns, k - 1, loose) == goal
      {
        var i := k - 1;
        ghost var before := current;
        r := r.BackRow(i, loose, current);
        current := BackStep(current, columns, i, loose);
        k := i;
        BackwardStep(before, columns, i, loose, current, k);
      }
    }

    /** One pass of the backward loop, for row i: the search for the row's
        first entry the loose test does not count as zero, and the
        elimination above it when there is one. */
    method BackRow(i: nat, loose: real -> bool, ghost before: Grid) returns (r: Matrix)
      requires Shaped() && NoCaches() && i < rows && before == Entries()
      ensures (r == this || fresh(r)) && r.Shaped() && r.NoCaches() && Like(r)
      ensures r.Entries() == BackStep(before, columns, i, loose)
    {
      var found := SearchRow(i, 0, columns, loose);
      assert before[i][..columns] == before[i];
      r := this;
      if found.Some? {
        r := ClearAbove(i, found.value);
      }
    }

    /** `reducedRowEchelonForm()`: a new matrix of the same class holding
        the reduced form; the receiver keeps its entries. */
    method ReducedRowEchelonForm() returns (r: Matrix)
      requires Shaped()
      ensures fresh(r) && r.Shaped() && r.NoCaches() && Like(r)
      ensures r.Entries() == Rref(Entries(), columns, Policy())
    {
      ghost var G := Entries();
      var answer := Clone();
      var forward := answer.ForwardPass();
      ghost var F := Forward(G, columns, 0, 0, Policy().strict).grid;
      assert forward.Entries() == F;
      r := forward.BackwardPass();
      assert r.Entries() == Backward(F, columns, rows - 1, Policy().loose);
      assert Rref(G, columns, Policy()) == Backward(F, columns, |G| - 1, Policy().loose);
    }

    // -------------------------------------------------------------------
    // Pivot locations, rank and null space

    /** `pivotLocations()`: for each row of the reduced form, the column of
        its first entry the strict test does not count as zero, or -1. */
    method PivotLocations() returns (piv: array<int>)
      requires Shaped()
      ensures fresh(piv)
      ensures piv[..] == Derived.PivotLocations(Rref(Entries(), columns, Policy()), Policy().strict)
    {
      var reduced := ReducedRowEchelonForm();
      piv := PivotColumns(reduced.values, Policy().strict);
    }

    /** The loops of `pivotLocations()` over the reduced entries. */
    static method PivotColumns(a: array2<real>, zero: real -> bool) returns (piv: array<int>)
      ensures fresh(piv)
      ensures piv[..] == Derived.PivotLocations(ArrayGrid(a), zero)
    {
      ghost var R := ArrayGrid(a);
      piv := new int[a.Length0];
      for i := 0 to a.Length0
        modifies piv
        invariant forall x | 0 <= x < i :: piv[x] == Derived.Leading(R[x], zero)
      {
        piv[i] := LeadingColumn(a, i, zero);
      }
    }

    /** The column loop for one row: -1 unless an entry the test does not
        count as zero is found, then its column. */
    static method LeadingColumn(a: array2<real>, i: nat, zero: real -> bool) returns (location: int)
      requires i < a.Length0
      ensures location == Derived.Leading(ArrayGrid(a)[i], zero)
    {
      ghost var row := ArrayGrid(a)[i];
      location := -1;
      var j := 0;
      while j < a.Length1
        invariant j <= a.Length1
        invariant FindPivot(row, j, zero) == FindPivot(row, 0, zero)
      {
        if !zero(a[i, j]) {
          location := j;
          break;
        }
        j := j + 1;
      }
    }

    /** `rank()`: the number of rows before the first row without a pivot
        location. AccurateMatrix answers from its memo when it is set, and
        stores the rank only when every row has a pivot location. */
    method Rank() returns (k: nat)
      requires RankCacheValid()
      modifies this
      ensures RankCacheValid()
      ensures k == Derived.Rank(Entries(), columns, Policy())
      ensures rankCache == if precision == Double && k == rows then Some(k) else old(rankCache)
      ensures transposedMatrix == old(transposedMatrix) && sumCache == old(sumCache)
      ensures nullSpaceCache == old(nullSpaceCache)
    {
      if rankCache.Some? {
        return rankCache.value;
      }
      k := CountPivots();
      // the loop runs to the end exactly when every row has a pivot
      if precision == Double && k == rows {
        rankCache := Some(k);
      }
    }

    /** The loop of `rank()`: pivot locations counted up to the first row
        without one. */
    method CountPivots() returns (k: nat)
      requires Shaped()
      ensures k == Derived.Rank(Entries(), columns, Policy())
    {
      var piv := PivotLocations();
      k := LeadingPivots(piv);
    }

    /** The number of pivot locations before the first -1. */
    static method LeadingPivots(piv: array<int>) returns (k: nat)
      ensures k == Derived.RankOf(piv[..])
    {
      var i := 0;
      while i < piv.Length
        invariant i <= piv.Length
        invariant forall x | 0 <= x < i :: piv[x] != -1
      {
        if piv[i] == -1 {
          Derived.RankOfUnique(piv[..], i);
          return i;
        }
        i := i + 1;
      }
      Derived.RankOfUnique(piv[..], piv.Length);
      k := piv.Length;
    }

    /** `nullSpace()`: a columns-by-(columns - rank) matrix of the receiver's
        class whose filled columns come from the free columns right of each
        pivot. AccurateMatrix answers from its memo when it is set, and
        otherwise keeps the matrix it allocated in the memo, even when the
        fill then fails, so that the partly filled matrix is what later
        calls return. */
    method NullSpace() returns (r: Result<Matrix>)
      requires RankCacheValid() && NullSpaceCacheValid()
      modifies this
      ensures RankCacheValid() && NullSpaceCacheValid()
      ensures old(nullSpaceCache) != null ==> r == Ok(old(nullSpaceCache)) && nullSpaceCache == old(nullSpaceCache)
      ensures old(nullSpaceCache) == null ==>
        && NullSpaceResult(r, Derived.NullSpace(Entries(), columns, Policy()))
        && (r.Ok? ==> fresh(r.value))
        && (r.Ok? && precision == Double ==> nullSpaceCache == r.value)
      ensures old(nullSpaceCache) == null && precision == Double && r != Err(NegativeArraySize) ==>
        nullSpaceCache != null && fresh(nullSpaceCache)
      ensures old(nullSpaceCache) == null && (precision == Float || r == Err(NegativeArraySize)) ==>
        nullSpaceCache == null
      ensures transposedMatrix == old(transposedMatrix) && sumCache == old(sumCache)
      ensures rankCache == old(rankCache) || (precision == Double && rankCache == Some(rows))
    {
      if nullSpaceCache != null {
        return Ok(nullSpaceCache);
      }
      ghost var g := Entries();
      var rank := Rank();
      assert Entries() == g;
      var answer;
      answer, r := ComputeNullSpace(rank);
      assert Entries() == g;
      if precision == Double && answer != null {
        nullSpaceCache := answer;
      }
    }

    // -------------------------------------------------------------------
    // Inverse

    /** `inverse()`: a matrix that is not square fails; otherwise [M | I]
        is reduced, and when the first n entries of its last row are all
        zero by the loose test there is no inverse, and otherwise the right
        half of the reduced matrix is the answer, of the receiver's class. */
    method Inverse() returns (r: Result<Option<Matrix>>)
      requires Shaped()
      ensures r.Err? <==> Derived.InverseOf(Entries(), rows, columns, Policy()).Err?
      ensures r.Err? ==> r.error == NotInvertible
      ensures r.Ok? ==> (r.value.Some? <==> Derived.InverseOf(Entries(), rows, columns, Policy()).value.Some?)
      ensures r.Ok? && r.value.Some? ==>
        && fresh(r.value.value) && r.value.value.Shaped() && r.value.value.NoCaches() && Like(r.value.value)
        && r.value.value.Entries() == Derived.InverseOf(Entries(), rows, columns, Policy()).value.value
    {
      if rows != columns {
        return Err(NotInvertible);
      }
      var augmented := AugmentedArray(values);
      var answer := new Matrix.Wrap(augmented, precision, tests);
      var reduced := answer.ReducedRowEchelonForm();
      ghost var R := reduced.Entries();
      Derived.InverseFromReduced(Entries(), rows, Policy(), R);
      if rows > 0 {
        var found := reduced.SearchRow(rows - 1, 0, rows, Policy().loose);
        if found.Some? {
          var cropped := RightHalfArray(reduced.values, rows);
          var inverse := new Matrix.Wrap(cropped, precision, tests);
          return Ok(Some(inverse));
        }
      }
      return Ok(None);
    }

    /** The copy loops of `inverse()`: an n-by-2n array holding the entries
        of `a` on the left and 1 at (i, n + i). */
    static method AugmentedArray(a: array2<real>) returns (b: array2<real>)
      requires a.Length0 == a.Length1
      ensures fresh(b) && b.Length0 == a.Length0 && b.Length1 == 2 * a.Length0
      ensures ArrayGrid(b) == Derived.Augmented(ArrayGrid(a), a.Length0)
    {
      var n := a.Length0;
      b := new real[n, 2 * n]((_, _) => 0.0);
      for i := 0 to n
        invariant forall x, y | 0 <= x < n && 0 <= y < 2 * n ::
          b[x, y] == if x < i && y < n then a[x, y] else 0.0
      {
        for j := 0 to n
          invariant forall x, y | 0 <= x < n && 0 <= y < 2 * n ::
            b[x, y] == if (x < i && y < n) || (x == i && y < j) then a[x, y] else 0.0
        {
          b[i, j] := a[i, j];
        }
      }
      for i := 0 to n
        invariant forall x, y | 0 <= x < n && 0 <= y < 2 * n ::
          b[x, y] == if y < n then a[x, y] else if y - n == x && x < i then 1.0 else 0.0
      {
        b[i, n + i] := 1.0;
      }
      GridExt(ArrayGrid(b), Derived.Augmented(ArrayGrid(a), n), 2 * n);
    }

    /** The crop loops of `inverse()`: the right n columns of an n-by-2n array. */
    static method RightHalfArray(a: array2<real>, n: nat) returns (b: array2<real>)
      requires a.Length0 == n && a.Length1 == 2 * n
      ensures fresh(b) && b.Length0 == n && b.Length1 == n
      ensures ArrayGrid(b) == Derived.RightHalf(ArrayGrid(a), n)
    {
      b := new real[n, n]((_, _) => 0.0);
      for i := 0 to n
        invariant forall x, y | 0 <= x < n && 0 <= y < n :: b[x, y] == if x < i then a[x, n + y] else 0.0
      {
        for j := 0 to n
          invariant forall x, y | 0 <= x < n && 0 <= y < n ::
            b[x, y] == if x < i || (x == i && y < j) then a[x, n + y] else 0.0
        {
          b[i, j] := a[i, n + j];
        }
      }
      GridExt(ArrayGrid(b), Derived.RightHalf(ArrayGrid(a), n), n);
    }

    /** `nonNullInverse()`: the inverse, with a missing one turned into a failure. */
    method NonNullInverse() returns (r: Result<Matrix>)
      requires Shaped()
      ensures r.Err? <==> Derived.NonNullInverseOf(Entries(), rows, columns, Policy()).Err?
      ensures r.Err? ==> r.error == Derived.NonNullInverseOf(Entries(), rows, columns, Policy()).error
      ensures r.Ok? ==>
        && fresh(r.value) && r.value.Shaped() && r.value.NoCaches() && Like(r.value)
        && r.value.Entries() == Derived.NonNullInverseOf(Entries(), rows, columns, Policy()).value
    {
      var inverse := Inverse();
      match inverse
      case Err(e) => return Err(e);
      case Ok(None) => return Err(MissingValue);
      case Ok(Some(m)) => return Ok(m);
    }

    /** `r` is the outcome `expected` describes: the same failure, or a
        columns-row matrix of this class holding the expected grid. */
    ghost predicate NullSpaceResult(r: Result<Matrix>, expected: Result<Grid>)
      reads if r.Ok? then {r.value, r.value.values} else {}
    {
      && (r.Err? <==> expected.Err?)
      && (r.Err? ==> r.error == expected.error)
      && (r.Ok? ==>
            && r.value.Shaped() && r.value.NoCaches()
            && r.value.rows == columns && r.value.precision == precision && r.value.tests == tests
            && r.value.Entries() == expected.value)
    }

    /** The body of `nullSpace()` after the memo check and the call of
        `rank()`: the reduced form and the pivot locations, then the
        allocation (which fails for a negative width) and the fill.
        `answer` is the allocated matrix, also when the fill fails. */
    method ComputeNullSpace(rank: nat) returns (answer: Matrix?, r: Result<Matrix>)
      requires Shaped() && rank == Derived.Rank(Entries(), columns, Policy())
      ensures NullSpaceResult(r, Derived.NullSpace(Entries(), columns, Policy()))
      ensures answer == null <==> r == Err(NegativeArraySize)
      ensures answer != null ==>
        && fresh(answer) && answer.Shaped() && answer.NoCaches()
        && answer.precision == precision && answer.tests == tests
        && NullSpaceCacheHolds(Entries(), columns, Policy(), answer.rows, answer.columns, answer.Entries())
      ensures r.Ok? ==> r.value == answer
    {
      var reduced := ReducedRowEchelonForm();
      var piv := PivotLocations();
      NullSpaceFromParts(Entries(), columns, Policy(), reduced.Entries(), piv[..], rank);
      answer, r := NullSpaceMatrix(reduced.values, piv, rank, precision, tests);
    }

    /** The allocation of the columns-by-(columns - rank) matrix, which
        fails for a negative width, and its fill from the reduced grid `R`
        and its pivot locations. */
    static method NullSpaceMatrix(R: array2<real>, piv: array<int>, rank: nat, precision: Precision,
                                  tests: Environment.ZeroTests)
      returns (answer: Matrix?, r: Result<Matrix>)
      requires tests.AcceptsZero()
      requires piv.Length == R.Length0 && rank <= piv.Length && Derived.PivotsInRange(piv[..], R.Length1)
      ensures answer == null <==> r == Err(NegativeArraySize)
      ensures answer == null <==> R.Length1 < rank
      ensures r.Err? <==> Derived.NullSpaceOf(ArrayGrid(R), R.Length1, piv[..], rank).Err?
      ensures r.Err? ==> r.error == Derived.NullSpaceOf(ArrayGrid(R), R.Length1, piv[..], rank).error
      ensures answer != null ==>
        && fresh(answer) && fresh(answer.values) && answer.Shaped() && answer.NoCaches()
        && answer.precision == precision && answer.tests == tests
        && answer.rows == R.Length1 && answer.columns == R.Length1 - rank
        && answer.Entries() == Derived.NullSpaceFilled(ArrayGrid(R), R.Length1, piv[..], rank)
      ensures r.Ok? ==> r.value == answer
    {
      if R.Length1 < rank {
        // new float[columns][columns - rank] with a negative size
        return null, Err(NegativeArraySize);
      }
      answer := new Matrix.Zero(R.Length1, R.Length1 - rank, precision, tests);
      var filled := FillNullSpace(answer.values, R, piv, rank);
      r := if filled then Ok(answer) else Err(IndexOutOfRange);
    }

    /** The loops of `nullSpace()` over a zero-filled array `a`: for each
        pivot i below the bound, each free column w right of it gets the
        next column of `a`, holding -R[k][w] for k <= i and 1 at row w.
        Reading the first pivot location of an empty array, or writing
        past the last column of `a`, fails (and returns false). */
    static method FillNullSpace(a: array2<real>, R: array2<real>, piv: array<int>, rank: nat) returns (ok: bool)
      requires a.Length0 == R.Length1 && rank <= R.Length1 && a.Length1 == R.Length1 - rank
      requires piv.Length == R.Length0 && rank <= piv.Length && Derived.PivotsInRange(piv[..], R.Length1)
      requires a != R
      requires forall x, y | 0 <= x < a.Length0 && 0 <= y < a.Length1 :: a[x, y] == 0.0
      modifies a
      ensures ok == Derived.NullSpaceOf(ArrayGrid(R), R.Length1, piv[..], rank).Ok?
      ensures ArrayGrid(a) == Derived.NullSpaceFilled(ArrayGrid(R), R.Length1, piv[..], rank)
    {
      var cols, width := R.Length1, R.Length1 - rank;
      ghost var G, P := ArrayGrid(R), piv[..];
      if piv.Length == 0 {
        GridExt(ArrayGrid(a), Derived.NullSpaceFilled(G, cols, P, rank), width);
        return false;
      }
      var bound := if rank == 0 then 1 else rank;
      ghost var all := Derived.Tasks(P, cols, bound);
      var current;
      ok, current := FillPivots(a, R, piv, bound, G, P, all);
      Derived.NullSpaceFilledByTasks(G, cols, P, rank, ArrayGrid(a), if ok then current else width);
    }

    /** The pivot loop of `nullSpace()`, which stops at the first write past
        the last column of `a`. */
    static method FillPivots(a: array2<real>, R: array2<real>, piv: array<int>, bound: nat,
                             ghost G: Grid, ghost P: seq<int>, ghost all: seq<Derived.Task>)
      returns (ok: bool, current: nat)
      requires a != R && a.Length0 == R.Length1 && piv.Length == R.Length0
      requires G == ArrayGrid(R) && P == piv[..]
      requires bound <= piv.Length && (bound == 1 || bound <= R.Length1)
      requires Derived.PivotsInRange(P, R.Length1) && all == Derived.Tasks(P, R.Length1, bound)
      requires FilledUpTo(a, G, all, 0)
      modifies a
      ensures ok ==> current == |all| <= a.Length1 && FilledUpTo(a, G, all, current)
      ensures !ok ==> a.Length1 < |all| && FilledUpTo(a, G, all, a.Length1)
    {
      current := 0;
      ok := true;
      var i := 0;
      while i < bound && ok
        invariant i <= bound
        invariant ok ==> current == |Derived.Tasks(P, R.Length1, i)| <= a.Length1
        invariant ok ==> FilledUpTo(a, G, all, current)
        invariant !ok ==> a.Length1 < |all| && FilledUpTo(a, G, all, a.Length1)
      {
        var row := i;
        i := i + 1;
        ok, current := FillPivot(a, R, piv, row, i, bound, current, G, P, all);
      }
    }

    /** One pass of the pivot loop of `nullSpace()`: the free columns
        between pivot i and the next pivot, each filling the next column of
        `a`; a write past the last column fails (and returns false). */
    static method FillPivot(a: array2<real>, R: array2<real>, piv: array<int>, i: nat, after: nat, bound: nat, current: nat,
                            ghost G: Grid, ghost P: seq<int>, ghost all: seq<Derived.Task>)
      returns (ok: bool, next: nat)
      requires a != R && a.Length0 == R.Length1 && piv.Length == R.Length0
      requires G == ArrayGrid(R) && P == piv[..]
      requires i < bound <= piv.Length && (bound == 1 || bound <= R.Length1) && after == i + 1
      requires Derived.PivotsInRange(P, R.Length1) && all == Derived.Tasks(P, R.Length1, bound)
      requires current == |Derived.Tasks(P, R.Length1, i)| <= a.Length1
      requires FilledUpTo(a, G, all, current)
      modifies a
      ensures ok ==> next == |Derived.Tasks(P, R.Length1, after)| <= a.Length1 && FilledUpTo(a, G, all, next)
      ensures !ok ==> a.Length1 < |all| && FilledUpTo(a, G, all, a.Length1)
    {
      var cols, width := R.Length1, a.Length1;
      var initial := piv[i] + 1;
      var end := if i + 1 < piv.Length then piv[i + 1] else -1;
      end := if end == -1 then cols else end;
      assert initial == Derived.FreeStart(P, i) && end == Derived.FreeEnd(P, cols, i);
      next := current;
      var w := initial;
      while w < end
        invariant initial <= w && (w == initial || w <= end)
        invariant next == current + (w - initial) <= width
        invariant FilledUpTo(a, G, all, next)
        decreases end - w
      {
        Derived.TaskNumbered(P, cols, i, bound, w, next, all);
        if next >= width {
          // the write of entry (0, next) is past the last column
          return false, next;
        }
        FillColumn(a, R, i, w, next, G, all);
        next := next + 1;
        w := w + 1;
      }
      Derived.RowDone(P, cols, i, after, bound, w, next);
      return true, next;
    }

    /** The innermost loop of `nullSpace()` and the write after it: column
        y of `a` gets -R[k][w] in rows 0..i, then 1 at row w. */
    static method FillColumn(a: array2<real>, R: array2<real>, i: nat, w: nat, y: nat,
                             ghost G: Grid, ghost all: seq<Derived.Task>)
      requires a != R && G == ArrayGrid(R) && a.Length0 == R.Length1
      requires i < R.Length0 && w < R.Length1 && i < a.Length0 && y < a.Length1
      requires FilledUpTo(a, G, all, y) && y < |all| && all[y] == Derived.Task(i, w)
      modifies a
      ensures FilledUpTo(a, G, all, y + 1)
    {
      for k := 0 to i + 1
        invariant forall x, z | 0 <= x < a.Length0 && 0 <= z < a.Length1 ::
          a[x, z] == if z == y && x < k then -R[x, w] else old(a[x, z])
      {
        a[k, y] := -R[k, w];
      }
      a[w, y] := 1.0;
    }
  }

  /** The null-space memo of an AccurateMatrix with entries `g`: the
      allocation succeeded (columns >= rank) and the cached grid is what
      the fill had written when the call ended. */
  ghost predicate NullSpaceCacheHolds(g: Grid, cols: nat, policy: ZeroPolicy, r: nat, c: nat, cached: Grid)
  {
    Rect(g, cols) && policy.strict(0.0)
    && var R := Rref(g, cols, policy);
       var rank := Derived.Rank(g, cols, policy);
       && rank <= cols && r == cols && c == cols - rank
       && cached == Derived.NullSpaceFilled(R, cols, Derived.PivotLocations(R, policy.strict), rank)
  }

  /** The null space of a grid, and what the memo holds after the fill,
      in terms of its reduced form, pivot locations and rank. */
  lemma NullSpaceFromParts(g: Grid, cols: nat, policy: ZeroPolicy, R: Grid, P: seq<int>, rank: nat)
    requires Rect(g, cols) && policy.strict(0.0)
    requires R == Rref(g, cols, policy) && P == Derived.PivotLocations(R, policy.strict)
    requires rank == Derived.Rank(g, cols, policy)
    ensures Rect(R, cols) && |P| == |R| && Derived.PivotsInRange(P, cols) && rank <= |P|
    ensures Derived.NullSpace(g, cols, policy) == Derived.NullSpaceOf(R, cols, P, rank)
    ensures rank <= cols ==>
      NullSpaceCacheHolds(g, cols, policy, cols, cols - rank, Derived.NullSpaceFilled(R, cols, P, rank))
  {
    RrefFacts(g, cols, policy);
  }

  /** Columns 0..n-1 of `a` hold the null-space columns built from the
      first n tasks, and the other columns are still 0. */
  ghost predicate FilledUpTo(a: array2<real>, G: Grid, all: seq<Derived.Task>, n: nat)
    reads a
  {
    && Rect(G, a.Length0) && n <= |all|
    && (forall y | 0 <= y < |all| :: all[y].row < |G| && all[y].free < a.Length0)
    && forall x, y | 0 <= x < a.Length0 && 0 <= y < a.Length1 ::
         a[x, y] == if y < n then Derived.TaskEntry(G, a.Length0, all[y], x) else 0.0
  }
}
