/** The static helpers of the library: copying a grid literal into fresh
    storage, the two tolerance equalities, and the zero tests that the
    elimination code calls. */
module Environment {
  import opened Failures
  import opened Grids

  /** The zero tests called by the elimination code whose definitions are
      not part of this model: `isStrictZero(x)`, `isZero(x)` and
      `doubleLooselyEquals(a, b)`. They are carried as values so that every
      property below holds whatever they are. */
  datatype ZeroTests = ZeroTests(
    isStrictZero: real -> bool,
    isZero: real -> bool,
    doubleLooselyEquals: (real, real) -> bool)
  {
    /** Each test counts exact 0 as zero; this is what keeps `1 / pivot` defined. */
    predicate AcceptsZero()
    {
      isStrictZero(0.0) && isZero(0.0) && doubleLooselyEquals(0.0, 0.0)
    }
  }

  /** Tolerance of `equals(float, float)`. */
  const FloatTolerance: real := 0.000001
  /** Tolerance of `equals(double, double)`. */
  const DoubleTolerance: real := 0.000000000000001

  /** `equals(float, float)`: |a - b| < 0.000001. */
  function FloatEquals(a: real, b: real): bool
  {
    Abs(a - b) < FloatTolerance
  }

  /** `equals(double, double)`: |a - b| < 0.000000000000001. */
  function DoubleEquals(a: real, b: real): bool
  {
    Abs(a - b) < DoubleTolerance
  }

  /** Both tolerance equalities are reflexive and symmetric, and each holds
      exactly when the two values are closer than its tolerance. */
  lemma ToleranceEqualities(a: real, b: real)
    ensures FloatEquals(a, a) && DoubleEquals(a, a)
    ensures FloatEquals(a, b) == FloatEquals(b, a)
    ensures DoubleEquals(a, b) == DoubleEquals(b, a)
    ensures FloatEquals(a, b) <==> -FloatTolerance < a - b < FloatTolerance
    ensures DoubleEquals(a, b) <==> -DoubleTolerance < a - b < DoubleTolerance
  {
  }

  /** Neither tolerance equality is transitive. */
  lemma ToleranceEqualitiesNotTransitive()
    ensures FloatEquals(0.0, 0.0000006) && FloatEquals(0.0000006, 0.0000012)
    ensures !FloatEquals(0.0, 0.0000012)
    ensures DoubleEquals(0.0, 0.0000000000000006) && DoubleEquals(0.0000000000000006, 0.0000000000000012)
    ensures !DoubleEquals(0.0, 0.0000000000000012)
  {
  }

  /** What `clone(float[][])` produces: a grid literal with no rows is
      rejected, a row shorter than the first fails the row copy, and every
      row is copied up to the first row's length. */
  function Cloned(values: seq<seq<real>>): (r: Result<Grid>)
    ensures r.Err? <==> |values| == 0 || exists i | 0 <= i < |values| :: |values[i]| < |values[0]|
    ensures |values| == 0 ==> r == Err(InvalidShape)
    ensures r.Err? && |values| > 0 ==> r.error == IndexOutOfRange
    ensures r.Ok? ==> |r.value| == |values| && Rect(r.value, |values[0]|)
    ensures r.Ok? ==> forall i, j | 0 <= i < |values| && 0 <= j < |values[0]| :: r.value[i][j] == values[i][j]
  {
    if |values| == 0 then Err(InvalidShape)
    else if exists i | 0 <= i < |values| :: |values[i]| < |values[0]| then Err(IndexOutOfRange)
    else Ok(seq(|values|, i requires 0 <= i < |values| => values[i][..|values[0]|]))
  }

  /** `clone(float[][])`: allocates a fresh rows-by-columns array and copies
      each row into it. */
  method Clone(values: seq<seq<real>>) returns (r: Result<array2<real>>)
    ensures r.Err? == Cloned(values).Err?
    ensures r.Err? ==> r.error == Cloned(values).error
    ensures r.Ok? ==> fresh(r.value) && r.value.Length0 == |values| && r.value.Length1 == |values[0]|
    ensures r.Ok? ==> ArrayGrid(r.value) == Cloned(values).value
  {
    if |values| == 0 {
      return Err(InvalidShape);
    }
    var rows := |values|;
    var columns := |values[0]|;
    var newValues := new real[rows, columns]((_, _) => 0.0);
    for i := 0 to rows
      invariant forall x | 0 <= x < i :: |values[x]| >= columns
      invariant forall x, y | 0 <= x < i && 0 <= y < columns :: newValues[x, y] == values[x][y]
    {
      if |values[i]| < columns {
        // the row copy reads past the end of a short source row
        return Err(IndexOutOfRange);
      }
      for j := 0 to columns
        invariant forall x, y | 0 <= x < i && 0 <= y < columns :: newValues[x, y] == values[x][y]
        invariant forall y | 0 <= y < j :: newValues[i, y] == values[i][y]
      {
        newValues[i, j] := values[i][j];
      }
    }
    GridExt(ArrayGrid(newValues), Cloned(values).value, columns);
    return Ok(newValues);
  }

  /** What `convert(int[][])` produces: the same shape rules as `Cloned`,
      each integer entry becoming the equal real. */
  function Converted(values: seq<seq<int>>): (r: Result<Grid>)
    ensures r.Err? <==> |values| == 0 || exists i | 0 <= i < |values| :: |values[i]| < |values[0]|
    ensures |values| == 0 ==> r == Err(InvalidShape)
    ensures r.Err? && |values| > 0 ==> r.error == IndexOutOfRange
    ensures r.Ok? ==> |r.value| == |values| && Rect(r.value, |values[0]|)
    ensures r.Ok? ==> forall i, j | 0 <= i < |values| && 0 <= j < |values[0]| :: r.value[i][j] == values[i][j] as real
  {
    if |values| == 0 then Err(InvalidShape)
    else if exists i | 0 <= i < |values| :: |values[i]| < |values[0]| then Err(IndexOutOfRange)
    else Ok(seq(|values|, i requires 0 <= i < |values| =>
              seq(|values[0]|, j requires 0 <= j < |values[0]| => values[i][j] as real)))
  }

  /** `convert(int[][])`: allocates a fresh array and copies entry by entry. */
  method Convert(values: seq<seq<int>>) returns (r: Result<array2<real>>)
    ensures r.Err? == Converted(values).Err?
    ensures r.Err? ==> r.error == Converted(values).error
    ensures r.Ok? ==> fresh(r.value) && r.value.Length0 == |values| && r.value.Length1 == |values[0]|
    ensures r.Ok? ==> ArrayGrid(r.value) == Converted(values).value
  {
    if |values| == 0 {
      return Err(InvalidShape);
    }
    var rows := |values|;
    var columns := |values[0]|;
    var newValues := new real[rows, columns]((_, _) => 0.0);
    for i := 0 to rows
      invariant forall x | 0 <= x < i :: |values[x]| >= columns
      invariant forall x, y | 0 <= x < i && 0 <= y < columns :: newValues[x, y] == values[x][y] as real
    {
      for j := 0 to columns
        invariant forall x, y | 0 <= x < i && 0 <= y < columns :: newValues[x, y] == values[x][y] as real
        invariant j <= |values[i]|
        invariant forall y | 0 <= y < j :: newValues[i, y] == values[i][y] as real
      {
        if j >= |values[i]| {
          // reading values[i][j] past the end of a short row
          return Err(IndexOutOfRange);
        }
        newValues[i, j] := values[i][j] as real;
      }
    }
    GridExt(ArrayGrid(newValues), Converted(values).value, columns);
    return Ok(newValues);
  }

  /** `clone(int[][])`, which delegates to `convert`. */
  method CloneInts(values: seq<seq<int>>) returns (r: Result<array2<real>>)
    ensures r.Err? == Converted(values).Err?
    ensures r.Err? ==> r.error == Converted(values).error
    ensures r.Ok? ==> fresh(r.value) && r.value.Length0 == |values| && r.value.Length1 == |values[0]|
    ensures r.Ok? ==> ArrayGrid(r.value) == Converted(values).value
  {
    r := Convert(values);
  }
}
