/** Outcomes of the matrix operations: the exceptions the library raises,
    and the Option/Result wrappers that carry them. */
module Failures {

  /** The failures the library signals. */
  datatype Error =
    /** A grid literal with no rows (RuntimeException / IllegalArgumentException). */
    | InvalidShape
    /** Shapes that do not fit together (MismatchDimensionException, reporting both shapes). */
    | DimensionMismatch(rows1: int, columns1: int, rows2: int, columns2: int)
    /** An index outside the grid (IndexOutOfBoundsException, ArrayIndexOutOfBoundsException). */
    | IndexOutOfRange
    /** An array allocated with a negative size (NegativeArraySizeException). */
    | NegativeArraySize
    /** `inverse` of a non-square matrix (MatrixNotInvertibleException). */
    | NotInvertible
    /** `nonNullInverse` of a singular matrix (NullPointerException from requireNonNull). */
    | MissingValue

  /** A nullable value. */
  datatype Option<+T> = None | Some(value: T)

  /** A value or the failure that prevented it. */
  datatype Result<+T> = Ok(value: T) | Err(error: Error)
}
