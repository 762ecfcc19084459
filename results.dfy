/** The error kinds the matrix operations raise, and a result that carries either
    a value or one of them. */
module Results {

  /** Why an operation refused its operands. */
  datatype Error =
    | DimensionMismatch  // a flat list of the wrong length, or operands of incompatible shapes
    | NotSquare          // determinant or inverse of a non-square matrix
    | Singular           // no usable pivot during Gauss-Jordan elimination

  datatype Result<+T> = Ok(value: T) | Err(error: Error)
}
