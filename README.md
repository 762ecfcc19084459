# Matrix — a verified model of `matrix.py`

`matrix.py` defines one class, `Matrix`. A matrix has a number of rows, a
number of columns and a row-major grid of numbers. The class has these
operations:

- the constructor, which fills the grid from a flat list;
- the transpose `T`;
- the element-wise `add`;
- `mul_scalar`;
- the matrix product `mul`;
- `det`, the determinant, by Gaussian elimination with partial pivoting;
- `inverse`, by Gauss-Jordan elimination on the matrix with the identity
  appended on the right.

Every operation allocates a fresh result and leaves its operands alone. `det`
and `inverse` work on a copy of the rows. At each step they pick as pivot the
first row, from the current one down, whose entry in the current column has the
largest magnitude. A pivot whose magnitude is below 1e-12 stops the
elimination: `det` then returns exactly `0.0`, and `inverse` raises "singular".

The model keeps the class's shape:

- `Matrices.Matrix` stores its entries in an `array2<real>`.
- Each operation is a method with the loops of `matrix.py`.
- The determinant and the inverse copy the rows into an `array<seq<real>>`,
  which plays the part of Python's list of row lists. A row swap exchanges two
  elements of that array, and every other update is made in place.
- Each method is proved equal to a pure reference function on grid values
  (`seq<seq<real>>`):
  - `Grids`: flattening, transpose, sum, scaling, product (with its associativity) and identity.
  - `Elimination`: the pivot choice, one determinant step and one Gauss-Jordan
    step, and how both loops continue from step `i` (`DetFrom`,
    `GaussJordanFrom`).
- The properties of these functions are proved as lemmas:
  - `DeterminantFacts`: the determinant of the identity, and of matrices with a
    zero row or two equal rows.
  - `InverseFacts`: the inverse fails exactly when the determinant is 0.0, and
    the left block of the reduced grid is the identity.
  - `InverseProduct`: the inverse, when it exists, times the matrix is the
    identity.
  - `Scenarios`: the demo matrices of `main.py`.
- Errors are a `Result` with three kinds: `DimensionMismatch`, `NotSquare` and
  `Singular`. These stand for the `ValueError`s the class raises.

Entries are exact reals. The tolerance is `Elimination.Tolerance`, which is 1e-12.

For the demo matrix D = [2,1,0; 0,1,-1; 1,0,1] of `main.py` (lines 40-43), the
code computes determinant 1: the pivots are 2, 1 and 1/2, with no row swap. The
inverse it computes is [1,-1,-1; -1,2,2; -1,1,2]. `Scenarios.DeterminantOfD` and
`Scenarios.InverseOfD` prove both.

## Model

| member | source | states |
|---|---|---|
| Matrices.Matrix.Create | matrix.py:5-19 | fails with DimensionMismatch exactly when the list's length is not rows * columns; otherwise a fresh rows x columns matrix whose grid is the list cut into rows |
| Matrices.Matrix.Fill | matrix.py:15-19 | entry (i, j) of the new matrix is flat[i * columns + j]: the running index fills the grid row by row |
| Grids.FlattenFromFlat | matrix.py:15-19 | cutting a list of length rows * columns into rows and concatenating the rows again gives back the list |
| Grids.FromFlatFlatten | matrix.py:88-92 | cutting the concatenated rows of a grid back into rows gives back the grid, so the inverse built from its flat list has the computed rows |
| Matrices.Matrix.T | matrix.py:21-29 | a fresh columns x rows matrix whose entry (j, i) is entry (i, j) of the operand |
| Grids.TransposeTwice | matrix.py:21-29 | transposing twice gives back the grid |
| Matrices.Matrix.Add | matrix.py:31-43 | fails with DimensionMismatch exactly when the shapes differ; otherwise a fresh matrix of the same shape whose entries are the entry-wise sums |
| Grids.SumCommutative | matrix.py:31-43 | add(a, b) and add(b, a) have the same entries |
| Grids.SumAssociative | matrix.py:31-43 | the sum of three grids does not depend on the grouping |
| Matrices.Matrix.MulScalar | matrix.py:45-53 | a fresh matrix of the same shape whose entry (i, j) is entry (i, j) of the operand times the scalar |
| Grids.ScaledDistributes | matrix.py:45-53 | scaling a sum is the sum of the scaled grids |
| Grids.ScaledTwice | matrix.py:45-53 | scaling by x and then by y is scaling by x * y |
| Matrices.Matrix.Mul | matrix.py:123-140 | fails with DimensionMismatch exactly when a.columns != b.rows; otherwise a fresh a.rows x b.columns matrix whose entry (i, j) is the sum over k of a[i][k] * b[k][j] |
| Matrices.AccumulateEntry | matrix.py:137-138 | the k loop leaves entry (i, j) equal to the sum, accumulated from 0 in increasing k, and changes no other entry |
| Grids.ProductIdentityLeft | matrix.py:123-140 | the identity times b is b |
| Grids.ProductIdentityRight | matrix.py:123-140 | a times the identity is a |
| Grids.TransposeProduct | matrix.py:123-140 | the transpose of a product is the product of the transposes in the opposite order |
| Grids.ProductAssociative | matrix.py:123-140 | the product is associative: (a b) c == a (b c) for all compatible shapes, over exact reals |
| Elimination.PivotRowIsFirstMaximum | matrix.py:66 | the chosen pivot row holds a largest magnitude in the column among rows i..n-1, and every row before it holds a strictly smaller one, so it is the first maximum |
| Elimination.PivotedExchanges | matrix.py:109-110 | the pivot exchange puts the pivot row at position i and the old row i at the pivot's place, and leaves every other row alone |
| Matrices.Matrix.Det | matrix.py:94-121 | fails with NotSquare exactly when rows != columns; otherwise returns the determinant the elimination computes on a copy of the rows |
| Matrices.DetColumn | matrix.py:103-119 | one pass of the column loop: it stops exactly when the pivot is below the tolerance, and then leaves the rows unchanged and the loop's result is 0.0; otherwise the rows become the reference step's grid, the accumulator the step's new accumulator, and the loop's result from the next column is unchanged |
| Matrices.DetStepInPlace | matrix.py:109-119 | the in-place swap and elimination give the reference step's grid; the accumulator is negated when rows are swapped and then multiplied by the pivot |
| Matrices.EliminateBelowInPlace | matrix.py:114-119 | every row j > i loses (m[j][i] / pivot) times row i on the columns from i on; rows up to i are unchanged |
| Matrices.SubtractRowInPlace | matrix.py:118-119 | row j loses factor times row i entry by entry from the given column on; no other row changes |
| Elimination.EliminateBelowFrame | matrix.py:116-119 | a determinant step keeps rows 0..i and the columns before i, and leaves zeros below the pivot in column i |
| DeterminantFacts.DeterminantOfIdentity | matrix.py:94-121 | the determinant of the n x n identity is exactly 1 |
| DeterminantFacts.DeterminantZeroRow | matrix.py:94-121 | a square grid with a zero row has determinant exactly 0.0 |
| DeterminantFacts.DeterminantEqualRows | matrix.py:94-121 | a square grid with two equal rows has determinant exactly 0.0 |
| DeterminantFacts.PivotNotLaterTie | matrix.py:103 | of two rows with equal entries in the column, the later one is never the pivot |
| Matrices.Matrix.Inverse | matrix.py:55-92 | fails with NotSquare when rows != columns and with Singular exactly when the elimination meets a pivot below the tolerance; otherwise a fresh n x n matrix holding columns n..2n-1 of the reduced augmented rows |
| Matrices.GaussJordanInPlace | matrix.py:65-86 | true exactly when the elimination succeeds, and then the rows are the fully reduced augmented grid |
| Matrices.GaussJordanColumn | matrix.py:66-86 | one pass of the column loop: it stops exactly when the pivot is below the tolerance, and then leaves the rows unchanged and the outcome is Singular; otherwise the rows become the reference Gauss-Jordan step's grid and the outcome from the next column is unchanged |
| Matrices.GaussJordanStepInPlace | matrix.py:72-86 | the in-place swap, normalisation and elimination give the reference Gauss-Jordan step |
| Matrices.NormalizeInPlace | matrix.py:75-77 | row i is divided entry by entry by its pivot; no other row changes |
| Matrices.EliminateOthersInPlace | matrix.py:79-86 | every row other than i with a nonzero factor loses factor times row i across all 2n columns; the other rows are unchanged |
| Matrices.RightHalves | matrix.py:88-90 | the flat list is columns n.. of every row, concatenated row by row |
| Elimination.NormalizeFrame | matrix.py:75-77 | normalisation makes the pivot 1, divides row i by it and leaves the other rows alone |
| Elimination.EliminateOthersFrame | matrix.py:79-86 | with pivot 1, elimination keeps row i, leaves rows whose factor is 0 untouched and zeros column i in every other row |
| Elimination.GaussJordanStepColumn | matrix.py:72-86 | after step i, column i is the i-th unit column |
| InverseFacts.GaussJordanLeftIdentity | matrix.py:65-86 | when the elimination succeeds, columns 0..n-1 of the reduced augmented grid are the identity |
| InverseFacts.SingularIffZeroDeterminant | matrix.py:55-121 | the inverse fails, always as Singular, exactly when the determinant is 0.0: both loops meet their first small pivot at the same column |
| InverseFacts.InverseZeroRow | matrix.py:55-92 | a square grid with a zero row has no inverse (Singular) |
| InverseFacts.InverseEqualRows | matrix.py:55-92 | a square grid with two equal rows has no inverse (Singular) |
| InverseProduct.InverseIsLeftInverse | matrix.py:55-92 | when the inverse exists it is n x n, and the inverse times the matrix is the identity |
| InverseProduct.InverseOfIdentity | matrix.py:55-92 | the identity is its own inverse |
| Scenarios.MatrixASingular | main.py:22-28 | for A = 1..9 the determinant is exactly 0.0 and the inverse fails as Singular |
| Scenarios.DeterminantOfD | main.py:40-42 | for D = [2,1,0; 0,1,-1; 1,0,1] the determinant is 1 |
| Scenarios.InverseOfD | main.py:40-43 | the inverse of D is [1,-1,-1; -1,2,2; -1,1,2] |

## Left out

- The Tk interface (`tkinter_gui.py`) and the printing in `main.py`: they are input and output only.
- IEEE-754 floating point: entries are exact reals, so rounding is not modelled. For a nearly
  singular matrix, the floating-point pivot can differ from the exact one on either side of 1e-12.
  For example, the exact last pivot of A = 1..9 is 0, while in floating point it is only tiny.
- Python's mixing of `int` and `float` entries: every entry is a `real`.
- Negative dimensions: rows and columns are `nat`. With exactly one negative size and the other
  positive, Python raises the length `ValueError`. Otherwise (both negative, or one of them 0) it
  accepts a list of length `rows * columns` and builds an empty grid. Neither case is modelled.
- Matrices.Matrix.Fill: requires the length to be right, because `Matrices.Matrix.Create` makes the
  length check and the `ValueError` becomes `Err(DimensionMismatch)` there. Python raises after
  allocating the zero grid. That allocation is not visible to callers.
- That operands are unchanged is guaranteed by the frames: no method has a `modifies` clause on
  its operands, and `det` and `inverse` work on fresh arrays. The statement is left to Dafny's frame
  check rather than written as an `ensures`.
- The `max(range(i, n), key=...)` call is modelled by the function `Elimination.PivotRow`, which
  keeps the first of equal keys, as `max` does.
- Not proved:
  - that the inverse is also a right inverse (the matrix times its inverse is the identity);
  - that the computed determinant equals the Leibniz or cofactor determinant;
  - that the determinant is multiplicative.
