/** Dense row-major grids of exact reals, as values: the reference meaning of the
    matrix operations that the class in module Matrices computes with loops. */
module Grids {

  /** A grid is a sequence of rows; row i, column j is g[i][j]. */
  type Grid = seq<seq<real>>

  /** g has exactly `rows` rows, each with exactly `columns` entries. */
  predicate IsGrid(g: Grid, rows: nat, columns: nat) {
    |g| == rows && forall i :: 0 <= i < |g| ==> |g[i]| == columns
  }

  /** Entry (i, j) of a rows x columns grid sits at i * columns + j of its row-major list. */
  lemma RowMajorBound(rows: nat, columns: nat, i: nat, j: nat)
    requires i < rows && j < columns
    ensures i * columns + j < rows * columns
  {
    MulMonotone(i + 1, rows, columns);
  }

  lemma MulMonotone(a: nat, b: nat, c: nat)
    requires a <= b
    ensures a * c <= b * c
  {
  }

  /** Two grids of one shape that agree entry by entry are equal. */
  lemma GridEquality(a: Grid, b: Grid, rows: nat, columns: nat)
    requires IsGrid(a, rows, columns) && IsGrid(b, rows, columns)
    requires forall i, j :: 0 <= i < rows && 0 <= j < columns ==> a[i][j] == b[i][j]
    ensures a == b
  {
    forall i | 0 <= i < rows
      ensures a[i] == b[i]
    {
      assert forall j :: 0 <= j < columns ==> a[i][j] == b[i][j];
    }
  }

  // ---------------------------------------------------------------------------
  // Row-major construction and flattening

  /** The rows x columns grid whose entries are taken from `flat` row by row. */
  function FromFlat(rows: nat, columns: nat, flat: seq<real>): (g: Grid)
    requires |flat| == rows * columns
    ensures IsGrid(g, rows, columns)
  {
    seq(rows, i requires 0 <= i < rows =>
      seq(columns, j requires 0 <= j < columns =>
        RowMajorBound(rows, columns, i, j); flat[i * columns + j]))
  }

  /** The rows of g concatenated in order (the inverse of FromFlat). */
  function Flatten(g: Grid): (flat: seq<real>) {
    if g == [] then [] else Flatten(g[..|g| - 1]) + g[|g| - 1]
  }

  lemma {:induction false} FlattenLength(g: Grid, rows: nat, columns: nat)
    requires IsGrid(g, rows, columns)
    ensures |Flatten(g)| == rows * columns
  {
    if rows > 0 {
      FlattenLength(g[..rows - 1], rows - 1, columns);
    }
  }

  /** Flattening puts entry (i, j) at position i * columns + j. */
  lemma {:induction false} FlattenAt(g: Grid, rows: nat, columns: nat, i: nat, j: nat)
    requires IsGrid(g, rows, columns) && i < rows && j < columns
    ensures i * columns + j < |Flatten(g)|
    ensures Flatten(g)[i * columns + j] == g[i][j]
  {
    var init := g[..rows - 1];
    FlattenLength(init, rows - 1, columns);
    assert Flatten(g) == Flatten(init) + g[rows - 1];
    if i < rows - 1 {
      FlattenAt(init, rows - 1, columns, i, j);
    } else {
      assert i * columns + j == |Flatten(init)| + j;
    }
  }

  /** Flattening a grid built from a flat list gives the list back. */
  lemma {:induction false} FlattenFromFlat(rows: nat, columns: nat, flat: seq<real>)
    requires |flat| == rows * columns
    ensures Flatten(FromFlat(rows, columns, flat)) == flat
  {
    if rows > 0 {
      var g := FromFlat(rows, columns, flat);
      var cut := (rows - 1) * columns;
      assert cut + columns == rows * columns;
      var init := flat[..cut];
      forall i, j | 0 <= i < rows - 1 && 0 <= j < columns
        ensures g[i][j] == FromFlat(rows - 1, columns, init)[i][j]
      {
        RowMajorBound(rows - 1, columns, i, j);
      }
      GridEquality(g[..rows - 1], FromFlat(rows - 1, columns, init), rows - 1, columns);
      FlattenFromFlat(rows - 1, columns, init);
      assert g[rows - 1] == flat[cut..];
      assert flat == init + flat[cut..];
    }
  }

  /** Building a grid from the flattening of a grid gives the grid back. */
  lemma FromFlatFlatten(g: Grid, rows: nat, columns: nat)
    requires IsGrid(g, rows, columns)
    ensures |Flatten(g)| == rows * columns
    ensures FromFlat(rows, columns, Flatten(g)) == g
  {
    FlattenLength(g, rows, columns);
    forall i, j | 0 <= i < rows && 0 <= j < columns
      ensures FromFlat(rows, columns, Flatten(g))[i][j] == g[i][j]
    {
      FlattenAt(g, rows, columns, i, j);
    }
    GridEquality(FromFlat(rows, columns, Flatten(g)), g, rows, columns);
  }

  /** The all-zero list that `matrix.py` allocates (`[0] * (rows * columns)`) before filling in a result. */
  function Zeros(count: nat): (z: seq<real>)
    ensures |z| == count && forall k :: 0 <= k < count ==> z[k] == 0.0
  {
    seq(count, _ => 0.0)
  }

  // ---------------------------------------------------------------------------
  // Transpose, sum, scalar multiple

  /** Column j of g becomes row j of the result. */
  function Transpose(g: Grid, columns: nat): (t: Grid)
    requires IsGrid(g, |g|, columns)
    ensures IsGrid(t, columns, |g|)
  {
    seq(columns, j requires 0 <= j < columns =>
      seq(|g|, i requires 0 <= i < |g| => g[i][j]))
  }

  /** Transposing a rows x columns grid twice gives it back. */
  lemma TransposeTwice(g: Grid, rows: nat, columns: nat)
    requires IsGrid(g, rows, columns)
    ensures IsGrid(Transpose(g, columns), columns, rows)
    ensures Transpose(Transpose(g, columns), rows) == g
  {
    GridEquality(Transpose(Transpose(g, columns), rows), g, rows, columns);
  }

  /** The element-wise sum of two grids of the same shape. */
  function Sum(a: Grid, b: Grid): (s: Grid)
    requires |a| == |b| && forall i :: 0 <= i < |a| ==> |a[i]| == |b[i]|
    ensures |s| == |a| && forall i :: 0 <= i < |a| ==> |s[i]| == |a[i]|
  {
    seq(|a|, i requires 0 <= i < |a| =>
      seq(|a[i]|, j requires 0 <= j < |a[i]| => a[i][j] + b[i][j]))
  }

  lemma SumCommutative(a: Grid, b: Grid, rows: nat, columns: nat)
    requires IsGrid(a, rows, columns) && IsGrid(b, rows, columns)
    ensures IsGrid(Sum(a, b), rows, columns)
    ensures Sum(a, b) == Sum(b, a)
  {
    GridEquality(Sum(a, b), Sum(b, a), rows, columns);
  }

  lemma SumAssociative(a: Grid, b: Grid, c: Grid, rows: nat, columns: nat)
    requires IsGrid(a, rows, columns) && IsGrid(b, rows, columns) && IsGrid(c, rows, columns)
    ensures Sum(Sum(a, b), c) == Sum(a, Sum(b, c))
  {
    GridEquality(Sum(Sum(a, b), c), Sum(a, Sum(b, c)), rows, columns);
  }

  /** Every entry of g multiplied by x. */
  function Scaled(g: Grid, x: real): (s: Grid)
    ensures |s| == |g| && forall i :: 0 <= i < |g| ==> |s[i]| == |g[i]|
  {
    seq(|g|, i requires 0 <= i < |g| =>
      seq(|g[i]|, j requires 0 <= j < |g[i]| => g[i][j] * x))
  }

  lemma ScaledDistributes(a: Grid, b: Grid, x: real, rows: nat, columns: nat)
    requires IsGrid(a, rows, columns) && IsGrid(b, rows, columns)
    ensures IsGrid(Scaled(a, x), rows, columns)
    ensures Scaled(Sum(a, b), x) == Sum(Scaled(a, x), Scaled(b, x))
  {
    GridEquality(Scaled(Sum(a, b), x), Sum(Scaled(a, x), Scaled(b, x)), rows, columns);
  }

  lemma ScaledTwice(g: Grid, x: real, y: real, rows: nat, columns: nat)
    requires IsGrid(g, rows, columns)
    ensures Scaled(Scaled(g, x), y) == Scaled(g, x * y)
  {
    GridEquality(Scaled(Scaled(g, x), y), Scaled(g, x * y), rows, columns);
  }

  // ---------------------------------------------------------------------------
  // Product

  /** a[i][0] * b[0][j] + ... + a[i][k-1] * b[k-1][j], added up from 0 in order of k. */
  function Dot(a: Grid, b: Grid, i: nat, j: nat, k: nat): (d: real)
    requires i < |a| && k <= |a[i]| && k <= |b|
    requires forall r :: 0 <= r < k ==> j < |b[r]|
  {
    if k == 0 then 0.0 else Dot(a, b, i, j, k - 1) + a[i][k - 1] * b[k - 1][j]
  }

  /** The product of a (rows x |b|) and b (|b| x columns). */
  function Product(a: Grid, b: Grid, columns: nat): (p: Grid)
    requires IsGrid(a, |a|, |b|) && IsGrid(b, |b|, columns)
    ensures IsGrid(p, |a|, columns)
  {
    seq(|a|, i requires 0 <= i < |a| =>
      seq(columns, j requires 0 <= j < columns => Dot(a, b, i, j, |b|)))
  }

  /** The n x n identity. */
  function Identity(n: nat): (id: Grid)
    ensures IsGrid(id, n, n)
  {
    seq(n, i requires 0 <= i < n => IdentityRow(n, i))
  }

  /** Row i of the n x n identity. */
  function IdentityRow(n: nat, i: nat): (row: seq<real>)
    ensures |row| == n
  {
    seq(n, j requires 0 <= j < n => if i == j then 1.0 else 0.0)
  }

  lemma {:induction false} DotIdentityLeft(b: Grid, n: nat, columns: nat, i: nat, j: nat, k: nat)
    requires IsGrid(b, n, columns) && i < n && j < columns && k <= n
    ensures Dot(Identity(n), b, i, j, k) == if i < k then b[i][j] else 0.0
  {
    if k > 0 {
      DotIdentityLeft(b, n, columns, i, j, k - 1);
    }
  }

  /** The identity is a left unit of the product. */
  lemma ProductIdentityLeft(b: Grid, n: nat, columns: nat)
    requires IsGrid(b, n, columns)
    ensures Product(Identity(n), b, columns) == b
  {
    forall i, j | 0 <= i < n && 0 <= j < columns
      ensures Product(Identity(n), b, columns)[i][j] == b[i][j]
    {
      DotIdentityLeft(b, n, columns, i, j, n);
    }
    GridEquality(Product(Identity(n), b, columns), b, n, columns);
  }

  lemma {:induction false} DotIdentityRight(a: Grid, rows: nat, n: nat, i: nat, j: nat, k: nat)
    requires IsGrid(a, rows, n) && i < rows && j < n && k <= n
    ensures Dot(a, Identity(n), i, j, k) == if j < k then a[i][j] else 0.0
  {
    if k > 0 {
      DotIdentityRight(a, rows, n, i, j, k - 1);
    }
  }

  /** The identity is a right unit of the product. */
  lemma ProductIdentityRight(a: Grid, rows: nat, n: nat)
    requires IsGrid(a, rows, n)
    ensures Product(a, Identity(n), n) == a
  {
    forall i, j | 0 <= i < rows && 0 <= j < n
      ensures Product(a, Identity(n), n)[i][j] == a[i][j]
    {
      DotIdentityRight(a, rows, n, i, j, n);
    }
    GridEquality(Product(a, Identity(n), n), a, rows, n);
  }

  lemma {:induction false} DotTranspose(a: Grid, b: Grid, rows: nat, inside: nat, columns: nat,
                                        i: nat, j: nat, k: nat)
    requires IsGrid(a, rows, inside) && IsGrid(b, inside, columns)
    requires i < rows && j < columns && k <= inside
    ensures Dot(Transpose(b, columns), Transpose(a, inside), j, i, k) == Dot(a, b, i, j, k)
  {
    if k > 0 {
      DotTranspose(a, b, rows, inside, columns, i, j, k - 1);
    }
  }

  /** The transpose of a product is the product of the transposes, in reverse order. */
  lemma TransposeProduct(a: Grid, b: Grid, rows: nat, inside: nat, columns: nat)
    requires IsGrid(a, rows, inside) && IsGrid(b, inside, columns)
    ensures IsGrid(Product(a, b, columns), rows, columns)
    ensures Transpose(Product(a, b, columns), columns)
         == Product(Transpose(b, columns), Transpose(a, inside), rows)
  {
    forall j, i | 0 <= j < columns && 0 <= i < rows
      ensures Transpose(Product(a, b, columns), columns)[j][i]
           == Product(Transpose(b, columns), Transpose(a, inside), rows)[j][i]
    {
      DotTranspose(a, b, rows, inside, columns, i, j, inside);
    }
    GridEquality(Transpose(Product(a, b, columns), columns),
                 Product(Transpose(b, columns), Transpose(a, inside), rows), columns, rows);
  }

  // ---------------------------------------------------------------------------
  // Associativity of the product

  /** The sum over l < m of Dot(a, b, i, l, n) * c[l][j]: entry (i, j) of (a b) c
      with the inner sum cut off after n terms and the outer one after m. */
  function PartialTriple(a: Grid, b: Grid, c: Grid, i: nat, j: nat, n: nat, m: nat): (sum: real)
    requires IsGrid(a, |a|, |b|) && IsGrid(b, |b|, |c|) && i < |a| && n <= |b| && m <= |c|
    requires forall l :: 0 <= l < m ==> j < |c[l]|
  {
    if m == 0 then 0.0 else PartialTriple(a, b, c, i, j, n, m - 1) + Dot(a, b, i, m - 1, n) * c[m - 1][j]
  }

  lemma {:induction false} PartialTripleEmpty(a: Grid, b: Grid, c: Grid, i: nat, j: nat, m: nat)
    requires IsGrid(a, |a|, |b|) && IsGrid(b, |b|, |c|) && i < |a| && m <= |c|
    requires forall l :: 0 <= l < m ==> j < |c[l]|
    ensures PartialTriple(a, b, c, i, j, 0, m) == 0.0
  {
    if m > 0 {
      PartialTripleEmpty(a, b, c, i, j, m - 1);
    }
  }

  lemma RegroupStep(t: real, d: real, x: real, y: real, w: real, f: real)
    ensures (t + f * d) + (x + f * y) * w == (t + x * w) + f * (d + y * w)
  {
  }

  /** One more inner term adds a[i][n] times entry (n, j) of b c, cut off after m terms. */
  lemma {:induction false} PartialTripleStep(a: Grid, b: Grid, c: Grid, i: nat, j: nat, n: nat, m: nat)
    requires IsGrid(a, |a|, |b|) && IsGrid(b, |b|, |c|) && i < |a| && n < |b| && m <= |c|
    requires forall l :: 0 <= l < m ==> j < |c[l]|
    ensures PartialTriple(a, b, c, i, j, n + 1, m)
         == PartialTriple(a, b, c, i, j, n, m) + a[i][n] * Dot(b, c, n, j, m)
  {
    if m > 0 {
      PartialTripleStep(a, b, c, i, j, n, m - 1);
      RegroupStep(PartialTriple(a, b, c, i, j, n, m - 1), Dot(b, c, n, j, m - 1),
        Dot(a, b, i, m - 1, n), b[n][m - 1], c[m - 1][j], a[i][n]);
    }
  }

  lemma {:induction false} PartialTripleInner(a: Grid, b: Grid, c: Grid, columns: nat, i: nat, j: nat, n: nat)
    requires IsGrid(a, |a|, |b|) && IsGrid(b, |b|, |c|) && IsGrid(c, |c|, columns)
    requires i < |a| && j < columns && n <= |b|
    ensures PartialTriple(a, b, c, i, j, n, |c|) == Dot(a, Product(b, c, columns), i, j, n)
  {
    if n == 0 {
      PartialTripleEmpty(a, b, c, i, j, |c|);
    } else {
      PartialTripleInner(a, b, c, columns, i, j, n - 1);
      PartialTripleStep(a, b, c, i, j, n - 1, |c|);
    }
  }

  lemma {:induction false} PartialTripleOuter(a: Grid, b: Grid, c: Grid, columns: nat, i: nat, j: nat, m: nat)
    requires IsGrid(a, |a|, |b|) && IsGrid(b, |b|, |c|) && IsGrid(c, |c|, columns)
    requires i < |a| && j < columns && m <= |c|
    ensures PartialTriple(a, b, c, i, j, |b|, m) == Dot(Product(a, b, |c|), c, i, j, m)
  {
    if m > 0 {
      PartialTripleOuter(a, b, c, columns, i, j, m - 1);
    }
  }

  /** Over exact reals the product is associative: (a b) c == a (b c). */
  lemma ProductAssociative(a: Grid, b: Grid, c: Grid, columns: nat)
    requires IsGrid(a, |a|, |b|) && IsGrid(b, |b|, |c|) && IsGrid(c, |c|, columns)
    ensures Product(Product(a, b, |c|), c, columns) == Product(a, Product(b, c, columns), columns)
  {
    var left := Product(Product(a, b, |c|), c, columns);
    var right := Product(a, Product(b, c, columns), columns);
    forall i, j | 0 <= i < |a| && 0 <= j < columns
      ensures left[i][j] == right[i][j]
    {
      PartialTripleOuter(a, b, c, columns, i, j, |c|);
      PartialTripleInner(a, b, c, columns, i, j, |b|);
    }
    GridEquality(left, right, |a|, columns);
  }
}
