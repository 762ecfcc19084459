/** The Matrix class: a rows x columns grid of reals in a two-dimensional array,
    and its operations, each allocating a fresh result and filling it in with the
    loops of `matrix.py`. Determinant and inverse work on a fresh array of rows
    (a list of row lists), swap rows by exchanging them and update entries in place. */
module Matrices {
  import opened Grids
  import opened Results
  import opened Elimination

  class Matrix {
    const rows: nat
    const columns: nat
    const values: array2<real>

    ghost predicate Valid() {
      values.Length0 == rows && values.Length1 == columns
    }

    /** The entries as a grid value, row by row. */
    function Rows(): (g: Grid)
      requires Valid()
      reads values
      ensures IsGrid(g, rows, columns)
    {
      seq(rows, i requires 0 <= i < rows reads values =>
        seq(columns, j requires 0 <= j < columns reads values => values[i, j]))
    }

    /** If the array agrees with g entry by entry, g is the matrix's grid. */
    lemma RowsAre(g: Grid)
      requires Valid() && IsGrid(g, rows, columns)
      requires forall i, j :: 0 <= i < rows && 0 <= j < columns ==> values[i, j] == g[i][j]
      ensures Rows() == g
    {
      GridEquality(Rows(), g, rows, columns);
    }

    /** Fills a rows x columns grid from `flat`, row by row, with a running index
        into `flat`; the length has been checked by `Create`. */
    constructor Fill(rows: nat, columns: nat, flat: seq<real>)
      requires |flat| == rows * columns
      ensures Valid() && fresh(values)
      ensures this.rows == rows && this.columns == columns
      ensures Rows() == FromFlat(rows, columns, flat)
    {
      ghost var g := FromFlat(rows, columns, flat);
      var v := new real[rows, columns]((_, _) => 0.0);
      var k := 0;
      for i := 0 to rows
        invariant k == i * columns
        invariant forall r, c :: 0 <= r < i && 0 <= c < columns ==> v[r, c] == g[r][c]
      {
        for j := 0 to columns
          invariant k == i * columns + j
          invariant forall r, c :: 0 <= r < i && 0 <= c < columns ==> v[r, c] == g[r][c]
          invariant forall c :: 0 <= c < j ==> v[i, c] == g[i][c]
        {
          RowMajorBound(rows, columns, i, j);
          v[i, j] := flat[k];
          k := k + 1;
        }
        assert k == (i + 1) * columns;
      }
      this.rows := rows;
      this.columns := columns;
      values := v;
      new;
      RowsAre(g);
    }

    /** The matrix built from `flat`, or DimensionMismatch when its length is
        not rows * columns. */
    static method Create(rows: nat, columns: nat, flat: seq<real>) returns (r: Result<Matrix>)
      ensures r.Err? <==> |flat| != rows * columns
      ensures r.Err? ==> r.error == DimensionMismatch
      ensures r.Ok? ==> fresh(r.value) && fresh(r.value.values) && r.value.Valid()
      ensures r.Ok? ==> r.value.rows == rows && r.value.columns == columns
      ensures r.Ok? ==> r.value.Rows() == FromFlat(rows, columns, flat)
    {
      if |flat| != rows * columns {
        return Err(DimensionMismatch);
      }
      var m := new Matrix.Fill(rows, columns, flat);
      return Ok(m);
    }

    /** The transpose: a columns x rows matrix with entry (j, i) equal to entry (i, j). */
    method T() returns (t: Matrix)
      requires Valid()
      ensures fresh(t) && fresh(t.values) && t.Valid()
      ensures t.rows == columns && t.columns == rows
      ensures forall i, j :: 0 <= i < rows && 0 <= j < columns ==> t.values[j, i] == values[i, j]
      ensures t.Rows() == Transpose(Rows(), columns)
    {
      ghost var transposed := Transpose(Rows(), columns);
      t := new Matrix.Fill(columns, rows, Zeros(rows * columns));
      for i := 0 to rows
        invariant forall r, c :: 0 <= r < i && 0 <= c < columns ==> t.values[c, r] == values[r, c]
      {
        for j := 0 to columns
          invariant forall r, c :: 0 <= r < i && 0 <= c < columns ==> t.values[c, r] == values[r, c]
          invariant forall c :: 0 <= c < j ==> t.values[c, i] == values[i, c]
        {
          t.values[j, i] := values[i, j];
        }
      }
      t.RowsAre(transposed);
    }

    /** The element-wise sum, or DimensionMismatch when the shapes differ. */
    static method Add(a: Matrix, b: Matrix) returns (r: Result<Matrix>)
      requires a.Valid() && b.Valid()
      ensures r.Err? <==> a.rows != b.rows || a.columns != b.columns
      ensures r.Err? ==> r.error == DimensionMismatch
      ensures r.Ok? ==> fresh(r.value) && fresh(r.value.values) && r.value.Valid()
      ensures r.Ok? ==> r.value.rows == a.rows && r.value.columns == a.columns
      ensures r.Ok? ==> r.value.Rows() == Sum(a.Rows(), b.Rows())
    {
      if a.rows != b.rows || a.columns != b.columns {
        return Err(DimensionMismatch);
      }
      ghost var sum := Sum(a.Rows(), b.Rows());
      var result := new Matrix.Fill(a.rows, a.columns, Zeros(a.rows * a.columns));
      for i := 0 to a.rows
        invariant forall r, c :: 0 <= r < i && 0 <= c < a.columns ==>
          result.values[r, c] == a.values[r, c] + b.values[r, c]
      {
        for j := 0 to a.columns
          invariant forall r, c :: 0 <= r < i && 0 <= c < a.columns ==>
            result.values[r, c] == a.values[r, c] + b.values[r, c]
          invariant forall c :: 0 <= c < j ==> result.values[i, c] == a.values[i, c] + b.values[i, c]
        {
          result.values[i, j] := a.values[i, j] + b.values[i, j];
        }
      }
      result.RowsAre(sum);
      return Ok(result);
    }

    /** Every entry multiplied by x. */
    method MulScalar(x: real) returns (s: Matrix)
      requires Valid()
      ensures fresh(s) && fresh(s.values) && s.Valid()
      ensures s.rows == rows && s.columns == columns
      ensures s.Rows() == Scaled(Rows(), x)
    {
      ghost var scaled := Scaled(Rows(), x);
      s := new Matrix.Fill(rows, columns, Zeros(rows * columns));
      for i := 0 to rows
        invariant forall r, c :: 0 <= r < i && 0 <= c < columns ==> s.values[r, c] == values[r, c] * x
      {
        for j := 0 to columns
          invariant forall r, c :: 0 <= r < i && 0 <= c < columns ==> s.values[r, c] == values[r, c] * x
          invariant forall c :: 0 <= c < j ==> s.values[i, c] == values[i, c] * x
        {
          s.values[i, j] := values[i, j] * x;
        }
      }
      s.RowsAre(scaled);
    }

    /** The product, or DimensionMismatch unless a.columns == b.rows. Each entry
        is accumulated from 0 over k in increasing order. */
    static method Mul(a: Matrix, b: Matrix) returns (r: Result<Matrix>)
      requires a.Valid() && b.Valid()
      ensures r.Err? <==> a.columns != b.rows
      ensures r.Err? ==> r.error == DimensionMismatch
      ensures r.Ok? ==> fresh(r.value) && fresh(r.value.values) && r.value.Valid()
      ensures r.Ok? ==> r.value.rows == a.rows && r.value.columns == b.columns
      ensures r.Ok? ==> r.value.Rows() == Product(a.Rows(), b.Rows(), b.columns)
    {
      if a.columns != b.rows {
        return Err(DimensionMismatch);
      }
      var rows, columns, inside := a.rows, b.columns, a.columns;
      var result := new Matrix.Fill(rows, columns, Zeros(rows * columns));
      ghost var ga, gb := a.Rows(), b.Rows();
      forall r, c | 0 <= r < rows && 0 <= c < columns
        ensures result.values[r, c] == 0.0
      {
        RowMajorBound(rows, columns, r, c);
        assert result.values[r, c] == result.Rows()[r][c];
      }
      for i := 0 to rows
        invariant forall r, c :: 0 <= r < rows && 0 <= c < columns ==>
          result.values[r, c] == if r < i then Dot(ga, gb, r, c, inside) else 0.0
      {
        for j := 0 to columns
          invariant forall r, c :: 0 <= r < rows && 0 <= c < columns ==>
            result.values[r, c] == if r < i || (r == i && c < j) then Dot(ga, gb, r, c, inside) else 0.0
        {
          AccumulateEntry(a, b, result.values, i, j);
        }
      }
      result.RowsAre(Product(ga, gb, columns));
      return Ok(result);
    }

    /** The determinant, by Gaussian elimination with partial pivoting on a copy
        of the rows; NotSquare unless rows == columns. */
    method Det() returns (r: Result<real>)
      requires Valid()
      ensures r.Err? <==> rows != columns
      ensures r.Err? ==> r.error == NotSquare
      ensures r.Ok? ==> r.value == Determinant(Rows())
    {
      if rows != columns {
        return Err(NotSquare);
      }
      var n := rows;
      var g := Rows();
      var m := new seq<real>[n](i requires 0 <= i < n => g[i]);
      assert m[..] == g;
      var determinant := 1.0;
      for i := 0 to n
        invariant Remaining(m[..], i, determinant, Determinant(g))
      {
        var zero;
        zero, determinant := DetColumn(m, i, determinant, Determinant(g));
        if zero {
          return Ok(0.0);
        }
      }
      DetFromStop(m[..], n, determinant);
      return Ok(determinant);
    }

    /** The inverse, by Gauss-Jordan elimination on the rows augmented with the
        identity; NotSquare unless rows == columns, Singular at a pivot below the
        tolerance. */
    method Inverse() returns (r: Result<Matrix>)
      requires Valid()
      ensures r.Err? <==> rows != columns || InverseOf(Rows()).Err?
      ensures r.Err? ==> r.error == if rows != columns then NotSquare else Singular
      ensures r.Ok? ==> fresh(r.value) && fresh(r.value.values) && r.value.Valid()
      ensures r.Ok? ==> r.value.rows == rows && r.value.columns == rows
      ensures r.Ok? ==> r.value.Rows() == InverseOf(Rows()).value
    {
      if rows != columns {
        return Err(NotSquare);
      }
      var n := rows;
      var g := Rows();
      var augmented := new seq<real>[n](i requires 0 <= i < n => g[i] + IdentityRow(n, i));
      assert augmented[..] == Augment(g);
      var invertible := GaussJordanInPlace(augmented, GaussJordanFrom(Augment(g), 0));
      if !invertible {
        return Err(Singular);
      }
      var inverseValues := RightHalves(augmented);
      FromFlatFlatten(RightBlock(augmented[..], n), n, n);
      var result := new Matrix.Fill(n, n, inverseValues);
      return Ok(result);
    }
  }

  /** Entry (i, j) of `result`, which starts at 0, gains a[i][k] * b[k][j] for
      k = 0, 1, ... in order. */
  method AccumulateEntry(a: Matrix, b: Matrix, result: array2<real>, i: nat, j: nat)
    requires a.Valid() && b.Valid() && a.columns == b.rows
    requires i < result.Length0 == a.rows && j < result.Length1 == b.columns
    requires result != a.values && result != b.values
    requires result[i, j] == 0.0
    modifies result
    ensures result[i, j] == Dot(a.Rows(), b.Rows(), i, j, a.columns)
    ensures forall r, c :: 0 <= r < result.Length0 && 0 <= c < result.Length1 && (r != i || c != j) ==>
      result[r, c] == old(result[r, c])
  {
    for k := 0 to a.columns
      invariant result[i, j] == Dot(a.Rows(), b.Rows(), i, j, k)
      invariant forall r, c :: 0 <= r < result.Length0 && 0 <= c < result.Length1 && (r != i || c != j) ==>
        result[r, c] == old(result[r, c])
    {
      result[i, j] := result[i, j] + a.values[i, k] * b.values[k, j];
    }
  }

  /** The rows g are in the state before determinant step i with accumulator
      acc, and target is what the determinant loop returns from there. */
  ghost predicate Remaining(g: Grid, i: nat, acc: real, target: real) {
    IsWork(g, |g|) && i <= |g| && target == DetFrom(g, i, acc)
  }

  /** Column i of the determinant in place, where target is what the loop
      returns from step i: true when the pivot is below the tolerance (target is
      then 0.0); otherwise false with step i done and the new accumulator. */
  method DetColumn(m: array<seq<real>>, i: nat, determinant: real, ghost target: real)
    returns (zero: bool, next: real)
    requires i < m.Length && Remaining(m[..], i, determinant, target)
    modifies m
    ensures zero <==> SmallPivot(old(m[..]), i)
    ensures zero ==> m[..] == old(m[..]) && target == 0.0
    ensures !zero ==> m[..] == DetStepGrid(old(m[..]), i) && next == DetStepAcc(old(m[..]), i, determinant)
    ensures !zero ==> Remaining(m[..], i + 1, next, target)
  {
    var pivotRow := PivotRow(m[..], i, i);
    var pivotValue := m[pivotRow][i];
    SmallPivotIs(m[..], i, pivotValue);
    if Abs(pivotValue) < Tolerance {
      DetFromStop(m[..], i, determinant);
      return true, determinant;
    }
    next := DetStepInPlace(m, i, pivotRow, determinant);
    DetFromStep(old(m[..]), i, determinant);
    zero := false;
  }

  /** Determinant step i in place: swap the pivot row up (negating the
      accumulator), multiply the pivot in, clear column i below it. */
  method DetStepInPlace(m: array<seq<real>>, i: nat, pivotRow: nat, determinant: real)
    returns (next: real)
    requires IsWork(m[..], m.Length) && i < m.Length
    requires pivotRow == PivotRow(m[..], i, i) && !SmallPivot(m[..], i)
    modifies m
    ensures m[..] == DetStepGrid(old(m[..]), i)
    ensures next == DetStepAcc(old(m[..]), i, determinant)
  {
    next := determinant;
    if pivotRow != i {
      m[i], m[pivotRow] := m[pivotRow], m[i];
      next := next * -1.0;
    }
    assert m[..] == Pivoted(old(m[..]), i);
    ghost var signed := next;
    assert signed == if pivotRow != i then determinant * -1.0 else determinant;
    var pivot := m[i][i];
    DetStepAccIs(old(m[..]), i, determinant, signed, pivot);
    next := next * pivot;
    EliminateBelowInPlace(m, i);
  }

  /** Gauss-Jordan elimination in place on the augmented rows: false at the first
      pivot below the tolerance, otherwise true with the rows fully reduced. */
  method GaussJordanInPlace(m: array<seq<real>>, ghost outcome: Result<Grid>) returns (invertible: bool)
    requires Pending(m[..], 0, outcome)
    modifies m
    ensures invertible <==> outcome.Ok?
    ensures invertible ==> m[..] == outcome.value
  {
    var n := m.Length;
    var i := 0;
    while i < n
      invariant i <= n && Pending(m[..], i, outcome)
    {
      var singular := GaussJordanColumn(m, i, outcome);
      if singular {
        return false;
      }
      i := i + 1;
    }
    GaussJordanFromStop(m[..], n);
    return true;
  }

  /** The augmented rows g are in the state before Gauss-Jordan step i, and
      outcome is what the elimination yields from there. */
  ghost predicate Pending(g: Grid, i: nat, outcome: Result<Grid>) {
    IsWork(g, 2 * |g|) && i <= |g| && outcome == GaussJordanFrom(g, i)
  }

  /** Column i of Gauss-Jordan elimination in place: true when the pivot is
      below the tolerance (outcome is then Singular); otherwise false with step
      i done. */
  method GaussJordanColumn(m: array<seq<real>>, i: nat, ghost outcome: Result<Grid>) returns (singular: bool)
    requires i < m.Length && Pending(m[..], i, outcome)
    modifies m
    ensures singular <==> SmallPivot(old(m[..]), i)
    ensures singular ==> m[..] == old(m[..]) && outcome == Err(Singular)
    ensures !singular ==> m[..] == GaussJordanStep(old(m[..]), i)
    ensures !singular ==> Pending(m[..], i + 1, outcome)
  {
    var pivotRow := PivotRow(m[..], i, i);
    var pivotValue := m[pivotRow][i];
    SmallPivotIs(m[..], i, pivotValue);
    if Abs(pivotValue) < Tolerance {
      GaussJordanFromStop(m[..], i);
      return true;
    }
    GaussJordanStepInPlace(m, i, pivotRow);
    GaussJordanFromStep(old(m[..]), i);
    return false;
  }

  /** Gauss-Jordan step i in place: swap the pivot row up, normalise it, clear
      column i in every other row. */
  method GaussJordanStepInPlace(m: array<seq<real>>, i: nat, pivotRow: nat)
    requires IsWork(m[..], 2 * m.Length) && i < m.Length
    requires pivotRow == PivotRow(m[..], i, i) && !SmallPivot(m[..], i)
    modifies m
    ensures m[..] == GaussJordanStep(old(m[..]), i)
  {
    if pivotRow != i {
      m[i], m[pivotRow] := m[pivotRow], m[i];
    }
    assert m[..] == Pivoted(old(m[..]), i);
    NormalizeInPlace(m, i);
    EliminateOthersInPlace(m, i);
  }

  /** Columns n.. of every row (n the number of rows), concatenated row by row. */
  method RightHalves(m: array<seq<real>>) returns (flat: seq<real>)
    requires forall r :: 0 <= r < m.Length ==> m.Length <= |m[r]|
    ensures flat == Flatten(RightBlock(m[..], m.Length))
  {
    var n := m.Length;
    ghost var right := RightBlock(m[..], n);
    flat := [];
    for i := 0 to n
      invariant flat == Flatten(right[..i])
    {
      assert right[..i + 1][..i] == right[..i];
      flat := flat + m[i][n..];
    }
    assert right[..n] == right;
  }

  /** Row j loses factor times row i, entry by entry, on the columns from `from` on. */
  method SubtractRowInPlace(m: array<seq<real>>, j: nat, i: nat, factor: real, from: nat)
    requires i < m.Length && j < m.Length && i != j && |m[j]| == |m[i]| && from <= |m[j]|
    modifies m
    ensures m[..] == old(m[..])[j := SubtractRow(old(m[j]), old(m[i]), factor, from)]
  {
    ghost var s := m[..];
    for k := from to |m[j]|
      invariant m[..] == s[j := m[j]]
      invariant |m[j]| == |s[j]|
      invariant forall c :: 0 <= c < |s[j]| ==>
        m[j][c] == if from <= c < k then s[j][c] - factor * s[i][c] else s[j][c]
    {
      m[j] := m[j][k := m[j][k] - factor * m[i][k]];
    }
    assert forall c :: 0 <= c < |m[j]| ==> m[j][c] == SubtractRow(s[j], s[i], factor, from)[c];
    assert m[j] == SubtractRow(s[j], s[i], factor, from);
  }

  /** Determinant step i in place, after the pivot is in row i: each row j > i
      loses m[j][i] / m[i][i] times row i on the columns from i on. */
  method EliminateBelowInPlace(m: array<seq<real>>, i: nat)
    requires IsWork(m[..], m.Length) && i < m.Length && m[i][i] != 0.0
    modifies m
    ensures m[..] == EliminateBelow(old(m[..]), i)
  {
    ghost var s := m[..];
    var n := m.Length;
    var pivot := m[i][i];
    for j := i + 1 to n
      invariant forall r :: 0 <= r < n ==> m[r] == if i < r < j then ReducedBelow(s, i, r) else s[r]
    {
      var factor := m[j][i] / pivot;
      SubtractRowInPlace(m, j, i, factor, i);
    }
    assert m[..] == EliminateBelow(s, i);
  }

  /** Gauss-Jordan step i, first half: row i divided, entry by entry, by its pivot. */
  method NormalizeInPlace(m: array<seq<real>>, i: nat)
    requires IsWork(m[..], 2 * m.Length) && i < m.Length && m[i][i] != 0.0
    modifies m
    ensures m[..] == Normalize(old(m[..]), i, 2 * m.Length)
  {
    ghost var s := m[..];
    var pivot := m[i][i];
    for k := 0 to 2 * m.Length
      invariant m[..] == s[i := m[i]]
      invariant |m[i]| == |s[i]|
      invariant forall c :: 0 <= c < |s[i]| ==> m[i][c] == if c < k then s[i][c] / pivot else s[i][c]
    {
      m[i] := m[i][k := m[i][k] / pivot];
    }
    assert m[i] == Normalize(s, i, 2 * m.Length)[i];
    assert m[..] == Normalize(s, i, 2 * m.Length);
  }

  /** Gauss-Jordan step i, second half: every other row with a nonzero entry in
      column i loses that entry times row i, across the whole row. */
  method EliminateOthersInPlace(m: array<seq<real>>, i: nat)
    requires IsWork(m[..], 2 * m.Length) && i < m.Length
    modifies m
    ensures m[..] == EliminateOthers(old(m[..]), i, 2 * m.Length)
  {
    ghost var s := m[..];
    var n := m.Length;
    for j := 0 to n
      invariant forall r :: 0 <= r < n ==> m[r] == if r < j && r != i then ReducedOther(s, i, r) else s[r]
    {
      if j == i {
        continue;
      }
      var factor := m[j][i];
      if factor == 0.0 {
        continue;
      }
      SubtractRowInPlace(m, j, i, factor, 0);
    }
    assert m[..] == EliminateOthers(s, i, 2 * n);
  }
}
