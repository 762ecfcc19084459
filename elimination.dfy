/** The determinant (Gaussian elimination with partial pivoting) and the inverse
    (Gauss-Jordan elimination on the matrix augmented with the identity), written
    as functions of the grid they work on, one elimination step at a time. */
module Elimination {
  import opened Grids
  import opened Results

  /** A pivot whose magnitude is below this counts as zero (1e-12). */
  const Tolerance: real := 0.000000000001

  function Abs(x: real): (r: real)
    ensures r >= 0.0 && (r == x || r == -x)
  {
    if x < 0.0 then -x else x
  }

  /** Shape of a working grid: n rows, each of `width` entries, width >= n. */
  predicate IsWork(g: Grid, width: nat) {
    IsGrid(g, |g|, width) && |g| <= width
  }

  // ---------------------------------------------------------------------------
  // Pivot choice and the row operations

  /** The row chosen as pivot for column c among rows from..|g|-1: the first one
      whose entry in column c has the largest magnitude (a maximum by key keeps
      the first of equal keys). */
  function PivotRow(g: Grid, c: nat, from: nat): (p: nat)
    requires from < |g| && forall r :: from <= r < |g| ==> c < |g[r]|
    ensures from <= p < |g|
    decreases |g| - from
  {
    if from == |g| - 1 then from
    else
      var q := PivotRow(g, c, from + 1);
      if Abs(g[from][c]) < Abs(g[q][c]) then q else from
  }

  /** The pivot row holds a largest magnitude in column c, and every row before
      it holds a strictly smaller one. */
  lemma {:induction false} PivotRowIsFirstMaximum(g: Grid, c: nat, from: nat)
    requires from < |g| && forall r :: from <= r < |g| ==> c < |g[r]|
    ensures var p := PivotRow(g, c, from);
      (forall r :: from <= r < |g| ==> Abs(g[r][c]) <= Abs(g[p][c])) &&
      (forall r :: from <= r < p ==> Abs(g[r][c]) < Abs(g[p][c]))
    decreases |g| - from
  {
    if from < |g| - 1 {
      PivotRowIsFirstMaximum(g, c, from + 1);
    }
  }

  /** Rows i and p exchanged. */
  function SwapRows(g: Grid, i: nat, p: nat): (s: Grid)
    requires i < |g| && p < |g|
    ensures |s| == |g|
  {
    g[i := g[p]][p := g[i]]
  }

  /** The pivot row p brought to position i, if it is not there already. */
  function BringUp(g: Grid, i: nat, p: nat): (s: Grid)
    requires i < |g| && p < |g|
    ensures |s| == |g|
  {
    if p != i then SwapRows(g, i, p) else g
  }

  /** row - factor * pivotRow on the columns from `from` on; columns before it unchanged. */
  function SubtractRow(row: seq<real>, pivotRow: seq<real>, factor: real, from: nat): (r: seq<real>)
    requires |pivotRow| == |row|
    ensures |r| == |row|
  {
    seq(|row|, k requires 0 <= k < |row| =>
      if k < from then row[k] else row[k] - factor * pivotRow[k])
  }

  // ---------------------------------------------------------------------------
  // Determinant

  /** Row j (below the pivot row i) after determinant step i: it loses
      (its column-i entry / pivot) times the pivot row, on columns i and beyond. */
  function ReducedBelow(g: Grid, i: nat, j: nat): (row: seq<real>)
    requires IsWork(g, |g|) && i < j < |g| && g[i][i] != 0.0
    ensures |row| == |g[j]|
  {
    SubtractRow(g[j], g[i], g[j][i] / g[i][i], i)
  }

  /** One elimination step of the determinant: every row below row i is reduced. */
  function EliminateBelow(g: Grid, i: nat): (e: Grid)
    requires IsWork(g, |g|) && i < |g| && g[i][i] != 0.0
    ensures |e| == |g| && IsWork(e, |g|)
  {
    seq(|g|, j requires 0 <= j < |g| => if j <= i then g[j] else ReducedBelow(g, i, j))
  }

  /** The pivot of column i is too small to use. */
  predicate SmallPivot(g: Grid, i: nat)
    requires i < |g| && forall r :: i <= r < |g| ==> i < |g[r]|
  {
    Abs(g[PivotRow(g, i, i)][i]) < Tolerance
  }

  /** The pivot test on the value the pivot row holds in column i. */
  lemma SmallPivotIs(g: Grid, i: nat, pivotValue: real)
    requires i < |g| && forall r :: i <= r < |g| ==> i < |g[r]|
    requires pivotValue == g[PivotRow(g, i, i)][i]
    ensures SmallPivot(g, i) == (Abs(pivotValue) < Tolerance)
  {
  }

  /** g with the pivot row for column i brought to position i. */
  function Pivoted(g: Grid, i: nat): (s: Grid)
    requires i < |g| && forall r :: i <= r < |g| ==> i < |g[r]|
    ensures |s| == |g| && s[i] == g[PivotRow(g, i, i)]
    ensures forall w :: IsWork(g, w) ==> IsWork(s, w)
  {
    BringUp(g, i, PivotRow(g, i, i))
  }

  /** The grid after determinant step i. */
  function DetStepGrid(g: Grid, i: nat): (e: Grid)
    requires IsWork(g, |g|) && i < |g| && !SmallPivot(g, i)
    ensures |e| == |g| && IsWork(e, |g|)
  {
    EliminateBelow(Pivoted(g, i), i)
  }

  /** The accumulator after determinant step i: negated if rows were swapped,
      then multiplied by the pivot. */
  function DetStepAcc(g: Grid, i: nat, acc: real): (next: real)
    requires IsWork(g, |g|) && i < |g|
  {
    (if PivotRow(g, i, i) != i then acc * -1.0 else acc) * Pivoted(g, i)[i][i]
  }

  lemma DetStepAccIs(g: Grid, i: nat, acc: real, signed: real, pivot: real)
    requires IsWork(g, |g|) && i < |g|
    requires signed == (if PivotRow(g, i, i) != i then acc * -1.0 else acc)
    requires pivot == Pivoted(g, i)[i][i]
    ensures DetStepAcc(g, i, acc) == signed * pivot
  {
  }

  /** What the determinant loop returns when it starts step i on grid g with
      accumulator acc: 0.0 at the first pivot below the tolerance, otherwise acc
      negated once per row swap and multiplied by every pivot. */
  function DetFrom(g: Grid, i: nat, acc: real): (det: real)
    requires IsWork(g, |g|) && i <= |g|
    decreases |g| - i
  {
    if i == |g| then acc
    else if SmallPivot(g, i) then 0.0
    else DetFrom(DetStepGrid(g, i), i + 1, DetStepAcc(g, i, acc))
  }

  /** The determinant of a square grid, as the elimination computes it. */
  function Determinant(g: Grid): (det: real)
    requires IsGrid(g, |g|, |g|)
  {
    DetFrom(g, 0, 1.0)
  }

  // ---------------------------------------------------------------------------
  // Inverse

  /** Row i of g followed by row i of the identity. */
  function Augment(g: Grid): (a: Grid)
    requires IsGrid(g, |g|, |g|)
    ensures |a| == |g| && IsWork(a, 2 * |g|)
    ensures forall i, j :: 0 <= i < |g| && 0 <= j < |g| ==> a[i][j] == g[i][j]
    ensures forall i, j :: 0 <= i < |g| && 0 <= j < |g| ==> a[i][|g| + j] == Identity(|g|)[i][j]
  {
    seq(|g|, i requires 0 <= i < |g| => g[i] + IdentityRow(|g|, i))
  }

  /** Row i divided by its own column-i entry, which makes that entry 1. */
  function Normalize(g: Grid, i: nat, width: nat): (e: Grid)
    requires IsWork(g, width) && i < |g| && g[i][i] != 0.0
    ensures |e| == |g| && IsWork(e, width)
  {
    g[i := seq(|g[i]|, k requires 0 <= k < |g[i]| => g[i][k] / g[i][i])]
  }

  /** Row j (not the pivot row i) after Gauss-Jordan step i: unchanged when its
      column-i entry is zero, otherwise it loses that entry times row i across the
      whole row. */
  function ReducedOther(g: Grid, i: nat, j: nat): (row: seq<real>)
    requires i < |g| && j < |g| && |g[j]| == |g[i]| && i < |g[j]|
    ensures |row| == |g[j]|
  {
    if g[j][i] == 0.0 then g[j] else SubtractRow(g[j], g[i], g[j][i], 0)
  }

  /** The elimination half of Gauss-Jordan step i: every row other than i is reduced. */
  function EliminateOthers(g: Grid, i: nat, width: nat): (e: Grid)
    requires IsWork(g, width) && i < |g|
    ensures |e| == |g| && IsWork(e, width)
  {
    seq(|g|, j requires 0 <= j < |g| => if j == i then g[j] else ReducedOther(g, i, j))
  }

  /** The augmented grid after Gauss-Jordan step i. */
  function GaussJordanStep(g: Grid, i: nat): (e: Grid)
    requires IsWork(g, 2 * |g|) && i < |g| && !SmallPivot(g, i)
    ensures |e| == |g| && IsWork(e, 2 * |g|)
  {
    EliminateOthers(Normalize(Pivoted(g, i), i, 2 * |g|), i, 2 * |g|)
  }

  /** What Gauss-Jordan elimination yields when it starts step i on the augmented
      grid g: the fully reduced grid, or Singular at the first pivot below the tolerance. */
  function GaussJordanFrom(g: Grid, i: nat): (r: Result<Grid>)
    requires IsWork(g, 2 * |g|) && i <= |g|
    ensures r.Ok? ==> |r.value| == |g| && IsWork(r.value, 2 * |g|)
    ensures r.Err? ==> r.error == Singular
    decreases |g| - i
  {
    if i == |g| then Ok(g)
    else if SmallPivot(g, i) then Err(Singular)
    else
      GaussJordanFrom(GaussJordanStep(g, i), i + 1)
  }

  /** Columns n.. of every row. */
  function RightBlock(a: Grid, n: nat): (b: Grid)
    requires forall i :: 0 <= i < |a| ==> n <= |a[i]|
  {
    seq(|a|, i requires 0 <= i < |a| => a[i][n..])
  }

  /** The inverse of a square grid, or Singular, as Gauss-Jordan elimination computes it. */
  function InverseOf(g: Grid): (r: Result<Grid>)
    requires IsGrid(g, |g|, |g|)
    ensures r.Ok? ==> IsGrid(r.value, |g|, |g|)
    ensures r.Err? ==> r.error == Singular
  {
    match GaussJordanFrom(Augment(g), 0)
    case Ok(a) => Ok(RightBlock(a, |g|))
    case Err(e) => Err(e)
  }

  // ---------------------------------------------------------------------------
  // What one step does

  lemma CancelQuotient(x: real, p: real)
    requires p != 0.0
    ensures x - x / p * p == 0.0
  {
  }

  /** The pivot exchange touches only rows i and PivotRow(g, i, i). */
  lemma PivotedExchanges(g: Grid, i: nat)
    requires i < |g| && forall r :: i <= r < |g| ==> i < |g[r]|
    ensures var p := PivotRow(g, i, i);
      Pivoted(g, i)[p] == g[i] &&
      forall r :: 0 <= r < |g| && r != i && r != p ==> Pivoted(g, i)[r] == g[r]
  {
  }

  /** Determinant step i changes only rows below i, and in them only columns i
      and beyond; it leaves zeros in column i below the pivot. */
  lemma EliminateBelowFrame(g: Grid, i: nat)
    requires IsWork(g, |g|) && i < |g| && g[i][i] != 0.0
    ensures forall j :: 0 <= j <= i ==> EliminateBelow(g, i)[j] == g[j]
    ensures forall j, k :: i < j < |g| && 0 <= k < i ==> EliminateBelow(g, i)[j][k] == g[j][k]
    ensures forall j :: i < j < |g| ==> EliminateBelow(g, i)[j][i] == 0.0
  {
    forall j | i < j < |g|
      ensures EliminateBelow(g, i)[j][i] == 0.0
    {
      CancelQuotient(g[j][i], g[i][i]);
    }
  }

  /** Normalisation divides row i by its pivot, which makes the pivot 1, and
      leaves the other rows alone. */
  lemma NormalizeFrame(g: Grid, i: nat, width: nat)
    requires IsWork(g, width) && i < |g| && g[i][i] != 0.0
    ensures Normalize(g, i, width)[i][i] == 1.0
    ensures forall k :: 0 <= k < width ==> Normalize(g, i, width)[i][k] == g[i][k] / g[i][i]
    ensures forall j :: 0 <= j < |g| && j != i ==> Normalize(g, i, width)[j] == g[j]
  {
  }

  /** After normalisation (pivot 1), the elimination half of a Gauss-Jordan step
      keeps row i, leaves every row whose column-i entry is 0 untouched and zeros
      column i in every other row. */
  lemma EliminateOthersFrame(g: Grid, i: nat, width: nat)
    requires IsWork(g, width) && i < |g| && g[i][i] == 1.0
    ensures EliminateOthers(g, i, width)[i] == g[i]
    ensures forall j :: 0 <= j < |g| && g[j][i] == 0.0 ==> EliminateOthers(g, i, width)[j] == g[j]
    ensures forall j :: 0 <= j < |g| && j != i ==> EliminateOthers(g, i, width)[j][i] == 0.0
  {
  }

  /** After Gauss-Jordan step i, column i is the i-th unit column. */
  lemma GaussJordanStepColumn(g: Grid, i: nat)
    requires IsWork(g, 2 * |g|) && i < |g| && !SmallPivot(g, i)
    ensures GaussJordanStep(g, i)[i][i] == 1.0
    ensures forall j :: 0 <= j < |g| && j != i ==> GaussJordanStep(g, i)[j][i] == 0.0
  {
    var n := Normalize(Pivoted(g, i), i, 2 * |g|);
    NormalizeFrame(Pivoted(g, i), i, 2 * |g|);
    EliminateOthersFrame(n, i, 2 * |g|);
  }

  /** Entry (r, c) below the pivot row after determinant step i, in terms of the
      grid after the pivot exchange. */
  lemma DetStepEntry(g: Grid, i: nat, r: nat, c: nat)
    requires IsWork(g, |g|) && i < r < |g| && i <= c < |g| && !SmallPivot(g, i)
    ensures var s := Pivoted(g, i);
      DetStepGrid(g, i)[r][c] == s[r][c] - s[r][i] / s[i][i] * s[i][c]
  {
  }

  /** Entry (r, c) of a row other than the pivot row after Gauss-Jordan step i,
      in terms of the grid after the pivot exchange. */
  lemma GaussJordanStepEntry(g: Grid, i: nat, r: nat, c: nat)
    requires IsWork(g, 2 * |g|) && i < |g| && r < |g| && r != i && c < 2 * |g| && !SmallPivot(g, i)
    ensures var s := Pivoted(g, i);
      GaussJordanStep(g, i)[r][c] ==
        if s[r][i] == 0.0 then s[r][c] else s[r][c] - s[r][i] * (s[i][c] / s[i][i])
  {
  }

  /** DetFrom after a step with a usable pivot is DetFrom of the next step. */
  lemma DetFromStep(g: Grid, i: nat, acc: real)
    requires IsWork(g, |g|) && i < |g| && !SmallPivot(g, i)
    ensures DetFrom(g, i, acc) == DetFrom(DetStepGrid(g, i), i + 1, DetStepAcc(g, i, acc))
  {
  }

  /** GaussJordanFrom after a step with a usable pivot is GaussJordanFrom of the next step. */
  lemma GaussJordanFromStep(g: Grid, i: nat)
    requires IsWork(g, 2 * |g|) && i < |g| && !SmallPivot(g, i)
    ensures GaussJordanFrom(g, i) == GaussJordanFrom(GaussJordanStep(g, i), i + 1)
  {
  }

  /** DetFrom where the loop stops: after the last column, or at a pivot below the tolerance. */
  lemma DetFromStop(g: Grid, i: nat, acc: real)
    requires IsWork(g, |g|) && i <= |g| && (i < |g| ==> SmallPivot(g, i))
    ensures DetFrom(g, i, acc) == if i == |g| then acc else 0.0
  {
  }

  /** GaussJordanFrom where the loop stops: after the last column, or at a pivot below the tolerance. */
  lemma GaussJordanFromStop(g: Grid, i: nat)
    requires IsWork(g, 2 * |g|) && i <= |g| && (i < |g| ==> SmallPivot(g, i))
    ensures GaussJordanFrom(g, i) == if i == |g| then Ok(g) else Err(Singular)
  {
  }
}
