/** Properties of the inverse as Gauss-Jordan elimination computes it: the
    elimination leaves the identity in the left block, and it fails as Singular
    exactly when the determinant is 0.0. */
module InverseFacts {
  import opened Grids
  import opened Results
  import opened Elimination
  import opened DeterminantFacts

  // ---------------------------------------------------------------------------
  // The left block becomes the identity

  /** Columns 0..i-1 of g are the first i columns of the identity. */
  predicate UnitColumns(g: Grid, i: nat)
    requires forall r :: 0 <= r < |g| ==> i <= |g[r]|
  {
    forall r, c :: 0 <= r < |g| && 0 <= c < i ==> g[r][c] == if r == c then 1.0 else 0.0
  }

  /** Gauss-Jordan step i keeps the unit columns before i and adds column i. */
  lemma StepKeepsUnitColumns(g: Grid, i: nat)
    requires IsWork(g, 2 * |g|) && i < |g| && !SmallPivot(g, i) && UnitColumns(g, i)
    ensures UnitColumns(GaussJordanStep(g, i), i + 1)
  {
    var n := |g|;
    var s := Pivoted(g, i);
    PivotedExchanges(g, i);
    UsablePivot(g, i);
    assert UnitColumns(s, i);
    var m := Normalize(s, i, 2 * n);
    NormalizeFrame(s, i, 2 * n);
    assert UnitColumns(m, i);
    GaussJordanStepColumn(g, i);
  }

  /** One Gauss-Jordan step with a usable pivot adds a unit column. */
  lemma UnitColumnsStep(g: Grid, i: nat) returns (g2: Grid)
    requires IsWork(g, 2 * |g|) && i < |g| && !SmallPivot(g, i) && UnitColumns(g, i)
    ensures |g2| == |g| && IsWork(g2, 2 * |g|) && UnitColumns(g2, i + 1)
    ensures GaussJordanFrom(g, i) == GaussJordanFrom(g2, i + 1)
  {
    StepKeepsUnitColumns(g, i);
    GaussJordanFromStep(g, i);
    g2 := GaussJordanStep(g, i);
  }

  /** result is what the elimination yields from step i on g, whose first i
      columns are unit columns; when it succeeds all n columns are. */
  lemma {:induction false} GaussJordanFromUnitColumns(g: Grid, i: nat, result: Result<Grid>)
    requires IsWork(g, 2 * |g|) && i <= |g| && UnitColumns(g, i)
    requires result == GaussJordanFrom(g, i)
    ensures result.Ok? ==> |result.value| == |g| && IsWork(result.value, 2 * |g|) && UnitColumns(result.value, |g|)
    decreases |g| - i
  {
    if i == |g| || SmallPivot(g, i) {
      GaussJordanFromStop(g, i);
    } else {
      var g2 := UnitColumnsStep(g, i);
      GaussJordanFromUnitColumns(g2, i + 1, result);
    }
  }

  /** Columns 0..n-1 of every row. */
  function LeftBlock(a: Grid, n: nat): (b: Grid)
    requires forall i :: 0 <= i < |a| ==> n <= |a[i]|
  {
    seq(|a|, i requires 0 <= i < |a| => a[i][..n])
  }

  /** When Gauss-Jordan elimination succeeds, the left half of the reduced
      augmented grid is the identity. */
  lemma GaussJordanLeftIdentity(g: Grid)
    requires IsGrid(g, |g|, |g|)
    ensures var r := GaussJordanFrom(Augment(g), 0);
      r.Ok? ==> LeftBlock(r.value, |g|) == Identity(|g|)
  {
    var n := |g|;
    var r := GaussJordanFrom(Augment(g), 0);
    GaussJordanFromUnitColumns(Augment(g), 0, r);
    if r.Ok? {
      var left := LeftBlock(r.value, n);
      forall i | 0 <= i < n
        ensures left[i] == Identity(n)[i]
      {
      }
    }
  }

  // ---------------------------------------------------------------------------
  // Singular exactly when the determinant is 0.0

  /** The determinant's grid d and the augmented grid a agree on rows i.. and
      columns i..|d|-1. */
  predicate Agree(d: Grid, a: Grid, i: nat)
    requires IsWork(d, |d|) && IsWork(a, 2 * |a|) && |d| == |a|
  {
    forall r, c :: i <= r < |d| && i <= c < |d| ==> d[r][c] == a[r][c]
  }

  /** The pivot choice reads only column c of rows from.. . */
  lemma {:induction false} PivotRowAgree(d: Grid, a: Grid, c: nat, from: nat)
    requires from < |d| == |a|
    requires forall r :: from <= r < |d| ==> c < |d[r]| && c < |a[r]| && d[r][c] == a[r][c]
    ensures PivotRow(d, c, from) == PivotRow(a, c, from)
    decreases |d| - from
  {
    if from < |d| - 1 {
      PivotRowAgree(d, a, c, from + 1);
    }
  }

  /** Dividing the pivot row first, or the factor, gives the same entry. */
  lemma ReorderQuotient(x: real, y: real, z: real, p: real)
    requires p != 0.0
    ensures x - y / p * z == x - y * (z / p)
  {
  }

  /** A zero factor leaves the entry alone. */
  lemma ZeroFactor(x: real, z: real, p: real)
    requires p != 0.0
    ensures x - 0.0 / p * z == x
  {
  }

  /** DetStepEntry with the four entries it reads passed as plain values. */
  lemma DetStepEntryOf(g: Grid, i: nat, r: nat, c: nat, x: real, y: real, z: real, p: real)
    requires IsWork(g, |g|) && i < r < |g| && i <= c < |g| && !SmallPivot(g, i)
    requires var s := Pivoted(g, i); x == s[r][c] && y == s[r][i] && z == s[i][c] && p == s[i][i]
    ensures DetStepGrid(g, i)[r][c] == x - y / p * z
  {
    DetStepEntry(g, i, r, c);
  }

  /** GaussJordanStepEntry with the four entries it reads passed as plain values. */
  lemma GaussJordanStepEntryOf(g: Grid, i: nat, r: nat, c: nat, x: real, y: real, z: real, p: real)
    requires IsWork(g, 2 * |g|) && i < |g| && r < |g| && r != i && c < 2 * |g| && !SmallPivot(g, i)
    requires var s := Pivoted(g, i); x == s[r][c] && y == s[r][i] && z == s[i][c] && p == s[i][i]
    ensures y == 0.0 ==> GaussJordanStep(g, i)[r][c] == x
    ensures y != 0.0 ==> GaussJordanStep(g, i)[r][c] == x - y * (z / p)
  {
    GaussJordanStepEntry(g, i, r, c);
  }

  /** On agreeing grids with the same pivot row, entry (r, c) past the pivot
      comes out the same from both steps. */
  lemma StepAgreeEntry(d: Grid, a: Grid, i: nat, r: nat, c: nat)
    requires IsWork(d, |d|) && IsWork(a, 2 * |a|) && |d| == |a| && i < r < |d| && i < c < |d|
    requires !SmallPivot(d, i) && !SmallPivot(a, i)
    requires Agree(Pivoted(d, i), Pivoted(a, i), i)
    ensures DetStepGrid(d, i)[r][c] == GaussJordanStep(a, i)[r][c]
  {
    var sd, sa := Pivoted(d, i), Pivoted(a, i);
    var x, y, z, p := sd[r][c], sd[r][i], sd[i][c], sd[i][i];
    assert sa[r][c] == x && sa[r][i] == y && sa[i][c] == z && sa[i][i] == p;
    UsablePivot(d, i);
    DetStepEntryOf(d, i, r, c, x, y, z, p);
    GaussJordanStepEntryOf(a, i, r, c, x, y, z, p);
    if y == 0.0 {
      ZeroFactor(x, z, p);
    } else {
      ReorderQuotient(x, y, z, p);
    }
  }

  /** One determinant step and one Gauss-Jordan step on agreeing grids take the
      same pivot and leave grids that agree from i + 1 on. */
  lemma StepAgree(d: Grid, a: Grid, i: nat)
    requires IsWork(d, |d|) && IsWork(a, 2 * |a|) && |d| == |a| && i < |d|
    requires Agree(d, a, i) && !SmallPivot(d, i)
    ensures PivotRow(d, i, i) == PivotRow(a, i, i) && !SmallPivot(a, i)
    ensures Agree(DetStepGrid(d, i), GaussJordanStep(a, i), i + 1)
  {
    PivotRowAgree(d, a, i, i);
    PivotedExchanges(d, i);
    PivotedExchanges(a, i);
    assert Agree(Pivoted(d, i), Pivoted(a, i), i);
    forall r, c | i + 1 <= r < |d| && i + 1 <= c < |d|
      ensures DetStepGrid(d, i)[r][c] == GaussJordanStep(a, i)[r][c]
    {
      StepAgreeEntry(d, a, i, r, c);
    }
  }

  /** A determinant step keeps the accumulator nonzero. */
  lemma AccNonzero(d: Grid, i: nat, acc: real)
    requires IsWork(d, |d|) && i < |d| && !SmallPivot(d, i) && acc != 0.0
    ensures DetStepAcc(d, i, acc) != 0.0
  {
    UsablePivot(d, i);
    var signed := if PivotRow(d, i, i) != i then acc * -1.0 else acc;
    DetStepAccIs(d, i, acc, signed, Pivoted(d, i)[i][i]);
  }

  /** The state both eliminations are in before step i: grids of the right
      shapes that agree from row and column i on, and a nonzero accumulator. */
  predicate Simulating(d: Grid, a: Grid, i: nat, acc: real) {
    IsWork(d, |d|) && IsWork(a, 2 * |a|) && |d| == |a| && i <= |d| && Agree(d, a, i) && acc != 0.0
  }

  /** Where both eliminations stop, the determinant is zero exactly when the
      inverse fails. */
  lemma SimulateStop(d: Grid, a: Grid, i: nat, acc: real)
    requires Simulating(d, a, i, acc)
    requires i < |d| ==> SmallPivot(d, i)
    ensures DetFrom(d, i, acc) == 0.0 <==> GaussJordanFrom(a, i).Err?
  {
    if i < |d| {
      PivotRowAgree(d, a, i, i);
    }
  }

  /** One step of both eliminations on agreeing grids, with a usable pivot. */
  lemma SimulateStep(d: Grid, a: Grid, i: nat, acc: real) returns (d2: Grid, a2: Grid, acc2: real)
    requires Simulating(d, a, i, acc) && i < |d| && !SmallPivot(d, i)
    ensures Simulating(d2, a2, i + 1, acc2) && |d2| == |d|
    ensures DetFrom(d, i, acc) == DetFrom(d2, i + 1, acc2)
    ensures GaussJordanFrom(a, i) == GaussJordanFrom(a2, i + 1)
  {
    StepAgree(d, a, i);
    d2, a2, acc2 := DetStepGrid(d, i), GaussJordanStep(a, i), DetStepAcc(d, i, acc);
    AccNonzero(d, i, acc);
    DetFromStep(d, i, acc);
    GaussJordanFromStep(a, i);
  }

  lemma {:induction false} SimulateFrom(d: Grid, a: Grid, i: nat, acc: real, det: real, inv: Result<Grid>)
    requires Simulating(d, a, i, acc)
    requires det == DetFrom(d, i, acc) && inv == GaussJordanFrom(a, i)
    ensures det == 0.0 <==> inv.Err?
    decreases |d| - i
  {
    if i == |d| || SmallPivot(d, i) {
      SimulateStop(d, a, i, acc);
    } else {
      var d2, a2, acc2 := SimulateStep(d, a, i, acc);
      SimulateFrom(d2, a2, i + 1, acc2, det, inv);
    }
  }

  /** The inverse fails as Singular exactly when the determinant is 0.0: both
      eliminations meet their first pivot below the tolerance at the same step,
      and otherwise the determinant is a product of nonzero pivots. */
  lemma SingularIffZeroDeterminant(g: Grid)
    requires IsGrid(g, |g|, |g|)
    ensures InverseOf(g).Err? <==> Determinant(g) == 0.0
    ensures InverseOf(g).Err? ==> InverseOf(g).error == Singular
  {
    SimulateFrom(g, Augment(g), 0, 1.0, Determinant(g), GaussJordanFrom(Augment(g), 0));
  }

  /** A square grid with a zero row has no inverse. */
  lemma InverseZeroRow(g: Grid, z: nat)
    requires IsGrid(g, |g|, |g|) && z < |g| && forall c :: 0 <= c < |g| ==> g[z][c] == 0.0
    ensures InverseOf(g) == Err(Singular)
  {
    DeterminantZeroRow(g, z);
    SingularIffZeroDeterminant(g);
  }

  /** A square grid with two identical rows has no inverse. */
  lemma InverseEqualRows(g: Grid, a: nat, b: nat)
    requires IsGrid(g, |g|, |g|) && a < |g| && b < |g| && a != b && g[a] == g[b]
    ensures InverseOf(g) == Err(Singular)
  {
    DeterminantEqualRows(g, a, b);
    SingularIffZeroDeterminant(g);
  }
}
