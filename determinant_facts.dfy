/** Properties of the determinant as the pivoted elimination computes it: the
    identity's determinant is 1, and a zero row or two equal rows force the
    elimination onto a pivot below the tolerance, so the result is exactly 0.0. */
module DeterminantFacts {
  import opened Grids
  import opened Elimination

  // ---------------------------------------------------------------------------
  // The identity

  /** In every column the identity's pivot is already on the diagonal. */
  lemma IdentityPivot(n: nat, i: nat)
    requires i < n
    ensures PivotRow(Identity(n), i, i) == i
  {
    var p := PivotRow(Identity(n), i, i);
    assert Abs(Identity(n)[i][i]) <= Abs(Identity(n)[p][i]);
  }

  /** A determinant step on the identity keeps the grid and the accumulator 1. */
  lemma IdentityDetStep(n: nat, i: nat)
    requires i < n
    ensures !SmallPivot(Identity(n), i)
    ensures DetStepGrid(Identity(n), i) == Identity(n)
    ensures DetStepAcc(Identity(n), i, 1.0) == 1.0
  {
    var g := Identity(n);
    IdentityPivot(n, i);
    assert Pivoted(g, i) == g;
    var e := EliminateBelow(g, i);
    forall j, k | 0 <= j < n && 0 <= k < n
      ensures e[j][k] == g[j][k]
    {
      if j > i {
        assert g[j][i] / g[i][i] == 0.0;
      }
    }
    GridEquality(e, g, n, n);
  }

  /** det is what the determinant loop returns from step i on the identity. */
  lemma {:induction false} DetFromIdentity(n: nat, i: nat, det: real)
    requires i <= n && det == DetFrom(Identity(n), i, 1.0)
    ensures det == 1.0
    decreases n - i
  {
    if i < n {
      IdentityDetStep(n, i);
      DetFromStep(Identity(n), i, 1.0);
      DetFromIdentity(n, i + 1, det);
    } else {
      DetFromStop(Identity(n), i, 1.0);
    }
  }

  /** The determinant of the n x n identity is exactly 1. */
  lemma DeterminantOfIdentity(n: nat)
    ensures IsGrid(Identity(n), n, n) && Determinant(Identity(n)) == 1.0
  {
    DetFromIdentity(n, 0, Determinant(Identity(n)));
  }

  // ---------------------------------------------------------------------------
  // Zero rows and equal rows

  /** Every entry of the row from column i on is zero. */
  predicate ZeroFrom(row: seq<real>, i: nat) {
    forall c :: i <= c < |row| ==> row[c] == 0.0
  }

  /** Two rows of the same length agree from column i on. */
  predicate EqualFrom(x: seq<real>, y: seq<real>, i: nat) {
    |x| == |y| && forall c :: i <= c < |x| ==> x[c] == y[c]
  }

  /** Where row r of g sits after rows i and p are exchanged. */
  function Exchanged(r: nat, i: nat, p: nat): (s: nat)
    ensures s == r || s == i || s == p
    ensures r == i ==> s == p
    ensures r == p ==> s == i
  {
    if r == i then p else if r == p then i else r
  }

  /** The pivot exchange moves row r of g to Exchanged(r, i, p). */
  lemma PivotedMoves(g: Grid, i: nat, r: nat)
    requires i < |g| && forall q :: i <= q < |g| ==> i < |g[q]|
    requires i <= r < |g|
    ensures var p := PivotRow(g, i, i);
      i <= Exchanged(r, i, p) < |g| && Pivoted(g, i)[Exchanged(r, i, p)] == g[r]
  {
    PivotedExchanges(g, i);
  }

  /** A pivot that is not below the tolerance is not zero. */
  lemma UsablePivot(g: Grid, i: nat)
    requires i < |g| && (forall r :: i <= r < |g| ==> i < |g[r]|) && !SmallPivot(g, i)
    ensures Pivoted(g, i)[i][i] != 0.0
    ensures forall r :: i <= r < |g| && g[r][i] == 0.0 ==> r != PivotRow(g, i, i)
  {
  }

  /** Elimination below row i keeps a row zero that was zero from column i on. */
  lemma EliminateZeroRow(s: Grid, i: nat, z: nat)
    requires IsWork(s, |s|) && i < z < |s| && s[i][i] != 0.0 && ZeroFrom(s[z], i)
    ensures ZeroFrom(EliminateBelow(s, i)[z], i + 1)
  {
    assert s[z][i] / s[i][i] == 0.0;
  }

  /** Elimination below row i turns a copy of the pivot row into a zero row. */
  lemma EliminateCopyOfPivot(s: Grid, i: nat, z: nat)
    requires IsWork(s, |s|) && i < z < |s| && s[i][i] != 0.0 && EqualFrom(s[z], s[i], i)
    ensures ZeroFrom(EliminateBelow(s, i)[z], i + 1)
  {
    assert s[z][i] / s[i][i] == 1.0;
  }

  /** Elimination below row i keeps two rows below it equal. */
  lemma EliminateEqualRows(s: Grid, i: nat, a: nat, b: nat)
    requires IsWork(s, |s|) && i < a < |s| && i < b < |s| && s[i][i] != 0.0
    requires EqualFrom(s[a], s[b], i)
    ensures EqualFrom(EliminateBelow(s, i)[a], EliminateBelow(s, i)[b], i + 1)
  {
  }

  /** One determinant step keeps a zero row (from the current column on). */
  lemma ZeroRowStep(g: Grid, i: nat, z: nat, acc: real) returns (e: Grid, next: real, z2: nat)
    requires IsWork(g, |g|) && i <= z < |g| && ZeroFrom(g[z], i) && !SmallPivot(g, i)
    ensures IsWork(e, |e|) && |e| == |g| && i < z2 < |e| && ZeroFrom(e[z2], i + 1)
    ensures DetFrom(g, i, acc) == DetFrom(e, i + 1, next)
  {
    var p := PivotRow(g, i, i);
    UsablePivot(g, i);
    PivotedMoves(g, i, z);
    z2 := Exchanged(z, i, p);
    EliminateZeroRow(Pivoted(g, i), i, z2);
    DetFromStep(g, i, acc);
    e, next := DetStepGrid(g, i), DetStepAcc(g, i, acc);
  }

  /** det is what the determinant loop returns from step i; row z is zero from
      column i on, so det is 0.0. */
  lemma {:induction false} ZeroRowFrom(g: Grid, i: nat, z: nat, acc: real, det: real)
    requires IsWork(g, |g|) && i <= z < |g| && ZeroFrom(g[z], i)
    requires det == DetFrom(g, i, acc)
    ensures det == 0.0
    decreases |g| - i
  {
    if SmallPivot(g, i) {
      DetFromStop(g, i, acc);
    } else {
      var e, next, z2 := ZeroRowStep(g, i, z, acc);
      ZeroRowFrom(e, i + 1, z2, next, det);
    }
  }

  /** The pivot is the first row of greatest magnitude, so a later row with an
      equal entry is never chosen. */
  lemma PivotNotLaterTie(g: Grid, i: nat, a: nat, b: nat)
    requires i < |g| && forall q :: i <= q < |g| ==> i < |g[q]|
    requires i <= a < b < |g| && g[a][i] == g[b][i]
    ensures PivotRow(g, i, i) != b
  {
    PivotRowIsFirstMaximum(g, i, i);
  }

  /** After a determinant step, two rows that were equal from column i on are
      either a zero row (one of them was the pivot row) or still two equal rows. */
  lemma EqualRowsStep(g: Grid, i: nat, a: nat, b: nat, acc: real)
    returns (e: Grid, next: real, zero: bool, x: nat, y: nat)
    requires IsWork(g, |g|) && i <= a < b < |g| && EqualFrom(g[a], g[b], i) && !SmallPivot(g, i)
    ensures IsWork(e, |e|) && |e| == |g|
    ensures zero ==> i < x < |e| && ZeroFrom(e[x], i + 1)
    ensures !zero ==> i < x < y < |e| && EqualFrom(e[x], e[y], i + 1)
    ensures DetFrom(g, i, acc) == DetFrom(e, i + 1, next)
  {
    var p := PivotRow(g, i, i);
    var s := Pivoted(g, i);
    UsablePivot(g, i);
    PivotedMoves(g, i, a);
    PivotedMoves(g, i, b);
    PivotNotLaterTie(g, i, a, b);
    var a2, b2 := Exchanged(a, i, p), Exchanged(b, i, p);
    if a2 == i {
      EliminateCopyOfPivot(s, i, b2);
      zero, x, y := true, b2, b2;
    } else {
      EliminateEqualRows(s, i, a2, b2);
      zero := false;
      x, y := if a2 < b2 then a2 else b2, if a2 < b2 then b2 else a2;
    }
    DetFromStep(g, i, acc);
    e, next := DetStepGrid(g, i), DetStepAcc(g, i, acc);
  }

  /** det is what the determinant loop returns from step i; rows a and b agree
      from column i on, so det is 0.0. */
  lemma {:induction false} EqualRowsFrom(g: Grid, i: nat, a: nat, b: nat, acc: real, det: real)
    requires IsWork(g, |g|) && i <= a < b < |g| && EqualFrom(g[a], g[b], i)
    requires det == DetFrom(g, i, acc)
    ensures det == 0.0
    decreases |g| - i
  {
    if SmallPivot(g, i) {
      DetFromStop(g, i, acc);
    } else {
      var e, next, zero, x, y := EqualRowsStep(g, i, a, b, acc);
      if zero {
        ZeroRowFrom(e, i + 1, x, next, det);
      } else {
        EqualRowsFrom(e, i + 1, x, y, next, det);
      }
    }
  }

  /** A square grid with a zero row has determinant exactly 0.0. */
  lemma DeterminantZeroRow(g: Grid, z: nat)
    requires IsGrid(g, |g|, |g|) && z < |g| && forall c :: 0 <= c < |g| ==> g[z][c] == 0.0
    ensures Determinant(g) == 0.0
  {
    ZeroRowFrom(g, 0, z, 1.0, Determinant(g));
  }

  /** A square grid with two identical rows has determinant exactly 0.0. */
  lemma DeterminantEqualRows(g: Grid, a: nat, b: nat)
    requires IsGrid(g, |g|, |g|) && a < |g| && b < |g| && a != b && g[a] == g[b]
    ensures Determinant(g) == 0.0
  {
    if a < b {
      EqualRowsFrom(g, 0, a, b, 1.0, Determinant(g));
    } else {
      EqualRowsFrom(g, 0, b, a, 1.0, Determinant(g));
    }
  }
}
