/** The inverse Gauss-Jordan elimination returns is a left inverse: every row
    of the augmented grid keeps its left half equal to the combination of the
    original rows that its right half names, and at the end the left half is the
    identity while the right half is the result. */
module InverseProduct {
  import opened Grids
  import opened Results
  import opened Elimination
  import opened DeterminantFacts
  import opened InverseFacts

  /** The sum over t < k of row[n + t] * g[t][c]: column c of the combination of
      g's rows whose coefficients sit in row from position n on. */
  function Combination(row: seq<real>, n: nat, g: Grid, c: nat, k: nat): (sum: real)
    requires n + k <= |row| && k <= |g| && forall t :: 0 <= t < k ==> c < |g[t]|
  {
    if k == 0 then 0.0 else Combination(row, n, g, c, k - 1) + row[n + k - 1] * g[k - 1][c]
  }

  /** The left half of an augmented row is the combination of g's rows its right
      half names. */
  predicate Tracks(row: seq<real>, g: Grid)
    requires IsGrid(g, |g|, |g|) && |row| == 2 * |g|
  {
    forall c :: 0 <= c < |g| ==> row[c] == Combination(row, |g|, g, c, |g|)
  }

  /** Every row of the augmented grid a tracks g. */
  predicate AllTrack(a: Grid, g: Grid)
    requires IsGrid(g, |g|, |g|) && |a| == |g| && IsWork(a, 2 * |g|)
  {
    forall r :: 0 <= r < |a| ==> Tracks(a[r], g)
  }

  // ---------------------------------------------------------------------------
  // Combination is linear in the coefficients

  lemma SubtractStep(sum: real, other: real, x: real, y: real, w: real, f: real)
    ensures (sum - f * other) + (x - f * y) * w == (sum + x * w) - f * (other + y * w)
  {
  }

  lemma {:induction false} CombinationSubtract(x: seq<real>, y: seq<real>, f: real, n: nat, g: Grid, c: nat, k: nat)
    requires |x| == |y| && n + k <= |x| && k <= |g| && forall t :: 0 <= t < k ==> c < |g[t]|
    ensures Combination(SubtractRow(x, y, f, 0), n, g, c, k)
      == Combination(x, n, g, c, k) - f * Combination(y, n, g, c, k)
  {
    if k > 0 {
      CombinationSubtract(x, y, f, n, g, c, k - 1);
      SubtractStep(Combination(x, n, g, c, k - 1), Combination(y, n, g, c, k - 1),
        x[n + k - 1], y[n + k - 1], g[k - 1][c], f);
    }
  }

  lemma ScaleStep(sum: real, x: real, w: real, p: real)
    requires p != 0.0
    ensures sum / p + x / p * w == (sum + x * w) / p
  {
  }

  /** The row divided entry by entry by p. */
  function Divided(x: seq<real>, p: real): (d: seq<real>)
    requires p != 0.0
    ensures |d| == |x|
  {
    seq(|x|, t requires 0 <= t < |x| => x[t] / p)
  }

  lemma {:induction false} CombinationScale(x: seq<real>, p: real, n: nat, g: Grid, c: nat, k: nat)
    requires p != 0.0 && n + k <= |x| && k <= |g| && forall t :: 0 <= t < k ==> c < |g[t]|
    ensures Combination(Divided(x, p), n, g, c, k) == Combination(x, n, g, c, k) / p
  {
    if k > 0 {
      CombinationScale(x, p, n, g, c, k - 1);
      ScaleStep(Combination(x, n, g, c, k - 1), x[n + k - 1], g[k - 1][c], p);
    }
  }

  lemma {:induction false} CombinationIdentityRow(g: Grid, i: nat, c: nat, k: nat)
    requires IsGrid(g, |g|, |g|) && i < |g| && c < |g| && k <= |g|
    ensures Combination(g[i] + IdentityRow(|g|, i), |g|, g, c, k) == if i < k then g[i][c] else 0.0
  {
    if k > 0 {
      CombinationIdentityRow(g, i, c, k - 1);
    }
  }

  // ---------------------------------------------------------------------------
  // Every Gauss-Jordan step keeps the rows tracking g

  lemma AugmentTracks(g: Grid)
    requires IsGrid(g, |g|, |g|)
    ensures AllTrack(Augment(g), g)
  {
    var a := Augment(g);
    forall r, c | 0 <= r < |g| && 0 <= c < |g|
      ensures a[r][c] == Combination(a[r], |g|, g, c, |g|)
    {
      CombinationIdentityRow(g, r, c, |g|);
    }
  }

  lemma PivotedTracks(a: Grid, g: Grid, i: nat)
    requires IsGrid(g, |g|, |g|) && |a| == |g| && IsWork(a, 2 * |g|) && i < |a| && AllTrack(a, g)
    ensures AllTrack(Pivoted(a, i), g)
  {
    PivotedExchanges(a, i);
  }

  lemma NormalizeTracks(s: Grid, g: Grid, i: nat)
    requires IsGrid(g, |g|, |g|) && |s| == |g| && IsWork(s, 2 * |g|) && i < |s| && s[i][i] != 0.0
    requires AllTrack(s, g)
    ensures AllTrack(Normalize(s, i, 2 * |g|), g)
  {
    var m := Normalize(s, i, 2 * |g|);
    assert m[i] == Divided(s[i], s[i][i]);
    forall c | 0 <= c < |g|
      ensures m[i][c] == Combination(m[i], |g|, g, c, |g|)
    {
      CombinationScale(s[i], s[i][i], |g|, g, c, |g|);
    }
  }

  /** A row minus f times another row tracks g when both rows do. */
  lemma SubtractTracks(x: seq<real>, y: seq<real>, f: real, g: Grid)
    requires IsGrid(g, |g|, |g|) && |x| == |y| == 2 * |g| && Tracks(x, g) && Tracks(y, g)
    ensures Tracks(SubtractRow(x, y, f, 0), g)
  {
    var z := SubtractRow(x, y, f, 0);
    forall c | 0 <= c < |g|
      ensures z[c] == Combination(z, |g|, g, c, |g|)
    {
      CombinationSubtract(x, y, f, |g|, g, c, |g|);
    }
  }

  lemma EliminateOthersTracks(m: Grid, g: Grid, i: nat)
    requires IsGrid(g, |g|, |g|) && |m| == |g| && IsWork(m, 2 * |g|) && i < |m|
    requires AllTrack(m, g)
    ensures AllTrack(EliminateOthers(m, i, 2 * |g|), g)
  {
    var e := EliminateOthers(m, i, 2 * |g|);
    forall r | 0 <= r < |g|
      ensures Tracks(e[r], g)
    {
      if r != i && m[r][i] != 0.0 {
        assert e[r] == SubtractRow(m[r], m[i], m[r][i], 0);
        SubtractTracks(m[r], m[i], m[r][i], g);
      } else {
        assert e[r] == m[r];
      }
    }
  }

  lemma StepTracks(a: Grid, g: Grid, i: nat)
    requires IsGrid(g, |g|, |g|) && |a| == |g| && IsWork(a, 2 * |g|) && i < |a| && !SmallPivot(a, i)
    requires AllTrack(a, g)
    ensures AllTrack(GaussJordanStep(a, i), g)
  {
    var s := Pivoted(a, i);
    PivotedTracks(a, g, i);
    NormalizeFrame(s, i, 2 * |g|);
    NormalizeTracks(s, g, i);
    EliminateOthersTracks(Normalize(s, i, 2 * |g|), g, i);
  }

  /** One Gauss-Jordan step with a usable pivot, keeping the rows tracking g. */
  lemma TracksStep(a: Grid, g: Grid, i: nat) returns (a2: Grid)
    requires IsGrid(g, |g|, |g|) && |a| == |g| && IsWork(a, 2 * |g|) && i < |a| && !SmallPivot(a, i)
    requires AllTrack(a, g)
    ensures |a2| == |g| && IsWork(a2, 2 * |g|) && AllTrack(a2, g)
    ensures GaussJordanFrom(a, i) == GaussJordanFrom(a2, i + 1)
  {
    StepTracks(a, g, i);
    GaussJordanFromStep(a, i);
    a2 := GaussJordanStep(a, i);
  }

  /** result is what the elimination yields from step i on a; every row of a
      tracks g, so every row of the reduced grid does. */
  lemma {:induction false} GaussJordanFromTracks(a: Grid, g: Grid, i: nat, result: Result<Grid>)
    requires IsGrid(g, |g|, |g|) && |a| == |g| && IsWork(a, 2 * |g|) && i <= |a| && AllTrack(a, g)
    requires result == GaussJordanFrom(a, i)
    ensures result.Ok? ==> |result.value| == |g| && IsWork(result.value, 2 * |g|) && AllTrack(result.value, g)
    decreases |a| - i
  {
    if i == |a| || SmallPivot(a, i) {
      GaussJordanFromStop(a, i);
    } else {
      var a2 := TracksStep(a, g, i);
      GaussJordanFromTracks(a2, g, i + 1, result);
    }
  }

  // ---------------------------------------------------------------------------
  // The result times the operand is the identity

  lemma {:induction false} DotRightBlock(a: Grid, g: Grid, r: nat, c: nat, k: nat)
    requires IsGrid(g, |g|, |g|) && |a| == |g| && IsWork(a, 2 * |g|)
    requires r < |g| && c < |g| && k <= |g|
    ensures Dot(RightBlock(a, |g|), g, r, c, k) == Combination(a[r], |g|, g, c, k)
  {
    if k > 0 {
      DotRightBlock(a, g, r, c, k - 1);
    }
  }

  /** When the inverse exists, multiplying it on the left of the operand gives
      the identity (exact arithmetic). */
  lemma InverseIsLeftInverse(g: Grid)
    requires IsGrid(g, |g|, |g|)
    ensures InverseOf(g).Ok? ==> IsGrid(InverseOf(g).value, |g|, |g|)
    ensures InverseOf(g).Ok? ==> Product(InverseOf(g).value, g, |g|) == Identity(|g|)
  {
    var n := |g|;
    var result := GaussJordanFrom(Augment(g), 0);
    if result.Ok? {
      var a := result.value;
      AugmentTracks(g);
      GaussJordanFromTracks(Augment(g), g, 0, result);
      GaussJordanLeftIdentity(g);
      var inverse := RightBlock(a, n);
      var product := Product(inverse, g, n);
      forall r, c | 0 <= r < n && 0 <= c < n
        ensures product[r][c] == Identity(n)[r][c]
      {
        DotRightBlock(a, g, r, c, n);
        assert LeftBlock(a, n)[r][c] == a[r][c];
      }
      GridEquality(product, Identity(n), n, n);
    }
  }

  /** The identity is its own inverse: its determinant is 1, so the inverse
      exists, and a left inverse of the identity is the identity. */
  lemma InverseOfIdentity(n: nat)
    ensures IsGrid(Identity(n), n, n) && InverseOf(Identity(n)) == Ok(Identity(n))
  {
    DeterminantOfIdentity(n);
    SingularIffZeroDeterminant(Identity(n));
    InverseIsLeftInverse(Identity(n));
    ProductIdentityRight(InverseOf(Identity(n)).value, n, n);
  }
}
