/** The two square matrices of the demo driver: A = 1..9, whose elimination meets
    a zero pivot in its last column, and D = [2,1,0, 0,1,-1, 1,0,1], whose
    determinant is 1 and whose inverse is worked out step by step. */
module Scenarios {
  import opened Grids
  import opened Results
  import opened Elimination
  import opened InverseFacts

  function MatrixA(): (g: Grid)
    ensures IsGrid(g, 3, 3)
  {
    FromFlat(3, 3, [1.0, 2.0, 3.0, 4.0, 5.0, 6.0, 7.0, 8.0, 9.0])
  }

  function MatrixD(): (g: Grid)
    ensures IsGrid(g, 3, 3)
  {
    FromFlat(3, 3, [2.0, 1.0, 0.0, 0.0, 1.0, -1.0, 1.0, 0.0, 1.0])
  }

  // ---------------------------------------------------------------------------
  // det(A) == 0.0 and A has no inverse

  lemma MatrixAIs()
    ensures MatrixA() == [[1.0, 2.0, 3.0], [4.0, 5.0, 6.0], [7.0, 8.0, 9.0]]
  {
    GridEquality(MatrixA(), [[1.0, 2.0, 3.0], [4.0, 5.0, 6.0], [7.0, 8.0, 9.0]], 3, 3);
  }

  /** Column 0: row 2 holds the largest entry (7); it is swapped up and the
      rows below are reduced. */
  lemma ADetStep0()
    ensures !SmallPivot(MatrixA(), 0)
    ensures PivotRow(MatrixA(), 0, 0) == 2
    ensures DetStepGrid(MatrixA(), 0) == [[7.0, 8.0, 9.0], [0.0, 3.0 / 7.0, 6.0 / 7.0], [0.0, 6.0 / 7.0, 12.0 / 7.0]]
    ensures DetStepAcc(MatrixA(), 0, 1.0) == -7.0
  {
    MatrixAIs();
    var e := DetStepGrid(MatrixA(), 0);
    GridEquality(e, [[7.0, 8.0, 9.0], [0.0, 3.0 / 7.0, 6.0 / 7.0], [0.0, 6.0 / 7.0, 12.0 / 7.0]], 3, 3);
  }

  /** Column 1: row 2 again (6/7 against 3/7); reducing row 2 leaves it zero. */
  lemma ADetStep1()
    ensures var g := [[7.0, 8.0, 9.0], [0.0, 3.0 / 7.0, 6.0 / 7.0], [0.0, 6.0 / 7.0, 12.0 / 7.0]];
      !SmallPivot(g, 1) && PivotRow(g, 1, 1) == 2 &&
      DetStepGrid(g, 1) == [[7.0, 8.0, 9.0], [0.0, 6.0 / 7.0, 12.0 / 7.0], [0.0, 0.0, 0.0]]
  {
    var g := [[7.0, 8.0, 9.0], [0.0, 3.0 / 7.0, 6.0 / 7.0], [0.0, 6.0 / 7.0, 12.0 / 7.0]];
    var e := DetStepGrid(g, 1);
    GridEquality(e, [[7.0, 8.0, 9.0], [0.0, 6.0 / 7.0, 12.0 / 7.0], [0.0, 0.0, 0.0]], 3, 3);
  }

  /** The demo matrix A: the last pivot is exactly zero, so det(A) is 0.0 and
      the inverse fails as Singular. */
  lemma MatrixASingular()
    ensures Determinant(MatrixA()) == 0.0
    ensures InverseOf(MatrixA()) == Err(Singular)
  {
    var g1 := [[7.0, 8.0, 9.0], [0.0, 3.0 / 7.0, 6.0 / 7.0], [0.0, 6.0 / 7.0, 12.0 / 7.0]];
    var g2 := [[7.0, 8.0, 9.0], [0.0, 6.0 / 7.0, 12.0 / 7.0], [0.0, 0.0, 0.0]];
    ADetStep0();
    ADetStep1();
    DetFromStep(MatrixA(), 0, 1.0);
    DetFromStep(g1, 1, -7.0);
    assert SmallPivot(g2, 2);
    SingularIffZeroDeterminant(MatrixA());
  }

  // ---------------------------------------------------------------------------
  // det(D) == 1.0 and the inverse of D

  lemma MatrixDIs()
    ensures MatrixD() == [[2.0, 1.0, 0.0], [0.0, 1.0, -1.0], [1.0, 0.0, 1.0]]
  {
    GridEquality(MatrixD(), [[2.0, 1.0, 0.0], [0.0, 1.0, -1.0], [1.0, 0.0, 1.0]], 3, 3);
  }

  lemma DDetStep0()
    ensures !SmallPivot(MatrixD(), 0)
    ensures DetStepGrid(MatrixD(), 0) == [[2.0, 1.0, 0.0], [0.0, 1.0, -1.0], [0.0, -0.5, 1.0]]
    ensures DetStepAcc(MatrixD(), 0, 1.0) == 2.0
  {
    MatrixDIs();
    var e := DetStepGrid(MatrixD(), 0);
    GridEquality(e, [[2.0, 1.0, 0.0], [0.0, 1.0, -1.0], [0.0, -0.5, 1.0]], 3, 3);
  }

  lemma DDetStep1()
    ensures var g := [[2.0, 1.0, 0.0], [0.0, 1.0, -1.0], [0.0, -0.5, 1.0]];
      !SmallPivot(g, 1) && DetStepAcc(g, 1, 2.0) == 2.0 &&
      DetStepGrid(g, 1) == [[2.0, 1.0, 0.0], [0.0, 1.0, -1.0], [0.0, 0.0, 0.5]]
  {
    var g := [[2.0, 1.0, 0.0], [0.0, 1.0, -1.0], [0.0, -0.5, 1.0]];
    var e := DetStepGrid(g, 1);
    GridEquality(e, [[2.0, 1.0, 0.0], [0.0, 1.0, -1.0], [0.0, 0.0, 0.5]], 3, 3);
  }

  /** The demo matrix D has determinant 1: pivots 2, 1 and 1/2, no swap. */
  lemma DeterminantOfD()
    ensures Determinant(MatrixD()) == 1.0
  {
    var g1 := [[2.0, 1.0, 0.0], [0.0, 1.0, -1.0], [0.0, -0.5, 1.0]];
    var g2 := [[2.0, 1.0, 0.0], [0.0, 1.0, -1.0], [0.0, 0.0, 0.5]];
    DDetStep0();
    DDetStep1();
    DetFromStep(MatrixD(), 0, 1.0);
    DetFromStep(g1, 1, 2.0);
    DetFromStep(g2, 2, 2.0);
  }

  function AugmentedD1(): (a: Grid)
    ensures IsGrid(a, 3, 6)
  {
    [[1.0, 0.5, 0.0, 0.5, 0.0, 0.0], [0.0, 1.0, -1.0, 0.0, 1.0, 0.0], [0.0, -0.5, 1.0, -0.5, 0.0, 1.0]]
  }

  function AugmentedD2(): (a: Grid)
    ensures IsGrid(a, 3, 6)
  {
    [[1.0, 0.0, 0.5, 0.5, -0.5, 0.0], [0.0, 1.0, -1.0, 0.0, 1.0, 0.0], [0.0, 0.0, 0.5, -0.5, 0.5, 1.0]]
  }

  function AugmentedD3(): (a: Grid)
    ensures IsGrid(a, 3, 6)
  {
    [[1.0, 0.0, 0.0, 1.0, -1.0, -1.0], [0.0, 1.0, 0.0, -1.0, 2.0, 2.0], [0.0, 0.0, 1.0, -1.0, 1.0, 2.0]]
  }

  lemma DInverseStep0()
    ensures !SmallPivot(Augment(MatrixD()), 0)
    ensures GaussJordanStep(Augment(MatrixD()), 0) == AugmentedD1()
  {
    MatrixDIs();
    var a := Augment(MatrixD());
    GridEquality(a, [[2.0, 1.0, 0.0, 1.0, 0.0, 0.0], [0.0, 1.0, -1.0, 0.0, 1.0, 0.0], [1.0, 0.0, 1.0, 0.0, 0.0, 1.0]], 3, 6);
    GridEquality(GaussJordanStep(a, 0), AugmentedD1(), 3, 6);
  }

  lemma DInverseStep1()
    ensures !SmallPivot(AugmentedD1(), 1)
    ensures GaussJordanStep(AugmentedD1(), 1) == AugmentedD2()
  {
    GridEquality(GaussJordanStep(AugmentedD1(), 1), AugmentedD2(), 3, 6);
  }

  lemma DInverseStep2()
    ensures !SmallPivot(AugmentedD2(), 2)
    ensures GaussJordanStep(AugmentedD2(), 2) == AugmentedD3()
  {
    GridEquality(GaussJordanStep(AugmentedD2(), 2), AugmentedD3(), 3, 6);
  }

  lemma RightBlockD3()
    ensures RightBlock(AugmentedD3(), 3) == [[1.0, -1.0, -1.0], [-1.0, 2.0, 2.0], [-1.0, 1.0, 2.0]]
  {
    var a := AugmentedD3();
    var right := RightBlock(a, 3);
    assert right[0] == a[0][3..] == [1.0, -1.0, -1.0];
    assert right[1] == a[1][3..] == [-1.0, 2.0, 2.0];
    assert right[2] == a[2][3..] == [-1.0, 1.0, 2.0];
  }

  /** The inverse of the demo matrix D. */
  lemma InverseOfD()
    ensures InverseOf(MatrixD()) == Ok([[1.0, -1.0, -1.0], [-1.0, 2.0, 2.0], [-1.0, 1.0, 2.0]])
  {
    DInverseStep0();
    DInverseStep1();
    DInverseStep2();
    GaussJordanFromStep(Augment(MatrixD()), 0);
    GaussJordanFromStep(AugmentedD1(), 1);
    GaussJordanFromStep(AugmentedD2(), 2);
    GaussJordanFromStop(AugmentedD3(), 3);
    assert GaussJordanFrom(Augment(MatrixD()), 0) == Ok(AugmentedD3());
    RightBlockD3();
  }
}
