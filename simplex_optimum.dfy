/** The Simplex method ends at an optimum. Every pivot keeps a basis (one
    column per constraint row that is exactly that row's unit vector), so
    the final tableau has a basic solution; pivots are invertible, so the
    basic solution, read back through the run, satisfies the initial
    tableau's rows. When every constraint RHS is non-negative the point
    read off is therefore in the region, its objective value is the value
    reported, and by SimplexBound no point of the region does better. */
module SimplexOptimum {
  import opened LpTypes
  import opened Tableau
  import opened Simplex
  import TableauArray
  import opened SimplexBound

  // ------------------------------------------------------------------ bases

  /** b names, for every constraint row r, a column (RHS excluded) that is
      exactly the unit vector of row r, Z row included. */
  predicate IsBasis(T: Matrix, b: seq<int>)
    requires IsTableau(T)
  {
    && |b| == |T| - 1
    && forall r :: 0 <= r < |b| ==> 0 <= b[r] < Width(T) - 1 && UnitColumn(T, b[r], r)
  }

  /** Different rows have different basic columns. */
  lemma BasisDistinct(T: Matrix, b: seq<int>, r1: nat, r2: nat)
    requires IsTableau(T) && IsBasis(T, b) && r1 < |b| && r2 < |b| && r1 != r2
    ensures b[r1] != b[r2]
  {
    assert T[r1][b[r1]] == 1.0;
  }

  /** The slack columns, one per constraint row. */
  function SlackBasis(p: Problem): (b: seq<int>)
    ensures |b| == |p.constraints|
  {
    seq(|p.constraints|, r requires 0 <= r < |p.constraints| => p.numVars + r)
  }

  /** The initial tableau's slack columns form a basis. */
  lemma InitialBasis(p: Problem)
    requires WellFormed(p)
    ensures IsBasis(InitialTableau(p), SlackBasis(p))
  {
    var T, b := InitialTableau(p), SlackBasis(p);
    forall r | 0 <= r < |b|
      ensures 0 <= b[r] < Width(T) - 1 && UnitColumn(T, b[r], r)
    {
      assert b[r] == p.numVars + r;
    }
  }

  /** A pivot at (r, c) keeps a basis once c replaces row r's basic column. */
  lemma PivotKeepsBasis(T: Matrix, b: seq<int>, r: nat, c: nat)
    requires IsTableau(T) && IsBasis(T, b) && r < |T| - 1 && c < Width(T) - 1 && T[r][c] != 0.0
    ensures IsBasis(Pivoted(T, r, c), b[r := c])
  {
    var P, b' := Pivoted(T, r, c), b[r := c];
    PivotedEntries(T, r, c);
    forall k | 0 <= k < |b'|
      ensures 0 <= b'[k] < Width(P) - 1 && UnitColumn(P, b'[k], k)
    {
      if k != r {
        var j := b[k];
        assert T[r][j] == 0.0;
        forall i | 0 <= i < |P|
          ensures P[i][j] == T[i][j]
        {
          assert P[i][j] == PivotEntry(T, r, c, i, j);
        }
      }
    }
  }

  /** The basis at the end of a run started from basis b. */
  function FinalBasis(T: Matrix, b: seq<int>, fuel: nat): (b': seq<int>)
    requires IsTableau(T) && |b| == |T| - 1
    ensures |b'| == |b|
    decreases fuel
  {
    var c := PivotColumn(T);
    if c == -1 then b
    else
      var r := PivotRow(T, c);
      if r == -1 || fuel == 0 then b
      else FinalBasis(Pivoted(T, r, c), b[r := c], fuel - 1)
  }

  lemma {:induction false} RunKeepsBasis(T: Matrix, b: seq<int>, fuel: nat)
    requires IsTableau(T) && IsBasis(T, b) && Run(T, fuel).Optimal?
    ensures IsBasis(Run(T, fuel).final, FinalBasis(T, b, fuel))
    decreases fuel
  {
    var c := PivotColumn(T);
    if c != -1 {
      var r := PivotRow(T, c);
      RunStep(T, fuel, c, r);
      PivotKeepsBasis(T, b, r, c);
      RunKeepsBasis(Pivoted(T, r, c), b[r := c], fuel - 1);
    }
  }

  /** Whenever a basis exists, ReadBasis finds one. */
  lemma ReadBasisIsBasis(T: Matrix, b: seq<int>)
    requires IsTableau(T) && IsBasis(T, b)
    ensures IsBasis(T, ReadBasis(T))
  {
    var R := ReadBasis(T);
    forall r | 0 <= r < |R|
      ensures 0 <= R[r] < Width(T) - 1 && UnitColumn(T, R[r], r)
    {
      assert R[r] == FirstUnit(T, r, Width(T) - 1);
      assert UnitColumn(T, b[r], r);
    }
  }

  // --------------------------------------------------- the basic solution

  /** The basic solution of basis b, over every column but the RHS. */
  function BasicSolution(T: Matrix, b: seq<int>): (v: seq<real>)
    requires IsTableau(T) && |b| == |T| - 1
    ensures |v| == Width(T) - 1
  {
    seq(Width(T) - 1, j requires 0 <= j < Width(T) - 1 => BasicValue(T, b, j))
  }

  /** One term of row i times the basic solution: the RHS of row i at its
      own basic column, 0 elsewhere. */
  lemma BasicTerm(T: Matrix, b: seq<int>, i: nat, j: nat)
    requires IsTableau(T) && IsBasis(T, b) && i < |T| && j < Width(T) - 1
    ensures T[i][j] * BasicValue(T, b, j) == if i < |b| && b[i] == j then Rhs(T, i) else 0.0
  {
    var k := BasisRow(b, j);
    if k >= 0 {
      assert UnitColumn(T, b[k], k);
      if i < |b| && b[i] == j && i != k {
        BasisDistinct(T, b, i, k);
      }
    }
  }

  lemma {:induction false} DotBasic(T: Matrix, b: seq<int>, i: nat, n: nat)
    requires IsTableau(T) && IsBasis(T, b) && i < |T| && n <= Width(T) - 1
    ensures Dot(T[i], BasicSolution(T, b), n) == if i < |b| && b[i] < n then Rhs(T, i) else 0.0
  {
    if n > 0 {
      DotBasic(T, b, i, n - 1);
      BasicTerm(T, b, i, n - 1);
    }
  }

  /** The basic solution satisfies every constraint row, and the Z row's
      residual at it is minus the Z-row RHS. */
  lemma BasicSolutionBalanced(T: Matrix, b: seq<int>)
    requires IsTableau(T) && IsBasis(T, b)
    ensures Balanced(T, BasicSolution(T, b))
    ensures Residual(ZRow(T), BasicSolution(T, b)) == -Rhs(T, |T| - 1)
  {
    forall i | 0 <= i < |T|
      ensures Dot(T[i], BasicSolution(T, b), Width(T) - 1) == if i < |b| then Rhs(T, i) else 0.0
    {
      DotBasic(T, b, i, Width(T) - 1);
    }
  }

  /** With a non-negative RHS column the basic solution is non-negative. */
  lemma BasicSolutionNonNegative(T: Matrix, b: seq<int>)
    requires IsTableau(T) && |b| == |T| - 1 && RhsNonNegative(T)
    ensures forall j :: 0 <= j < Width(T) - 1 ==> BasicSolution(T, b)[j] >= 0.0
  {
    forall j | 0 <= j < Width(T) - 1
      ensures BasicValue(T, b, j) >= 0.0
    {
      var r := BasisRow(b, j);
      if r >= 0 {
        assert Rhs(T, r) >= 0.0;
      }
    }
  }

  // ----------------------------------------------------- pivots run backward

  /** A point that satisfies every constraint row after a pivot satisfied
      them before it, with the same Z-row residual. */
  lemma PivotRestoresBalance(T: Matrix, r: nat, c: nat, v: seq<real>)
    requires IsTableau(T) && r < |T| - 1 && c < Width(T) && T[r][c] != 0.0
    requires |v| == Width(T) - 1 && Balanced(Pivoted(T, r, c), v)
    ensures Balanced(T, v)
    ensures Residual(ZRow(T), v) == Residual(ZRow(Pivoted(T, r, c)), v)
  {
    var P := Pivoted(T, r, c);
    PivotedEntries(T, r, c);
    assert forall j :: 0 <= j < Width(T) ==> P[r][j] == T[r][j] / T[r][c] by {
      forall j | 0 <= j < Width(T) ensures P[r][j] == T[r][j] / T[r][c] {
        assert P[r][j] == PivotEntry(T, r, c, r, j);
      }
    }
    ResidualScaled(T[r], P[r], v, T[r][c]);
    assert Residual(T[r], v) == 0.0;
    forall i | 0 <= i < |T|
      ensures Residual(P[i], v) == Residual(T[i], v)
    {
      PivotResidual(T, r, c, v, i);
    }
  }

  /** Through a whole run that reaches an optimum, backward. */
  lemma {:induction false} RunRestoresBalance(T: Matrix, fuel: nat, v: seq<real>)
    requires IsTableau(T) && Run(T, fuel).Optimal? && |v| == Width(T) - 1
    requires Balanced(Run(T, fuel).final, v)
    ensures Balanced(T, v)
    ensures Residual(ZRow(T), v) == Residual(ZRow(Run(T, fuel).final), v)
    decreases fuel
  {
    var c := PivotColumn(T);
    if c != -1 {
      var r := PivotRow(T, c);
      RunStep(T, fuel, c, r);
      RunRestoresBalance(Pivoted(T, r, c), fuel - 1, v);
      PivotRestoresBalance(T, r, c, v);
    }
  }

  // ------------------------------------------------------------ the theorem

  /** Every constraint RHS is non-negative, so the origin with its slacks is
      the starting basic solution. */
  predicate StartsFeasible(p: Problem) {
    forall i :: 0 <= i < |p.constraints| ==> p.constraints[i].rhs >= 0.0
  }

  /** The reported point with its slacks is the final basic solution, and
      that solution satisfies the initial tableau. */
  lemma FinalBasicSolution(p: Problem, maxPivots: nat)
    requires WellFormed(p) && Run(InitialTableau(p), maxPivots).Optimal?
    ensures var T := Run(InitialTableau(p), maxPivots).final;
            && IsBasis(T, ReadBasis(T))
            && BasicSolution(T, ReadBasis(T))[..p.numVars] == BasicValues(T, p.numVars)
            && Balanced(InitialTableau(p), BasicSolution(T, ReadBasis(T)))
            && Residual(ZRow(InitialTableau(p)), BasicSolution(T, ReadBasis(T))) == -Rhs(T, |T| - 1)
  {
    var T0 := InitialTableau(p);
    var T := Run(T0, maxPivots).final;
    RunOptimal(T0, maxPivots);
    InitialBasis(p);
    RunKeepsBasis(T0, SlackBasis(p), maxPivots);
    ReadBasisIsBasis(T, FinalBasis(T0, SlackBasis(p), maxPivots));
    var v := BasicSolution(T, ReadBasis(T));
    BasicSolutionBalanced(T, ReadBasis(T));
    RunRestoresBalance(T0, maxPivots, v);
  }

  /** The corrected Simplex solution is a point of the region (non-negative,
      every constraint read as `<=` holds) whose objective value is exactly
      the value reported. */
  lemma SimplexFeasible(p: Problem, maxPivots: nat)
    requires WellFormed(p) && StartsFeasible(p) && SimplexResult(p, maxPivots).Solution?
    ensures InRegion(p, SimplexResult(p, maxPivots).values)
    ensures Dot(p.objective, SimplexResult(p, maxPivots).values, p.numVars) == SimplexResult(p, maxPivots).z
  {
    var n := p.numVars;
    var T0 := InitialTableau(p);
    var outcome := Run(T0, maxPivots);
    assert outcome.Optimal?;
    var T := outcome.final;
    FinalBasicSolution(p, maxPivots);
    var v := BasicSolution(T, ReadBasis(T));
    assert RhsNonNegative(T0);
    RunKeepsFeasibility(T0, maxPivots);
    BasicSolutionNonNegative(T, ReadBasis(T));
    var x := SimplexResult(p, maxPivots).values;
    assert x == v[..n];
    forall i | 0 <= i < |p.constraints|
      ensures Lhs(p, i, x) <= p.constraints[i].rhs
    {
      InitialRowResidual(p, v, i);
      assert v[n + i] >= 0.0;
    }
    InitialZResidual(p, v);
  }

  /** The corrected Simplex solution is optimal: no point of the region has
      a greater objective value when maximising, or a smaller one when
      minimising. */
  lemma SimplexOptimal(p: Problem, maxPivots: nat, y: seq<real>)
    requires WellFormed(p) && StartsFeasible(p) && SimplexResult(p, maxPivots).Solution?
    requires InRegion(p, y)
    ensures p.direction == Maximize ==>
              Dot(p.objective, y, p.numVars) <= Dot(p.objective, SimplexResult(p, maxPivots).values, p.numVars)
    ensures p.direction == Minimize ==>
              Dot(p.objective, y, p.numVars) >= Dot(p.objective, SimplexResult(p, maxPivots).values, p.numVars)
  {
    SimplexFeasible(p, maxPivots);
    SimplexBound.SimplexBound(p, maxPivots, y);
  }

  // ------------------------------------------------------- the as-written read-off

  /** Maximise 3 x1 + 2 x2 subject to x1 + x2 <= 4. */
  const TwoColumns: Problem := Problem(2, Maximize, [3.0, 2.0], [Constraint([1.0, 1.0], Le, 4.0)])

  /** Its tableau after the one pivot, on x1 in the constraint row. */
  const TwoColumnsFinal: Matrix := [[1.0, 1.0, 1.0, 4.0], [0.0, 1.0, 3.0, 12.0]]

  lemma TwoColumnsRun()
    ensures Run(InitialTableau(TwoColumns), 1) == Optimal(TwoColumnsFinal)
  {
    var T0 := InitialTableau(TwoColumns);
    assert T0[0][0] == 1.0 && T0[0][1] == 1.0 && T0[0][2] == 1.0 && T0[0][3] == 4.0;
    assert T0[1][0] == -3.0 && T0[1][1] == -2.0 && T0[1][2] == 0.0 && T0[1][3] == 0.0;
    assert ColumnScan(ZRow(T0), 1) == 0;
    assert ColumnScan(ZRow(T0), 2) == 0;
    assert ColumnScan(ZRow(T0), 3) == 0;
    assert PivotRow(T0, 0) == 0;
    var T1 := Pivoted(T0, 0, 0);
    PivotedEntries(T0, 0, 0);
    assert T1[0][0] == 1.0 && T1[0][1] == 1.0 && T1[0][2] == 1.0 && T1[0][3] == 4.0;
    assert T1[1][0] == 0.0 && T1[1][1] == 1.0 && T1[1][2] == 3.0 && T1[1][3] == 12.0;
    TableauArray.MatrixExtensionality(T1, TwoColumnsFinal);
    assert ColumnScan(ZRow(TwoColumnsFinal), 3) == -1;
  }

  /** On the final tableau the source's read-off takes the RHS 4 for both
      x1 and x2, since both columns are 1 in the only constraint row; the
      corrected one gives it to x1 alone. */
  lemma TwoColumnsReadOff()
    ensures Extracted(TwoColumnsFinal, 2) == [4.0, 4.0]
    ensures BasicValues(TwoColumnsFinal, 2) == [4.0, 0.0]
  {
    var T := TwoColumnsFinal;
    assert BasicAt(T, 0, 0) && BasicAt(T, 1, 0);
    assert UnitColumn(T, 0, 0);
    assert FirstUnit(T, 0, 3) == 0;
    assert ReadBasis(T) == [0];
  }

  /** Both results once the run is known to end at T. */
  lemma ResultsAt(p: Problem, maxPivots: nat, T: Matrix)
    requires WellFormed(p) && IsTableau(T) && Run(InitialTableau(p), maxPivots) == Optimal(T)
    ensures SimplexResult(p, maxPivots) == Solution(BasicValues(T, p.numVars), ObjectiveValue(T, p.direction))
    ensures SimplexResultAsWritten(p, maxPivots) == Solution(Extracted(T, p.numVars), ZValueAsWritten(T, p.direction))
  {
  }

  /** The source reports (4, 4), which violates x1 + x2 <= 4, with Z =
      -12. */
  lemma DuplicateColumnAsWritten()
    ensures SimplexResultAsWritten(TwoColumns, 1) == Solution([4.0, 4.0], -12.0)
    ensures !InRegion(TwoColumns, [4.0, 4.0])
  {
    TwoColumnsRun();
    ResultsAt(TwoColumns, 1, TwoColumnsFinal);
    TwoColumnsReadOff();
    assert Lhs(TwoColumns, 0, [4.0, 4.0]) == 8.0;
  }

  /** The corrected read-off reports (4, 0) with Z = 12; by SimplexFeasible
      that point is in the region and reaches 12. */
  lemma DuplicateColumnCorrected()
    ensures SimplexResult(TwoColumns, 1) == Solution([4.0, 0.0], 12.0)
  {
    TwoColumnsRun();
    ResultsAt(TwoColumns, 1, TwoColumnsFinal);
    TwoColumnsReadOff();
  }
}
