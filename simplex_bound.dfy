/** What the objective value reported by the Simplex method means: for
    every non-negative point satisfying the constraints read as `<=` (the
    only reading the tableau of src/App.jsx:66-93 encodes, since every
    constraint gets a +1 slack), the value bounds the objective from above
    when maximising and from below when minimising. The proof tracks one
    fixed point through the pivots: each tableau row is an equation that
    the point, extended with its slacks, keeps satisfying. */
module SimplexBound {
  import opened LpTypes
  import opened Tableau
  import opened Simplex
  import TableauArray

  // ------------------------------------------------------------ dot products

  lemma {:induction false} DotScaled(a: seq<real>, a': seq<real>, v: seq<real>, p: real, k: nat)
    requires k <= |a| && k <= |a'| && k <= |v| && p != 0.0
    requires forall j :: 0 <= j < k ==> a'[j] == a[j] / p
    ensures Dot(a', v, k) == Dot(a, v, k) / p
  {
    if k > 0 {
      DotScaled(a, a', v, p, k - 1);
      assert a'[k - 1] * v[k - 1] == (a[k - 1] * v[k - 1]) / p;
    }
  }

  lemma {:induction false} DotSubtracted(a: seq<real>, b: seq<real>, a': seq<real>, v: seq<real>, f: real, k: nat)
    requires k <= |a| && k <= |b| && k <= |a'| && k <= |v|
    requires forall j :: 0 <= j < k ==> a'[j] == a[j] - f * b[j]
    ensures Dot(a', v, k) == Dot(a, v, k) - f * Dot(b, v, k)
  {
    if k > 0 {
      DotSubtracted(a, b, a', v, f, k - 1);
      assert a'[k - 1] * v[k - 1] == a[k - 1] * v[k - 1] - f * (b[k - 1] * v[k - 1]);
    }
  }

  lemma {:induction false} DotNonNegative(a: seq<real>, v: seq<real>, k: nat)
    requires k <= |a| && k <= |v|
    requires forall j :: 0 <= j < k ==> a[j] >= 0.0 && v[j] >= 0.0
    ensures Dot(a, v, k) >= 0.0
  {
    if k > 0 {
      DotNonNegative(a, v, k - 1);
      assert a[k - 1] * v[k - 1] >= 0.0;
    }
  }

  lemma {:induction false} DotSame(a: seq<real>, v: seq<real>, a': seq<real>, v': seq<real>, k: nat)
    requires k <= |a| && k <= |v| && k <= |a'| && k <= |v'|
    requires forall j :: 0 <= j < k ==> a[j] == a'[j] && v[j] == v'[j]
    ensures Dot(a, v, k) == Dot(a', v', k)
  {
    if k > 0 {
      DotSame(a, v, a', v', k - 1);
    }
  }

  lemma {:induction false} DotNegated(a: seq<real>, a': seq<real>, v: seq<real>, k: nat)
    requires k <= |a| && k <= |a'| && k <= |v|
    requires forall j :: 0 <= j < k ==> a'[j] == -a[j]
    ensures Dot(a', v, k) == -Dot(a, v, k)
  {
    if k > 0 {
      DotNegated(a, a', v, k - 1);
    }
  }

  /** Entries n..n+k-1 of `a` are 0 except a 1 at n+i: they add v[n+i] when
      that position is among them. */
  lemma {:induction false} DotUnitTail(a: seq<real>, v: seq<real>, n: nat, i: int, k: nat)
    requires n + k <= |a| && n + k <= |v|
    requires forall j :: n <= j < n + k ==> a[j] == if j - n == i then 1.0 else 0.0
    ensures Dot(a, v, n + k) == Dot(a, v, n) + if 0 <= i < k then v[n + i] else 0.0
  {
    if k > 0 {
      DotUnitTail(a, v, n, i, k - 1);
    }
  }

  // --------------------------------------------------------------- residuals

  /** How far the point v is from satisfying the equation a row stands for
      (coefficients before the last column, right-hand side in it). */
  function Residual(row: seq<real>, v: seq<real>): real
    requires |row| >= 1 && |v| >= |row| - 1
  {
    Dot(row, v, |row| - 1) - row[|row| - 1]
  }

  /** The extended point v satisfies every constraint row of T. */
  predicate Balanced(T: Matrix, v: seq<real>)
    requires IsTableau(T) && |v| == Width(T) - 1
  {
    forall i :: 0 <= i < |T| - 1 ==> Residual(T[i], v) == 0.0
  }

  lemma ResidualScaled(a: seq<real>, a': seq<real>, v: seq<real>, p: real)
    requires |a| >= 1 && |a'| == |a| && |v| >= |a| - 1 && p != 0.0
    requires forall j :: 0 <= j < |a| ==> a'[j] == a[j] / p
    ensures Residual(a', v) == Residual(a, v) / p
  {
    DotScaled(a, a', v, p, |a| - 1);
  }

  lemma ResidualSubtracted(a: seq<real>, b: seq<real>, a': seq<real>, v: seq<real>, f: real)
    requires |a| >= 1 && |b| == |a| && |a'| == |a| && |v| >= |a| - 1
    requires forall j :: 0 <= j < |a| ==> a'[j] == a[j] - f * b[j]
    ensures Residual(a', v) == Residual(a, v) - f * Residual(b, v)
  {
    DotSubtracted(a, b, a', v, f, |a| - 1);
  }

  /** A pivot rescales the pivot row and subtracts multiples of the new pivot
      row from the others, so a point on the pivot row's equation keeps every
      row's residual. */
  lemma PivotResidual(T: Matrix, r: nat, c: nat, v: seq<real>, i: nat)
    requires IsTableau(T) && r < |T| && c < Width(T) && T[r][c] != 0.0
    requires |v| == Width(T) - 1 && Residual(T[r], v) == 0.0 && i < |T|
    ensures Residual(Pivoted(T, r, c)[i], v) == Residual(T[i], v)
  {
    var P := Pivoted(T, r, c);
    PivotedEntries(T, r, c);
    assert forall j :: 0 <= j < Width(T) ==> P[r][j] == T[r][j] / T[r][c] by {
      forall j | 0 <= j < Width(T) ensures P[r][j] == T[r][j] / T[r][c] {
        assert P[r][j] == PivotEntry(T, r, c, r, j);
      }
    }
    ResidualScaled(T[r], P[r], v, T[r][c]);
    if i != r {
      assert forall j :: 0 <= j < Width(T) ==> P[i][j] == T[i][j] - T[i][c] * P[r][j] by {
        forall j | 0 <= j < Width(T) ensures P[i][j] == T[i][j] - T[i][c] * P[r][j] {
          assert P[i][j] == PivotEntry(T, r, c, i, j);
        }
      }
      ResidualSubtracted(T[i], P[r], P[i], v, T[i][c]);
    }
  }

  /** A pivot on a constraint row keeps a balanced point balanced and leaves
      the Z row's residual unchanged. */
  lemma PivotKeepsBalance(T: Matrix, r: nat, c: nat, v: seq<real>)
    requires IsTableau(T) && r < |T| - 1 && c < Width(T) && T[r][c] != 0.0
    requires |v| == Width(T) - 1 && Balanced(T, v)
    ensures Balanced(Pivoted(T, r, c), v)
    ensures Residual(ZRow(Pivoted(T, r, c)), v) == Residual(ZRow(T), v)
  {
    forall i | 0 <= i < |T|
      ensures Residual(Pivoted(T, r, c)[i], v) == Residual(T[i], v)
    {
      PivotResidual(T, r, c, v, i);
    }
  }

  /** Through a whole run that reaches an optimum. */
  lemma {:induction false} RunKeepsBalance(T: Matrix, fuel: nat, v: seq<real>)
    requires IsTableau(T) && |v| == Width(T) - 1 && Balanced(T, v) && Run(T, fuel).Optimal?
    ensures Balanced(Run(T, fuel).final, v)
    ensures Residual(ZRow(Run(T, fuel).final), v) == Residual(ZRow(T), v)
    decreases fuel
  {
    var c := PivotColumn(T);
    if c != -1 {
      var r := PivotRow(T, c);
      PivotKeepsBalance(T, r, c, v);
      RunKeepsBalance(Pivoted(T, r, c), fuel - 1, v);
    }
  }

  /** On a tableau whose Z row has no negative coefficient, the Z-row RHS is
      at least minus the residual of any non-negative point. */
  lemma OptimalZBound(T: Matrix, v: seq<real>)
    requires IsTableau(T) && |v| == Width(T) - 1
    requires forall j :: 0 <= j < Width(T) - 1 ==> ZRow(T)[j] >= 0.0 && v[j] >= 0.0
    ensures Rhs(T, |T| - 1) >= -Residual(ZRow(T), v)
  {
    DotNonNegative(ZRow(T), v, Width(T) - 1);
  }

  // ------------------------------------------------------------ the problem

  /** The left-hand side of constraint i at x. */
  function Lhs(p: Problem, i: nat, x: seq<real>): real
    requires WellFormed(p) && i < |p.constraints| && |x| == p.numVars
  {
    Dot(p.constraints[i].coefficients, x, p.numVars)
  }

  /** x is non-negative and satisfies every constraint read as `<=`. */
  predicate InRegion(p: Problem, x: seq<real>)
    requires WellFormed(p)
  {
    && |x| == p.numVars
    && (forall k :: 0 <= k < |x| ==> x[k] >= 0.0)
    && forall i :: 0 <= i < |p.constraints| ==> Lhs(p, i, x) <= p.constraints[i].rhs
  }

  /** x followed by its slacks, one per constraint. */
  function Extend(p: Problem, x: seq<real>): (v: seq<real>)
    requires WellFormed(p) && |x| == p.numVars
    ensures |v| == p.numVars + |p.constraints|
    ensures forall k :: 0 <= k < p.numVars ==> v[k] == x[k]
    ensures forall i :: 0 <= i < |p.constraints| ==> v[p.numVars + i] == p.constraints[i].rhs - Lhs(p, i, x)
  {
    x + seq(|p.constraints|, i requires 0 <= i < |p.constraints| => p.constraints[i].rhs - Lhs(p, i, x))
  }

  /** The objective the engine maximises internally: c.x, or -c.x when minimising. */
  function Gain(p: Problem, x: seq<real>): real
    requires WellFormed(p) && |x| == p.numVars
  {
    if p.direction == Maximize then Dot(p.objective, x, p.numVars) else -Dot(p.objective, x, p.numVars)
  }

  /** Constraint row i of the initial tableau, at a point v = x followed by
      one slack per constraint, measures Lhs + slack - rhs. */
  lemma InitialRowResidual(p: Problem, v: seq<real>, i: nat)
    requires WellFormed(p) && |v| == p.numVars + |p.constraints| && i < |p.constraints|
    ensures Residual(InitialTableau(p)[i], v) ==
              Lhs(p, i, v[..p.numVars]) + v[p.numVars + i] - p.constraints[i].rhs
  {
    var T := InitialTableau(p);
    var n, m := p.numVars, |p.constraints|;
    var row := T[i];
    assert |row| == n + m + 1 && row[n + m] == p.constraints[i].rhs;
    DotSame(row, v, p.constraints[i].coefficients, v[..n], n);
    DotUnitTail(row, v, n, i, m);
  }

  /** The Z row of the initial tableau has residual minus the internal
      objective at the point's first n entries. */
  lemma InitialZResidual(p: Problem, v: seq<real>)
    requires WellFormed(p) && |v| == p.numVars + |p.constraints|
    ensures Residual(ZRow(InitialTableau(p)), v) == -Gain(p, v[..p.numVars])
  {
    var T := InitialTableau(p);
    var n := p.numVars;
    DotUnitTail(ZRow(T), v, n, -1, |p.constraints|);
    DotSame(p.objective, v, p.objective, v[..n], n);
    if p.direction == Maximize {
      DotNegated(p.objective, ZRow(T), v, n);
    } else {
      DotSame(ZRow(T), v, p.objective, v, n);
    }
  }

  /** In the initial tableau, x with its slacks satisfies every constraint
      row, and the Z row's residual is minus the internal objective. */
  lemma InitialBalance(p: Problem, x: seq<real>)
    requires WellFormed(p) && |x| == p.numVars
    ensures Balanced(InitialTableau(p), Extend(p, x))
    ensures Residual(ZRow(InitialTableau(p)), Extend(p, x)) == -Gain(p, x)
  {
    var v := Extend(p, x);
    assert v[..p.numVars] == x;
    forall i | 0 <= i < |p.constraints|
      ensures Residual(InitialTableau(p)[i], v) == 0.0
    {
      InitialRowResidual(p, v, i);
    }
    InitialZResidual(p, v);
  }

  /** x with its slacks is non-negative when x is in the region. */
  lemma ExtendNonNegative(p: Problem, x: seq<real>)
    requires WellFormed(p) && InRegion(p, x)
    ensures forall k :: 0 <= k < |Extend(p, x)| ==> Extend(p, x)[k] >= 0.0
  {
    var v := Extend(p, x);
    forall k | 0 <= k < |v|
      ensures v[k] >= 0.0
    {
      if k >= p.numVars {
        assert v[p.numVars + (k - p.numVars)] == p.constraints[k - p.numVars].rhs - Lhs(p, k - p.numVars, x);
      }
    }
  }

  /** The value the Simplex method reports is an upper bound of the
      objective over the region when maximising and a lower bound when
      minimising. */
  lemma SimplexBound(p: Problem, maxPivots: nat, x: seq<real>)
    requires WellFormed(p) && InRegion(p, x) && SimplexResult(p, maxPivots).Solution?
    ensures p.direction == Maximize ==> Dot(p.objective, x, p.numVars) <= SimplexResult(p, maxPivots).z
    ensures p.direction == Minimize ==> Dot(p.objective, x, p.numVars) >= SimplexResult(p, maxPivots).z
  {
    var T0, v := InitialTableau(p), Extend(p, x);
    var outcome := Run(T0, maxPivots);
    assert outcome.Optimal?;
    InitialBalance(p, x);
    RunKeepsBalance(T0, maxPivots, v);
    RunOptimal(T0, maxPivots);
    ExtendNonNegative(p, x);
    OptimalZBound(outcome.final, v);
    assert Rhs(outcome.final, |T0| - 1) >= Gain(p, x);
    assert SimplexResult(p, maxPivots).z == ObjectiveValue(outcome.final, p.direction);
  }

  // ----------------------------------------------------- the source's sign

  /** Maximise x1 subject to x1 <= 4. */
  const OneBound: Problem := Problem(1, Maximize, [1.0], [Constraint([1.0], Le, 4.0)])

  /** Its tableau after the one pivot, on x1 in the constraint row. */
  const OneBoundFinal: Matrix := [[1.0, 1.0, 4.0], [0.0, 1.0, 4.0]]

  lemma OneBoundRun()
    ensures Run(InitialTableau(OneBound), 1) == Optimal(OneBoundFinal)
  {
    var T0 := InitialTableau(OneBound);
    assert T0[0][0] == 1.0 && T0[0][1] == 1.0 && T0[0][2] == 4.0;
    assert T0[1][0] == -1.0 && T0[1][1] == 0.0 && T0[1][2] == 0.0;
    assert ColumnScan(ZRow(T0), 2) == 0;
    assert PivotRow(T0, 0) == 0;
    var T1 := Pivoted(T0, 0, 0);
    PivotedEntries(T0, 0, 0);
    assert T1[0][0] == 1.0 && T1[0][1] == 1.0 && T1[0][2] == 4.0;
    assert T1[1][0] == 0.0 && T1[1][1] == 1.0 && T1[1][2] == 4.0;
    TableauArray.MatrixExtensionality(T1, OneBoundFinal);
    assert ColumnScan(ZRow(OneBoundFinal), 2) == -1;
  }

  /** On the final tableau x1's column is the unit vector of the constraint
      row, so both read-offs give x1 its RHS 4. */
  lemma OneBoundReadOff()
    ensures Extracted(OneBoundFinal, 1) == [4.0]
    ensures BasicValues(OneBoundFinal, 1) == [4.0]
  {
    var T := OneBoundFinal;
    assert BasicAt(T, 0, 0);
    assert UnitColumn(T, 0, 0);
    assert FirstUnit(T, 0, 2) == 0;
    assert ReadBasis(T) == [0];
  }

  /** On OneBound the source reports x1 = 4 with Z = -4, although the
      feasible point x1 = 4 reaches 4: the reported maximum is below a value
      the objective attains, the opposite of what SimplexBound promises. */
  lemma ZSignAsWritten()
    ensures SimplexResultAsWritten(OneBound, 1) == Solution([4.0], -4.0)
    ensures InRegion(OneBound, [4.0]) && Dot(OneBound.objective, [4.0], 1) == 4.0
    ensures SimplexResult(OneBound, 1) == Solution([4.0], 4.0)
  {
    OneBoundRun();
    OneBoundReadOff();
  }
}
