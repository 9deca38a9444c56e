/** The Simplex solver: iterate pivot-column selection, pivot-row selection
    and the pivot until the Z row has no negative entry or no row qualifies
    (src/App.jsx:97-193). */
module Simplex {
  import opened LpTypes
  import opened Tableau
  import opened TableauArray

  datatype RunOutcome = Optimal(final: Matrix) | Unbounded | OutOfPivots

  /** The iteration as a value. `fuel` bounds the number of pivots; the
      source's `while (true)` has no bound, and RunFuelIrrelevant shows that
      a larger bound never changes an outcome other than OutOfPivots. */
  function Run(T: Matrix, fuel: nat): (o: RunOutcome)
    requires IsTableau(T)
    ensures o.Optimal? ==> IsTableau(o.final) && |o.final| == |T| && Width(o.final) == Width(T)
    decreases fuel
  {
    var c := PivotColumn(T);
    if c == -1 then Optimal(T)
    else
      var r := PivotRow(T, c);
      if r == -1 then Unbounded
      else if fuel == 0 then OutOfPivots
      else Run(Pivoted(T, r, c), fuel - 1)
  }

  /** One pivot of the run: when the rules pick a column and a row and the
      budget allows, the run continues from the pivoted tableau. */
  lemma RunStep(T: Matrix, fuel: nat, c: int, r: int)
    requires IsTableau(T) && c == PivotColumn(T) && c != -1
    requires r == PivotRow(T, c) && r != -1 && fuel > 0
    ensures T[r][c] > 0.0
    ensures Run(T, fuel) == Run(Pivoted(T, r, c), fuel - 1)
  {
  }

  /** The three ways a run ends at once. */
  lemma RunStops(T: Matrix, fuel: nat)
    requires IsTableau(T)
    ensures PivotColumn(T) == -1 ==> Run(T, fuel) == Optimal(T)
    ensures PivotColumn(T) != -1 && PivotRow(T, PivotColumn(T)) == -1 ==> Run(T, fuel) == Unbounded
    ensures PivotColumn(T) != -1 && PivotRow(T, PivotColumn(T)) != -1 && fuel == 0 ==> Run(T, fuel) == OutOfPivots
  {
  }

  /** A run that stops at an optimum ends on a tableau of the same shape whose
      Z row, RHS excluded, has no negative entry. */
  lemma {:induction false} RunOptimal(T: Matrix, fuel: nat)
    requires IsTableau(T) && Run(T, fuel).Optimal?
    ensures IsTableau(Run(T, fuel).final)
    ensures |Run(T, fuel).final| == |T| && Width(Run(T, fuel).final) == Width(T)
    ensures PivotColumn(Run(T, fuel).final) == -1
    ensures forall j :: 0 <= j < Width(T) - 1 ==> ZRow(Run(T, fuel).final)[j] >= 0.0
    decreases fuel
  {
    var c := PivotColumn(T);
    if c == -1 {
      ColumnScanSpec(ZRow(T), Width(T) - 1);
    } else {
      var r := PivotRow(T, c);
      RunOptimal(Pivoted(T, r, c), fuel - 1);
    }
  }

  /** The pivot budget only cuts runs short: any run that finishes within
      `fuel` pivots finishes the same way with a larger budget. */
  lemma {:induction false} RunFuelIrrelevant(T: Matrix, fuel: nat, more: nat)
    requires IsTableau(T) && !Run(T, fuel).OutOfPivots? && fuel <= more
    ensures Run(T, more) == Run(T, fuel)
    decreases fuel
  {
    var c := PivotColumn(T);
    if c != -1 {
      var r := PivotRow(T, c);
      if r != -1 {
        RunFuelIrrelevant(Pivoted(T, r, c), fuel - 1, more - 1);
      }
    }
  }

  /** Starting from a feasible basic solution, every pivot the rules choose
      keeps it feasible and never lowers the Z-row RHS. */
  lemma {:induction false} RunKeepsFeasibility(T: Matrix, fuel: nat)
    requires IsTableau(T) && RhsNonNegative(T) && Run(T, fuel).Optimal?
    ensures IsTableau(Run(T, fuel).final) && |Run(T, fuel).final| == |T|
    ensures RhsNonNegative(Run(T, fuel).final)
    ensures Rhs(Run(T, fuel).final, |T| - 1) >= Rhs(T, |T| - 1)
    decreases fuel
  {
    RunOptimal(T, fuel);
    var c := PivotColumn(T);
    if c != -1 {
      var r := PivotRow(T, c);
      PivotKeepsRhsNonNegative(T, c);
      PivotRaisesZRhs(T, c);
      RunKeepsFeasibility(Pivoted(T, r, c), fuel - 1);
    }
  }

  /** What solveSimplex reports for `p` within `maxPivots` pivots, with both
      corrections of the findings: the basic solution read off the optimal
      tableau (BasicValues, where the source's Extracted can read one row
      into two variables) with its objective value (ObjectiveValue, where
      the source's ZValueAsWritten has the opposite sign), or the unbounded
      error. */
  function SimplexResult(p: Problem, maxPivots: nat): (r: Result)
    requires WellFormed(p)
    ensures r.Solution? ==> |r.values| == p.numVars
    ensures r.Solution? ==> SimplexResultAsWritten(p, maxPivots).Solution? &&
                            r.z == -SimplexResultAsWritten(p, maxPivots).z
    ensures !r.Solution? ==> r == SimplexResultAsWritten(p, maxPivots)
  {
    match Run(InitialTableau(p), maxPivots)
    case Optimal(T) => Solution(BasicValues(T, p.numVars), ObjectiveValue(T, p.direction))
    case Unbounded => Error(UnboundedMessage)
    case OutOfPivots => IterationLimit
  }

  /** What the source itself reports on the same run. */
  ghost function SimplexResultAsWritten(p: Problem, maxPivots: nat): (r: Result)
    requires WellFormed(p)
    ensures r.Solution? <==> Run(InitialTableau(p), maxPivots).Optimal?
    ensures r.Solution? ==> |r.values| == p.numVars &&
                            r.z == -ObjectiveValue(Run(InitialTableau(p), maxPivots).final, p.direction)
    ensures r.Error? <==> Run(InitialTableau(p), maxPivots).Unbounded?
    ensures r.Error? ==> r.message == UnboundedMessage
  {
    match Run(InitialTableau(p), maxPivots)
    case Optimal(T) => Solution(Extracted(T, p.numVars), ZValueAsWritten(T, p.direction))
    case Unbounded => Error(UnboundedMessage)
    case OutOfPivots => IterationLimit
  }

  /** A solution has one value per variable and comes from a tableau whose Z
      row has no negative entry; the only error is "unbounded". */
  lemma SimplexResultShape(p: Problem, maxPivots: nat)
    requires WellFormed(p)
    ensures SimplexResult(p, maxPivots).Solution? ==>
              && |SimplexResult(p, maxPivots).values| == p.numVars
              && Run(InitialTableau(p), maxPivots).Optimal?
              && forall j :: 0 <= j < p.numVars + |p.constraints| ==>
                   ZRow(Run(InitialTableau(p), maxPivots).final)[j] >= 0.0
    ensures SimplexResult(p, maxPivots).Error? ==> SimplexResult(p, maxPivots).message == UnboundedMessage
  {
    var T0 := InitialTableau(p);
    if Run(T0, maxPivots).Optimal? {
      RunOptimal(T0, maxPivots);
    }
  }

  /** Why the in-place iteration stopped. */
  datatype Stop = AtOptimum | NoPivotRow | BudgetSpent

  /** What a stop means for the run. */
  function Outcome(stop: Stop, T: Matrix): RunOutcome {
    match stop
    case AtOptimum => Optimal(T)
    case NoPivotRow => Unbounded
    case BudgetSpent => OutOfPivots
  }

  /** One pass of the loop body of solveSimplex (src/App.jsx:100-154): choose
      the pivot column and row, stop if either is missing or the budget is
      spent, otherwise pivot in place. */
  method Advance(t: array2<real>, ghost T: Matrix, fuel: nat) returns (stop: Stop, pivoted: bool)
    requires t.Length0 >= 1 && t.Length1 >= 1 && T == Snapshot(t)
    modifies t
    ensures pivoted ==> fuel > 0 && Run(T, fuel) == Run(Snapshot(t), fuel - 1)
    ensures pivoted ==> PivotColumn(T) >= 0 && PivotRow(T, PivotColumn(T)) >= 0 &&
                        Snapshot(t) == Pivoted(T, PivotRow(T, PivotColumn(T)), PivotColumn(T))
    ensures !pivoted ==> Snapshot(t) == T && Run(T, fuel) == Outcome(stop, T)
  {
    stop := AtOptimum;
    pivoted := false;
    var pivotCol := FindPivotColumn(t);
    if pivotCol == -1 {
      RunStops(T, fuel);
      return;
    }
    var pivotRow := FindPivotRow(t, pivotCol);
    if pivotRow == -1 {
      RunStops(T, fuel);
      stop := NoPivotRow;
      return;
    }
    if fuel == 0 {
      RunStops(T, fuel);
      stop := BudgetSpent;
      return;
    }
    RunStep(T, fuel, pivotCol, pivotRow);
    Pivot(t, pivotRow, pivotCol);
    pivoted := true;
  }

  /** The `while (true)` loop of solveSimplex (src/App.jsx:99-159) on the
      tableau in place, with at most `maxPivots` pivots. */
  method Iterate(t: array2<real>, maxPivots: nat) returns (stop: Stop)
    requires t.Length0 >= 1 && t.Length1 >= 1
    modifies t
    ensures Run(old(Snapshot(t)), maxPivots) == Outcome(stop, Snapshot(t))
  {
    ghost var outcome := Run(Snapshot(t), maxPivots);
    var fuel := maxPivots;
    while true
      invariant Run(Snapshot(t), fuel) == outcome
      decreases fuel
    {
      var pivoted;
      stop, pivoted := Advance(t, Snapshot(t), fuel);
      if !pivoted {
        return;
      }
      fuel := fuel - 1;
    }
  }

  /** solveSimplex: build the tableau, iterate in place, then read off the
      basic solution and the objective value (both corrected, see
      SimplexResult) or report that the problem is unbounded. */
  method SolveSimplex(p: Problem, maxPivots: nat) returns (res: Result)
    requires WellFormed(p)
    ensures res == SimplexResult(p, maxPivots)
    ensures res.Solution? ==> |res.values| == p.numVars
  {
    var t := BuildTableau(p);
    var stop := Iterate(t, maxPivots);
    if stop == NoPivotRow {
      return Error(UnboundedMessage);
    } else if stop == BudgetSpent {
      return IterationLimit;
    }
    var values := ExtractBasic(t, p.numVars);
    var last := t.Length0 - 1;
    var zValue := if p.direction == Maximize then t[last, t.Length1 - 1] else -t[last, t.Length1 - 1];
    res := Solution(values, zValue);
  }
}
