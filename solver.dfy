/** The solve button: the chosen method name selects the simplex solver
    (also used for the two-phase method) or the graphical solver. */
module Solver {
  import opened LpTypes
  import Simplex
  import SimplexBound
  import SimplexOptimum
  import Graphical

  datatype Method = SimplexMethod | TwoPhaseMethod | GraphicalMethod

  /** The method names of the selector; any other name selects nothing. */
  function MethodOf(name: string): (m: Option<Method>)
    ensures m == Some(SimplexMethod) <==> name == "simplex"
    ensures m == Some(TwoPhaseMethod) <==> name == "dosfases"
    ensures m == Some(GraphicalMethod) <==> name == "grafico"
    ensures m.None? <==> name != "simplex" && name != "dosfases" && name != "grafico"
  {
    if name == "simplex" then Some(SimplexMethod)
    else if name == "dosfases" then Some(TwoPhaseMethod)
    else if name == "grafico" then Some(GraphicalMethod)
    else None
  }

  /** What is shown after solving the form with method `m`. The two-phase
      method runs the plain simplex solver. */
  function MethodResult(f: Form, m: Method, maxPivots: nat): Result
    requires FormWellFormed(f)
  {
    match m
    case GraphicalMethod => Graphical.GraphicalResult(FromForm(f))
    case _ => Simplex.SimplexResult(FromForm(f), maxPivots)
  }

  /** solve: the shown solution is cleared, then the selected solver sets it;
      an unknown method name leaves it cleared (None). */
  method Solve(name: string, f: Form, maxPivots: nat) returns (shown: Option<Result>)
    requires FormWellFormed(f)
    ensures MethodOf(name).None? <==> shown.None?
    ensures MethodOf(name).Some? ==> shown == Some(MethodResult(f, MethodOf(name).value, maxPivots))
  {
    shown := None;
    var p := FromForm(f);
    if name == "simplex" || name == "dosfases" {
      var res := Simplex.SolveSimplex(p, maxPivots);
      shown := Some(res);
    } else if name == "grafico" {
      var res := Graphical.SolveGraphical(p);
      shown := Some(res);
    }
  }

  /** What a shown result means. Only the unbounded, dimension and
      infeasibility errors are ever reported. A Simplex (or two-phase)
      solution bounds the objective over every non-negative point satisfying
      all constraints read as `<=`, and when every RHS is non-negative it is
      itself such a point and reaches the reported value, hence optimal. A
      graphical solution is a feasible point whose value is the reported Z. */
  lemma SolutionSound(f: Form, m: Method, maxPivots: nat)
    requires FormWellFormed(f)
    ensures MethodResult(f, m, maxPivots).Error? ==>
              MethodResult(f, m, maxPivots).message in {UnboundedMessage, DimensionMessage, InfeasibleMessage}
    ensures m != GraphicalMethod && MethodResult(f, m, maxPivots).Solution? ==>
              |MethodResult(f, m, maxPivots).values| == f.numVars &&
              forall x :: SimplexBound.InRegion(FromForm(f), x) ==>
                if f.direction == Maximize then Dot(FromForm(f).objective, x, f.numVars) <= MethodResult(f, m, maxPivots).z
                else Dot(FromForm(f).objective, x, f.numVars) >= MethodResult(f, m, maxPivots).z
    ensures m != GraphicalMethod && MethodResult(f, m, maxPivots).Solution? && SimplexOptimum.StartsFeasible(FromForm(f)) ==>
              && SimplexBound.InRegion(FromForm(f), MethodResult(f, m, maxPivots).values)
              && Dot(FromForm(f).objective, MethodResult(f, m, maxPivots).values, f.numVars) == MethodResult(f, m, maxPivots).z
    ensures m == GraphicalMethod && MethodResult(f, m, maxPivots).Solution? ==>
              && f.numVars == 2 && |MethodResult(f, m, maxPivots).values| == 2
              && var pt := Graphical.Point(MethodResult(f, m, maxPivots).values[0], MethodResult(f, m, maxPivots).values[1]);
                 && Graphical.Feasible(FromForm(f).constraints, pt)
                 && MethodResult(f, m, maxPivots).z == Graphical.Value(Graphical.ObjCoef(FromForm(f), 0), Graphical.ObjCoef(FromForm(f), 1), pt)
  {
    var p := FromForm(f);
    if m == GraphicalMethod {
      Graphical.GraphicalErrors(p);
      if Graphical.GraphicalResult(p).Solution? {
        Graphical.GraphicalOptimal(p);
      }
    } else {
      Simplex.SimplexResultShape(p, maxPivots);
      if Simplex.SimplexResult(p, maxPivots).Solution? {
        forall x | SimplexBound.InRegion(p, x)
          ensures if f.direction == Maximize then Dot(p.objective, x, f.numVars) <= MethodResult(f, m, maxPivots).z
                  else Dot(p.objective, x, f.numVars) >= MethodResult(f, m, maxPivots).z
        {
          SimplexBound.SimplexBound(p, maxPivots, x);
        }
        if SimplexOptimum.StartsFeasible(p) {
          SimplexOptimum.SimplexFeasible(p, maxPivots);
        }
      }
    }
  }
}
