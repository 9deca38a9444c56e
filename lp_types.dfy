/** The problem description the solvers work on, the raw form it is read
    from, and the result they hand back (src/App.jsx). */
module LpTypes {

  datatype Option<+T> = None | Some(value: T)

  /** Whether the objective is maximised ('maximizar') or minimised ('minimizar'). */
  datatype Direction = Maximize | Minimize

  /** The constraint operator: '<=', '>=', and every other operator string
      (the form offers '='), which the feasibility test reads as equality. */
  datatype Relation = Le | Ge | Eq

  datatype Constraint = Constraint(coefficients: seq<real>, relation: Relation, rhs: real)

  datatype Problem = Problem(numVars: nat, direction: Direction, objective: seq<real>, constraints: seq<Constraint>)

  /** A constraint as typed into the form: every number may be missing or unparsable. */
  datatype FormConstraint = FormConstraint(coefficients: seq<Option<real>>, relation: Relation, rhs: Option<real>)

  datatype Form = Form(numVars: nat, direction: Direction, objective: seq<Option<real>>, constraints: seq<FormConstraint>)

  /** What a solver reports. `IterationLimit` is the outcome of a Simplex run
      that used up its pivot budget (the source loops without a bound). */
  datatype Result = Solution(values: seq<real>, z: real) | Error(message: string) | IterationLimit

  const UnboundedMessage: string := "Solución no acotada"
  const DimensionMessage: string := "Método gráfico requiere exactamente 2 variables"
  const InfeasibleMessage: string := "No hay solución factible"

  /** `parseFloat(v) || 0`: a number that did not parse counts as 0. */
  function Parse(o: Option<real>): (x: real)
    ensures o.Some? ==> x == o.value
    ensures o.None? ==> x == 0.0
  {
    match o
    case Some(v) => v
    case None => 0.0
  }

  function ParseAll(s: seq<Option<real>>): (r: seq<real>)
    ensures |r| == |s|
    ensures forall k :: 0 <= k < |s| ==> r[k] == Parse(s[k])
  {
    seq(|s|, k requires 0 <= k < |s| => Parse(s[k]))
  }

  /** The numeric problem the form denotes: shapes and operators are kept,
      every missing number becomes 0. */
  function FromForm(f: Form): (p: Problem)
    ensures p.numVars == f.numVars && p.direction == f.direction
    ensures |p.objective| == |f.objective| && |p.constraints| == |f.constraints|
    ensures forall k :: 0 <= k < |f.objective| ==> p.objective[k] == Parse(f.objective[k])
    ensures forall i :: 0 <= i < |f.constraints| ==>
              && |p.constraints[i].coefficients| == |f.constraints[i].coefficients|
              && p.constraints[i].relation == f.constraints[i].relation
              && p.constraints[i].rhs == Parse(f.constraints[i].rhs)
    ensures forall i, k :: 0 <= i < |f.constraints| && 0 <= k < |f.constraints[i].coefficients| ==>
              p.constraints[i].coefficients[k] == Parse(f.constraints[i].coefficients[k])
    ensures FormWellFormed(f) <==> WellFormed(p)
  {
    var p := Problem(f.numVars, f.direction, ParseAll(f.objective),
                     seq(|f.constraints|, i requires 0 <= i < |f.constraints| =>
                       Constraint(ParseAll(f.constraints[i].coefficients), f.constraints[i].relation, Parse(f.constraints[i].rhs))));
    assert forall i :: 0 <= i < |f.constraints| ==>
             |p.constraints[i].coefficients| == |f.constraints[i].coefficients|;
    p
  }

  /** The shape the form keeps while it is edited: changing the number of
      variables resets every coefficient list to that length, and a new
      constraint gets one coefficient per variable. */
  predicate FormWellFormed(f: Form) {
    && |f.objective| == f.numVars
    && forall i :: 0 <= i < |f.constraints| ==> |f.constraints[i].coefficients| == f.numVars
  }

  /** The shape the form keeps: one objective coefficient and one coefficient
      per constraint for every variable. */
  predicate WellFormed(p: Problem) {
    && |p.objective| == p.numVars
    && forall i :: 0 <= i < |p.constraints| ==> |p.constraints[i].coefficients| == p.numVars
  }

  /** `parseFloat(coefficients[k]) || 0`: an absent coefficient reads as 0. */
  function Coef(c: Constraint, k: nat): (x: real)
    ensures k < |c.coefficients| ==> x == c.coefficients[k]
    ensures k >= |c.coefficients| ==> x == 0.0
  {
    if k < |c.coefficients| then c.coefficients[k] else 0.0
  }

  /** `Math.abs`. */
  function Abs(x: real): real {
    if x < 0.0 then -x else x
  }

  /** Sum of `u[k] * v[k]` over the first `n` entries. */
  function Dot(u: seq<real>, v: seq<real>, n: nat): real
    requires n <= |u| && n <= |v|
  {
    if n == 0 then 0.0 else Dot(u, v, n - 1) + u[n - 1] * v[n - 1]
  }
}
