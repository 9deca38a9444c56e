# Linear programming solver core, in Dafny

This project models the solving core of a single-page linear-programming
calculator (`src/App.jsx`). The user fills in a form: the number of variables, maximise or
minimise, the objective coefficients, and constraints. Each constraint has coefficients, an operator
(`<=`, `>=`, `=`) and a right-hand side. The user then picks a method:

* **Simplex** (`solveSimplex`). It builds a tableau with one slack column per constraint, whatever
  the operator. It then pivots in place until the Z row has no negative entry, or until no row passes
  the minimum-ratio test (unbounded). Finally it reads the original variables off the unit columns.
* **Two phases** (`solveTwoPhase`). It only prepends two log lines and runs the Simplex method.
* **Graphical** (`solveGraphical`). It accepts two variables only. The candidate points are the
  origin, the axis intercepts and the pairwise intersections of the constraint lines. Duplicates are
  dropped by their `toFixed(4)` key, and each remaining point is checked against every constraint
  with a tolerance of 0.001. The first strictly best value wins.

The model has these modules:

* `LpTypes` holds the problem, the form and the result values. The form's numbers are `Option<real>`:
  a missing or unparsable entry reads as 0, as `parseFloat(v) || 0` does.
* `Tableau` describes the tableau as a value. It covers construction, the two selection rules, the
  Gauss-Jordan pivot and read-off.
* `TableauArray` holds the in-place operations on an `array2<real>`. Each is proved equal to its
  value-level counterpart through `Snapshot`.
* `Simplex` holds the iteration (`Run` as a value, `Iterate` in place) and `SolveSimplex`.
* `SimplexBound` proves that the reported value bounds the objective over every non-negative point
  that satisfies all constraints read as `<=`.
* `SimplexOptimum` proves that every pivot keeps a basis and that pivots can be undone. It follows
  that, when every RHS is non-negative, the corrected read-off is a point of that region and reaches
  the reported value, so it is optimal.
* `Graphical` holds the graphical method. Loops become methods; each is proved equal to a function.
* `Solver` holds the solve button's dispatch on the method name.

## Model

| member | source | states |
|---|---|---|
| LpTypes.Parse | src/App.jsx:58 | a parsed number is kept; a missing or unparsable one reads as 0 |
| LpTypes.ParseAll | src/App.jsx:76-78 | every entry of a coefficient list is read with Parse, and the length is kept |
| LpTypes.FromForm | src/App.jsx:58-93 | the problem keeps the form's shape, operators and direction, reads every number with Parse, and is well formed exactly when the form is |
| LpTypes.Coef | src/App.jsx:211-213 | a coefficient the form does not hold reads as 0 |
| Tableau.CostRow | src/App.jsx:58-61 | the cost row is the objective, negated entry by entry when maximising |
| Tableau.InitialTableau | src/App.jsx:67-93 | one row per constraint (coefficients, an identity block of slacks whatever the operator, RHS), then the Z row (cost row, zeros); the shape is (m+1) x (n+m+1) |
| Tableau.ColumnScan | src/App.jsx:100-108 | the chosen column is -1 or an index below the bound whose Z entry is negative |
| Tableau.ColumnScanSpec | src/App.jsx:100-112 | no column is chosen exactly when no Z entry (RHS excluded) is negative; otherwise the column is the leftmost most negative entry |
| Tableau.RowScan | src/App.jsx:119-129 | the chosen row is -1 or a constraint row whose pivot-column entry is strictly positive |
| Tableau.RowScanSpec | src/App.jsx:119-137 | no row is chosen exactly when no constraint row has a positive entry; otherwise the row has the least RHS/entry ratio, and it is the first such row |
| Tableau.PivotColumn | src/App.jsx:100-112 | the pivot column is -1 exactly when no Z entry (RHS excluded) is negative; otherwise its Z entry is negative, no entry is smaller, and every column to its left is strictly larger |
| Tableau.PivotRow | src/App.jsx:119-134 | the pivot row is a constraint row; it is -1 exactly when no constraint row has a positive entry in the column; otherwise its entry is positive, its ratio is the least, and every earlier row with a positive entry has a strictly larger ratio |
| Tableau.Pivoted | src/App.jsx:141-154 | the pivot keeps the shape, and column c becomes the unit vector of row r, Z row included |
| Tableau.PivotedEntries | src/App.jsx:141-154 | pivot row divided by the pivot element; every other row minus its pivot-column entry times the new pivot row |
| Tableau.PivotInverse | src/App.jsx:141-154 | the old tableau is recovered from the pivoted one, so a pivot loses no information |
| Tableau.PivotKeepsRhsNonNegative | src/App.jsx:119-154 | when the pivot row comes from the minimum-ratio test, a non-negative RHS column stays non-negative |
| Tableau.PivotRaisesZRhs | src/App.jsx:100-154 | a pivot on a negative Z entry chosen by the two rules never lowers the Z-row RHS |
| Tableau.ColumnValue | src/App.jsx:161-179 | a variable whose column is 1 in one constraint row and 0 elsewhere (tolerance 0.0001, Z row ignored) takes that row's RHS; otherwise it is 0 |
| Tableau.BasicAt | src/App.jsx:163-172 | the source's basic-column test for a row (1 within 0.0001 there, 0 within 0.0001 in every other constraint row); when it holds, no other constraint row reads as 1 |
| Tableau.Extracted | src/App.jsx:161-179 | the source's read-off: one value per variable, the RHS of a row where its column reads as basic, and 0 when it reads as basic nowhere |
| Tableau.FirstUnit | src/App.jsx:161-179 | the corrected basic-column test: the first column that is exactly the unit vector of the row (Z row included), and -1 exactly when there is none |
| Tableau.BasisRow | src/App.jsx:161-179 | the row a column is basic in, or -1 exactly when no row names it |
| Tableau.ReadBasis | src/App.jsx:161-179 | the corrected read-off's basis: for each constraint row, a column (RHS excluded) that is exactly that row's unit vector, or -1 exactly when none is |
| Tableau.BasicValues | src/App.jsx:161-179 | the corrected values: a variable picked for a row takes that row's RHS, and a variable no row picks is 0, even when its column is also some row's unit vector (the duplicate column of the second finding) |
| Tableau.ReadBasisValues | src/App.jsx:161-179 | a column picked for one row is picked for no other, so its value is that row's RHS; a column no row picks has value 0 |
| Tableau.ObjectiveValue | src/App.jsx:181-183 | the corrected Z: the Z-row RHS when maximising, its negation when minimising; SimplexBound.SimplexBound and SimplexOptimum.SimplexOptimal prove it is the optimum |
| Tableau.ZValueAsWritten | src/App.jsx:181-183 | the Z value as the source computes it is the negation of the objective value the final tableau holds |
| TableauArray.Snapshot | src/App.jsx:69-93 | the array's value as a matrix: the same dimensions and entries, and a tableau when it is non-empty |
| TableauArray.BuildTableau | src/App.jsx:67-93 | the freshly built array holds exactly InitialTableau |
| TableauArray.FindPivotColumn | src/App.jsx:100-108 | the loop returns PivotColumn of the array's matrix |
| TableauArray.FindPivotRow | src/App.jsx:119-129 | the loop returns PivotRow of the array's matrix |
| TableauArray.DivideRow | src/App.jsx:141-145 | row r is divided by the divisor in place; every other entry is unchanged |
| TableauArray.SubtractRow | src/App.jsx:147-154 | row i loses factor times row r in place; every other entry is unchanged |
| TableauArray.Pivot | src/App.jsx:141-154 | after the in-place pivot the array holds Pivoted of its old matrix |
| TableauArray.ExtractSolution | src/App.jsx:161-179 | the source's read-off loop (count of unit entries, early exit on a non-zero entry) returns ColumnValue for every original variable |
| TableauArray.IsUnitColumn | src/App.jsx:163-172 | the column scan answers exactly UnitColumn |
| TableauArray.FindUnitColumn | src/App.jsx:161-179 | the scan over the columns returns FirstUnit |
| TableauArray.ExtractBasic | src/App.jsx:161-179 | the corrected read-off loop returns BasicValues: each constraint row gives its RHS to the first variable whose column is that row's unit vector, and every other variable is 0 |
| Simplex.Run | src/App.jsx:97-158 | an optimal outcome is a tableau of the original shape |
| Simplex.RunStep | src/App.jsx:97-158 | when both rules pick an entry, it is positive and the run continues from the pivoted tableau |
| Simplex.RunStops | src/App.jsx:110-137 | no pivot column gives an optimum; a pivot column without a pivot row gives unbounded; a spent budget gives the iteration limit |
| Simplex.RunOptimal | src/App.jsx:97-113 | an optimal final tableau has no negative Z entry (RHS excluded) and the original shape |
| Simplex.RunFuelIrrelevant | src/App.jsx:97-158 | a larger pivot budget never changes an outcome reached within the smaller one |
| Simplex.RunKeepsFeasibility | src/App.jsx:97-158 | from a non-negative RHS column the run ends with a non-negative RHS column and a Z-row RHS no smaller than at the start |
| Simplex.SimplexResultAsWritten | src/App.jsx:53-193 | what the source reports: a solution exactly when the run ends at an optimum, with one value per variable read by Extracted and Z the negated objective value; the unbounded error exactly when the run finds no pivot row |
| Simplex.SimplexResult | src/App.jsx:53-193 | solveSimplex with both findings corrected: one value per variable; it answers with a solution exactly when the source does, with the opposite Z; every other outcome is the source's |
| Simplex.SimplexResultShape | src/App.jsx:53-193 | a solution has one value per variable and comes from an optimal tableau; the only error is the unbounded message |
| Simplex.Advance | src/App.jsx:97-158 | one iteration either stops, with the array unchanged and the run's outcome decided, or pivots in place: both rules found an entry, the array now holds Pivoted of the old tableau at that entry, and the run continues from it with one pivot less |
| Simplex.Iterate | src/App.jsx:97-158 | the in-place loop ends with the same outcome as Run on the initial matrix, and the array holds the final tableau |
| Simplex.SolveSimplex | src/App.jsx:53-193 | the method returns SimplexResult, with both findings corrected: the basic solution with its objective value, or the unbounded error, with one value per variable |
| SimplexBound.PivotKeepsBalance | src/App.jsx:141-154 | every point that satisfies all constraint rows, and fits the Z row with a given residual, still does so after a pivot |
| SimplexBound.RunKeepsBalance | src/App.jsx:97-158 | the same holds for the final tableau of a run |
| SimplexBound.OptimalZBound | src/App.jsx:110-113 | at an optimum, any non-negative balanced point has internal objective at most the Z-row RHS |
| SimplexBound.InitialRowResidual | src/App.jsx:74-85 | constraint row i of the initial tableau measures the constraint's left-hand side plus slack minus RHS |
| SimplexBound.InitialZResidual | src/App.jsx:88-93 | the initial Z row measures minus the internal objective |
| SimplexBound.InitialBalance | src/App.jsx:67-93 | a point with its slacks satisfies every row of the initial tableau, and the Z row measures the internal objective |
| SimplexBound.SimplexBound | src/App.jsx:53-193 | the reported value is an upper bound of the objective when maximising, and a lower bound when minimising, over every non-negative point that satisfies all constraints read as `<=` |
| SimplexBound.ZSignAsWritten | src/App.jsx:181-183 | maximise x1 subject to x1 <= 4: the source reports x1 = 4 with Z = -4; the corrected value is 4 |
| SimplexOptimum.InitialBasis | src/App.jsx:74-93 | the slack columns are exact unit columns, one per constraint row |
| SimplexOptimum.PivotKeepsBasis | src/App.jsx:141-154 | after a pivot at (r, c) the basis, with c in place of row r's column, is again one of exact unit columns |
| SimplexOptimum.RunKeepsBasis | src/App.jsx:97-158 | the final tableau of a run has a basis |
| SimplexOptimum.ReadBasisIsBasis | src/App.jsx:161-179 | whenever a tableau has a basis, the corrected read-off finds one |
| SimplexOptimum.BasicSolutionBalanced | src/App.jsx:161-179 | the basic solution satisfies every constraint row, and the Z row's residual at it is minus the Z-row RHS |
| SimplexOptimum.PivotRestoresBalance | src/App.jsx:141-154 | a point satisfying every constraint row after a pivot satisfied them before, with the same Z residual |
| SimplexOptimum.RunRestoresBalance | src/App.jsx:97-158 | the same back through a whole run |
| SimplexOptimum.FinalBasicSolution | src/App.jsx:53-193 | the reported values with the slacks are the final basic solution, which satisfies the initial tableau |
| SimplexOptimum.SimplexFeasible | src/App.jsx:53-193 | when every RHS is non-negative, the corrected solution is non-negative, satisfies every constraint read as `<=`, and its objective value is the reported Z |
| SimplexOptimum.SimplexOptimal | src/App.jsx:53-193 | under the same condition no point of the region does better, so the solution is a maximum (or a minimum) |
| SimplexOptimum.DuplicateColumnAsWritten | src/App.jsx:161-179 | maximise 3x1 + 2x2 subject to x1 + x2 <= 4: the source reports (4, 4), which violates the constraint, with Z = -12 |
| SimplexOptimum.DuplicateColumnCorrected | src/App.jsx:161-179 | on the same problem the corrected read-off reports (4, 0) with Z = 12 |
| Graphical.Max0 | src/App.jsx:259 | `Math.max(0, x)` is at least 0 and at least x: x itself when x is non-negative, and 0 when x is negative |
| Graphical.XIntercept | src/App.jsx:225-232 | there is a point exactly when the x coefficient is non-zero and rhs/a >= 0; the point lies on the constraint line on the x axis |
| Graphical.YIntercept | src/App.jsx:235-242 | the same on the y axis |
| Graphical.Intersection | src/App.jsx:245-263 | there is a point exactly when the determinant exceeds 0.0001 in absolute value and both raw Cramer coordinates are at least -0.0001; the point is the Cramer solution with each coordinate clamped at 0 |
| Graphical.CrossingOnBothLines | src/App.jsx:254-257 | the Cramer solution lies on both constraint lines |
| Graphical.IntersectionNearCrossing | src/App.jsx:258-259 | clamping moves each coordinate by at most 0.0001 |
| Graphical.Candidates | src/App.jsx:219-263 | the candidates start with the origin, and every candidate is non-negative |
| Graphical.Satisfies | src/App.jsx:279-286 | the definition of the source's constraint test: `<=` and `>=` within 0.001, and every other operator as equality within 0.001 |
| Graphical.Feasible | src/App.jsx:278-287 | the definition: a point is feasible when it satisfies every constraint |
| Graphical.ToFixed4 | src/App.jsx:274 | `toFixed(4)` of a number: its sign, and the whole number of ten-thousandths nearest to its absolute value, ties rounded up |
| Graphical.KeyOf | src/App.jsx:274 | the definition of the key: the `toFixed(4)` renderings of both coordinates; SameKeyIsClose gives its meaning |
| Graphical.FeasibleOf | src/App.jsx:270-293 | the definition of the filter: a point is kept when no earlier point had its key and it is feasible, and its key is recorded in either case; FeasibleOfSound and FeasibleOfComplete state what it keeps |
| Graphical.SameKeyIsClose | src/App.jsx:274 | two points with the same `toFixed(4)` key differ by less than 0.0001 in each coordinate |
| Graphical.FeasibleOfSound | src/App.jsx:270-293 | every kept point is feasible and is the first candidate with its key; the kept points have pairwise different keys |
| Graphical.FeasibleOfComplete | src/App.jsx:270-293 | every feasible candidate that is the first with its key is kept |
| Graphical.FeasibleOfEmpty | src/App.jsx:270-302 | nothing is kept exactly when no first occurrence of a key is feasible |
| Graphical.BestOfOptimal | src/App.jsx:312-324 | the chosen point has a value no other point beats, and it beats every earlier point strictly |
| Graphical.BestOf | src/App.jsx:312-324 | no point is chosen exactly when there are no points; otherwise the chosen index is a point's index; BestOfOptimal proves it is the best |
| Graphical.GraphicalErrors | src/App.jsx:196-302 | the dimension error comes exactly when there are not two variables; the infeasibility error comes exactly when no candidate that is first with its key is feasible |
| Graphical.GraphicalOptimal | src/App.jsx:196-334 | a reported solution is a feasible, non-negative candidate; Z is its objective value; no feasible candidate that is the first with its key has a better value. A later feasible candidate whose key an earlier infeasible one already recorded is never compared; the reported point is a kept point, and every kept point before it has a strictly worse value |
| Graphical.Report | src/App.jsx:295-332 | the infeasibility error exactly when no point is kept; otherwise one of the kept points, with its objective value as Z |
| Graphical.GraphicalResult | src/App.jsx:196-334 | what solveGraphical reports: only the dimension or infeasibility error, never the iteration limit, and a solution has two values |
| Graphical.XInterceptPoints | src/App.jsx:225-232 | the loop returns XIntercepts |
| Graphical.YInterceptPoints | src/App.jsx:235-242 | the loop returns YIntercepts |
| Graphical.IntersectLines | src/App.jsx:247-261 | the source's determinant arithmetic returns Intersection |
| Graphical.PairPoints | src/App.jsx:246-262 | the inner loop returns the intersections of line i with each later line |
| Graphical.CandidatePoints | src/App.jsx:219-263 | the loops return Candidates |
| Graphical.FeasibleUnique | src/App.jsx:270-293 | the loop with its set of seen keys returns FeasibleOf |
| Graphical.BestPoint | src/App.jsx:312-324 | the loop returns BestOf, or -1 when there is no point |
| Graphical.ReportBest | src/App.jsx:297-332 | the infeasibility error when no point is kept, and otherwise the best point with its value |
| Graphical.SolveGraphical | src/App.jsx:196-334 | the method returns GraphicalResult |
| Solver.MethodOf | src/App.jsx:374-381 | "simplex", "dosfases" and "grafico" select the three methods, and any other name selects nothing |
| Solver.Solve | src/App.jsx:370-383 | the shown solution is cleared; an unknown method leaves it cleared, and otherwise it is the chosen method's result, with two phases running Simplex. The Simplex result is the corrected SimplexResult (both findings fixed), not the source's own output, which is SimplexResultAsWritten |
| Solver.SolutionSound | src/App.jsx:370-383 | the only errors are the three messages; a Simplex or two-phase solution bounds the objective over the `<=` region, and when every RHS is non-negative it lies in that region and reaches the reported Z; a graphical solution is a feasible point whose value is the reported Z |

## Left out

- The React state, the JSX form, `handleVariablesChange` and the other editors are not modelled. The
  form's invariant (one coefficient per variable) becomes the `FormWellFormed` precondition.
- The step log (`stepsLog`, `formatTableau`, `toFixed(2)` display) is not modelled, and neither are
  the two extra log lines of `solveTwoPhase`. Its copy of the stale `steps` array is also left out.
  Only its call of `solveSimplex` is modelled.
- `parseFloat` on text is not modelled: a form entry is the number it parses to, or `None`. `NaN`
  and `0` both become 0.
- IEEE-754 doubles are modelled as exact reals. Rounding, overflow, `Infinity` and `NaN` inside the
  arithmetic are not modelled. The running minima that start at `Infinity` / `-Infinity` become
  "no candidate yet".
- Simplex.Run: the source's `while (true)` has no bound and can cycle, because the rule is not
  anti-cycling. The model takes a pivot budget and reports `IterationLimit` when it is spent;
  RunFuelIrrelevant shows that the budget changes nothing else.
- SimplexBound.SimplexBound: the bound is proved for the region that the tableau encodes, where every
  constraint is read as `<=`, because the Simplex code ignores the operator. `>=` and `=` constraints
  are not honoured by the Simplex methods, and the model does not claim that they are.
- SimplexOptimum.SimplexFeasible: feasibility and attainment need every constraint RHS to be
  non-negative. With a negative RHS the starting basic solution lies outside the region, and the source
  has no first phase: its two-phase method runs plain Simplex.
- Tableau.FirstUnit: the corrected read-off compares columns with the unit vector exactly, because the
  model's arithmetic is exact. The source's 0.0001 tolerance is kept in the as-written read-off
  (`Tableau.ColumnValue`, `TableauArray.ExtractSolution`).
- `toFixed(4)` is modelled as rounding half away from zero of the exact real to four decimals, with
  the sign kept. The binary-to-decimal rounding of doubles and the exponent notation at 1e21 and above
  are not modelled.

## Findings

| source | as written | input that shows it | evidently intended | confidence | as-written member | corrected member |
|---|---|---|---|---|---|---|
| src/App.jsx:181-183 | Z is the negated Z-row RHS when maximising and the Z-row RHS when minimising | maximise x1 subject to x1 <= 4: x1 = 4 is reported with Z = -4 | Z is the objective value at the optimum: the Z-row RHS when maximising, its negation when minimising | high (not executed) | SimplexBound.ZSignAsWritten | SimplexBound.SimplexBound |
| src/App.jsx:161-179 | a variable counts as basic whenever its column is 1 in one constraint row and 0 in the others. The Z row is not looked at, and two variables can take the same row's RHS | maximise 3x1 + 2x2 subject to x1 + x2 <= 4: after the one pivot both columns are 1 in the only row, so (4, 4) is reported although x1 + x2 = 8 > 4 | each constraint row gives its RHS to exactly one basic variable, so the reported point is the basic solution and satisfies the constraints | high (not executed) | SimplexOptimum.DuplicateColumnAsWritten | SimplexOptimum.SimplexFeasible |
