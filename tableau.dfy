/** The Simplex tableau as a value: construction, the pivot-column and
    pivot-row selection rules, the Gauss-Jordan pivot, and reading the basic
    solution back (src/App.jsx:53-193). The in-place version over an
    `array2<real>` is in module TableauArray and is proved equal to these. */
module Tableau {
  import opened LpTypes

  type Matrix = seq<seq<real>>

  /** Absolute tolerance of the unit-column test. */
  const Tolerance: real := 0.0001

  /** A non-empty rectangular matrix: the last row is the Z row, the last
      column the right-hand side. */
  predicate IsTableau(T: Matrix) {
    |T| >= 1 && |T[0]| >= 1 && forall i :: 0 <= i < |T| ==> |T[i]| == |T[0]|
  }

  function Width(T: Matrix): nat
    requires |T| >= 1
  {
    |T[0]|
  }

  function ZRow(T: Matrix): seq<real>
    requires |T| >= 1
  {
    T[|T| - 1]
  }

  /** Right-hand side of row `i`. */
  function Rhs(T: Matrix, i: nat): real
    requires IsTableau(T) && i < |T|
  {
    T[i][Width(T) - 1]
  }

  // ---------------------------------------------------------------- building

  /** The cost row the engine minimises: the objective, negated when maximising. */
  function CostRow(p: Problem): (c: seq<real>)
    ensures |c| == |p.objective|
    ensures forall k :: 0 <= k < |c| ==> c[k] == if p.direction == Maximize then -p.objective[k] else p.objective[k]
  {
    if p.direction == Maximize then seq(|p.objective|, k requires 0 <= k < |p.objective| => -p.objective[k])
    else p.objective
  }

  function InitialEntry(p: Problem, i: nat, j: nat): real
    requires WellFormed(p) && i <= |p.constraints| && j <= p.numVars + |p.constraints|
  {
    var n, m := p.numVars, |p.constraints|;
    if i < m then
      if j < n then p.constraints[i].coefficients[j]
      else if j < n + m then (if j - n == i then 1.0 else 0.0)
      else p.constraints[i].rhs
    else if j < n then CostRow(p)[j]
    else 0.0
  }

  /** One row per constraint (its coefficients, an identity block of slack
      columns whatever the operator, its RHS), then the Z row. */
  function InitialTableau(p: Problem): (T: Matrix)
    requires WellFormed(p)
    ensures IsTableau(T) && |T| == |p.constraints| + 1 && Width(T) == p.numVars + |p.constraints| + 1
    ensures forall i, j :: 0 <= i < |p.constraints| && 0 <= j < p.numVars ==>
              T[i][j] == p.constraints[i].coefficients[j]
    ensures forall i, j :: 0 <= i < |p.constraints| && p.numVars <= j < p.numVars + |p.constraints| ==>
              T[i][j] == if j - p.numVars == i then 1.0 else 0.0
    ensures forall i :: 0 <= i < |p.constraints| ==> Rhs(T, i) == p.constraints[i].rhs
    ensures forall j :: 0 <= j < p.numVars ==>
              ZRow(T)[j] == if p.direction == Maximize then -p.objective[j] else p.objective[j]
    ensures forall j :: p.numVars <= j < Width(T) ==> ZRow(T)[j] == 0.0
  {
    var n, m := p.numVars, |p.constraints|;
    seq(m + 1, i requires 0 <= i <= m =>
      seq(n + m + 1, j requires 0 <= j <= n + m => InitialEntry(p, i, j)))
  }

  // ----------------------------------------------------------- pivot column

  /** The pivot column among `z[..k]`: the leftmost most negative entry, or -1
      when none is negative (strict `<` against a running minimum that starts
      at 0). */
  function ColumnScan(z: seq<real>, k: nat): (c: int)
    requires k <= |z|
    ensures -1 <= c < k
    ensures c >= 0 ==> z[c] < 0.0
  {
    if k == 0 then -1
    else
      var c := ColumnScan(z, k - 1);
      var minValue := if c == -1 then 0.0 else z[c];
      if z[k - 1] < minValue then k - 1 else c
  }

  /** ColumnScan finds no column exactly when no entry is negative, and
      otherwise the leftmost of the most negative entries. */
  lemma {:induction false} ColumnScanSpec(z: seq<real>, k: nat)
    requires k <= |z|
    ensures ColumnScan(z, k) == -1 <==> forall j :: 0 <= j < k ==> z[j] >= 0.0
    ensures ColumnScan(z, k) >= 0 ==> forall j :: 0 <= j < k ==> z[ColumnScan(z, k)] <= z[j]
    ensures ColumnScan(z, k) >= 0 ==> forall j :: 0 <= j < ColumnScan(z, k) ==> z[ColumnScan(z, k)] < z[j]
  {
    if k > 0 {
      ColumnScanSpec(z, k - 1);
    }
  }

  /** The pivot column of a tableau: scanned over the Z row without its RHS. */
  function PivotColumn(T: Matrix): (c: int)
    requires IsTableau(T)
    ensures -1 <= c < Width(T) - 1
    ensures c == -1 <==> forall j :: 0 <= j < Width(T) - 1 ==> ZRow(T)[j] >= 0.0
    ensures c >= 0 ==> ZRow(T)[c] < 0.0 && forall j :: 0 <= j < Width(T) - 1 ==> ZRow(T)[c] <= ZRow(T)[j]
    ensures c >= 0 ==> forall j :: 0 <= j < c ==> ZRow(T)[c] < ZRow(T)[j]
  {
    ColumnScanSpec(ZRow(T), Width(T) - 1);
    ColumnScan(ZRow(T), Width(T) - 1)
  }

  // -------------------------------------------------------------- pivot row

  function Ratio(T: Matrix, i: nat, c: nat): real
    requires IsTableau(T) && i < |T| && c < Width(T) && T[i][c] > 0.0
  {
    Rhs(T, i) / T[i][c]
  }

  /** The pivot row among rows `0..k`: the smallest RHS/entry ratio over
      entries that are strictly positive, first row on ties; -1 when no entry
      is positive. */
  function RowScan(T: Matrix, c: nat, k: nat): (r: int)
    requires IsTableau(T) && c < Width(T) && k < |T|
    ensures -1 <= r < k
    ensures r >= 0 ==> T[r][c] > 0.0
  {
    if k == 0 then -1
    else
      var r := RowScan(T, c, k - 1);
      if T[k - 1][c] > 0.0 && (r == -1 || Ratio(T, k - 1, c) < Ratio(T, r, c)) then k - 1 else r
  }

  /** RowScan finds no row exactly when no entry of column c is positive, and
      otherwise the first row of least ratio among those with a positive entry. */
  lemma {:induction false} RowScanSpec(T: Matrix, c: nat, k: nat)
    requires IsTableau(T) && c < Width(T) && k < |T|
    ensures RowScan(T, c, k) == -1 <==> forall i :: 0 <= i < k ==> T[i][c] <= 0.0
    ensures RowScan(T, c, k) >= 0 ==>
              forall i :: 0 <= i < k && T[i][c] > 0.0 ==> Ratio(T, RowScan(T, c, k), c) <= Ratio(T, i, c)
    ensures RowScan(T, c, k) >= 0 ==>
              forall i :: 0 <= i < RowScan(T, c, k) && T[i][c] > 0.0 ==> Ratio(T, RowScan(T, c, k), c) < Ratio(T, i, c)
  {
    if k > 0 {
      RowScanSpec(T, c, k - 1);
    }
  }

  /** The pivot row of a tableau: only constraint rows, never the Z row. */
  function PivotRow(T: Matrix, c: nat): (r: int)
    requires IsTableau(T) && c < Width(T)
    ensures -1 <= r < |T| - 1
    ensures r == -1 <==> forall i :: 0 <= i < |T| - 1 ==> T[i][c] <= 0.0
    ensures r >= 0 ==> T[r][c] > 0.0
    ensures r >= 0 ==> forall i :: 0 <= i < |T| - 1 && T[i][c] > 0.0 ==> Ratio(T, r, c) <= Ratio(T, i, c)
    ensures r >= 0 ==> forall i :: 0 <= i < r && T[i][c] > 0.0 ==> Ratio(T, r, c) < Ratio(T, i, c)
  {
    RowScanSpec(T, c, |T| - 1);
    RowScan(T, c, |T| - 1)
  }

  // ------------------------------------------------------------------ pivot

  function PivotEntry(T: Matrix, r: nat, c: nat, i: nat, j: nat): real
    requires IsTableau(T) && r < |T| && c < Width(T) && T[r][c] != 0.0
    requires i < |T| && j < Width(T)
  {
    if i == r then T[r][j] / T[r][c]
    else T[i][j] - T[i][c] * (T[r][j] / T[r][c])
  }

  /** One Gauss-Jordan step on the element at (r, c), RHS column included.
      The result has the same shape and its column c is the unit vector of
      row r, Z row included. */
  function Pivoted(T: Matrix, r: nat, c: nat): (T': Matrix)
    requires IsTableau(T) && r < |T| && c < Width(T) && T[r][c] != 0.0
    ensures IsTableau(T') && |T'| == |T| && Width(T') == Width(T)
    ensures T'[r][c] == 1.0
    ensures forall i :: 0 <= i < |T| && i != r ==> T'[i][c] == 0.0
  {
    PivotedRowsFacts(T, r, c);
    PivotedRows(T, r, c, |T|)
  }

  /** Row i of the pivoted tableau, entries 0..k-1. */
  function PivotedRow(T: Matrix, r: nat, c: nat, i: nat, k: nat): (row: seq<real>)
    requires IsTableau(T) && r < |T| && c < Width(T) && T[r][c] != 0.0
    requires i < |T| && k <= Width(T)
    ensures |row| == k
  {
    if k == 0 then [] else PivotedRow(T, r, c, i, k - 1) + [PivotEntry(T, r, c, i, k - 1)]
  }

  /** Rows 0..k-1 of the pivoted tableau. */
  function PivotedRows(T: Matrix, r: nat, c: nat, k: nat): (rows: Matrix)
    requires IsTableau(T) && r < |T| && c < Width(T) && T[r][c] != 0.0 && k <= |T|
    ensures |rows| == k
  {
    if k == 0 then [] else PivotedRows(T, r, c, k - 1) + [PivotedRow(T, r, c, k - 1, Width(T))]
  }

  lemma {:induction false} PivotedRowEntries(T: Matrix, r: nat, c: nat, i: nat, k: nat)
    requires IsTableau(T) && r < |T| && c < Width(T) && T[r][c] != 0.0
    requires i < |T| && k <= Width(T)
    ensures forall j :: 0 <= j < k ==> PivotedRow(T, r, c, i, k)[j] == PivotEntry(T, r, c, i, j)
  {
    if k > 0 {
      PivotedRowEntries(T, r, c, i, k - 1);
    }
  }

  lemma {:induction false} PivotedRowsEntries(T: Matrix, r: nat, c: nat, k: nat)
    requires IsTableau(T) && r < |T| && c < Width(T) && T[r][c] != 0.0 && k <= |T|
    ensures forall i :: 0 <= i < k ==> PivotedRows(T, r, c, k)[i] == PivotedRow(T, r, c, i, Width(T))
  {
    if k > 0 {
      PivotedRowsEntries(T, r, c, k - 1);
    }
  }

  lemma PivotedRowsFacts(T: Matrix, r: nat, c: nat)
    requires IsTableau(T) && r < |T| && c < Width(T) && T[r][c] != 0.0
    ensures forall i :: 0 <= i < |T| ==> |PivotedRows(T, r, c, |T|)[i]| == Width(T)
    ensures forall i, j :: 0 <= i < |T| && 0 <= j < Width(T) ==>
              PivotedRows(T, r, c, |T|)[i][j] == PivotEntry(T, r, c, i, j)
  {
    PivotedRowsEntries(T, r, c, |T|);
    forall i | 0 <= i < |T|
      ensures forall j :: 0 <= j < Width(T) ==> PivotedRows(T, r, c, |T|)[i][j] == PivotEntry(T, r, c, i, j)
    {
      PivotedRowEntries(T, r, c, i, Width(T));
    }
  }

  /** Every entry of the pivoted tableau. */
  lemma PivotedEntries(T: Matrix, r: nat, c: nat)
    requires IsTableau(T) && r < |T| && c < Width(T) && T[r][c] != 0.0
    ensures forall i, j :: 0 <= i < |T| && 0 <= j < Width(T) ==> Pivoted(T, r, c)[i][j] == PivotEntry(T, r, c, i, j)
  {
    PivotedRowsFacts(T, r, c);
  }

  /** A pivot loses no information: the old tableau is recovered from the new
      one (the pivot row times the pivot element; every other row plus its
      old pivot-column entry times the new pivot row). */
  lemma PivotInverse(T: Matrix, r: nat, c: nat, i: nat, j: nat)
    requires IsTableau(T) && r < |T| && c < Width(T) && T[r][c] != 0.0
    requires i < |T| && j < Width(T)
    ensures i == r ==> T[r][j] == T[r][c] * Pivoted(T, r, c)[r][j]
    ensures i != r ==> T[i][j] == Pivoted(T, r, c)[i][j] + T[i][c] * Pivoted(T, r, c)[r][j]
  {
    var T' := Pivoted(T, r, c);
    PivotedEntries(T, r, c);
    assert T'[r][j] == T[r][j] / T[r][c];
    assert T'[i][j] == PivotEntry(T, r, c, i, j);
  }

  /** Every constraint RHS is non-negative: the basic solution is feasible. */
  predicate RhsNonNegative(T: Matrix)
    requires IsTableau(T)
  {
    forall i :: 0 <= i < |T| - 1 ==> Rhs(T, i) >= 0.0
  }

  lemma RatioStep(rhs: real, a: real, rhsR: real, p: real)
    requires a > 0.0 && p > 0.0 && rhsR / p <= rhs / a
    ensures rhs - a * (rhsR / p) >= 0.0
  {
    assert a * (rhsR / p) <= a * (rhs / a);
  }

  lemma SignStep(a: real, s: real)
    requires a <= 0.0 && s >= 0.0
    ensures a * s <= 0.0
  {
  }

  /** One row of PivotKeepsRhsNonNegative. */
  lemma PivotKeepsRhsAt(T: Matrix, r: nat, c: nat, i: nat)
    requires IsTableau(T) && r < |T| && c < Width(T) && T[r][c] > 0.0 && i < |T|
    requires Rhs(T, r) >= 0.0 && Rhs(T, i) >= 0.0
    requires T[i][c] > 0.0 ==> Ratio(T, r, c) <= Ratio(T, i, c)
    ensures Rhs(Pivoted(T, r, c), i) >= 0.0
  {
    var W := Width(T);
    var step := Rhs(T, r) / T[r][c];
    PivotedEntries(T, r, c);
    assert Pivoted(T, r, c)[i][W - 1] == PivotEntry(T, r, c, i, W - 1);
    if i != r {
      var a := T[i][c];
      if a > 0.0 {
        RatioStep(Rhs(T, i), a, Rhs(T, r), T[r][c]);
      } else {
        SignStep(a, step);
      }
    }
  }

  /** The minimum-ratio test keeps the basic solution feasible. */
  lemma PivotKeepsRhsNonNegative(T: Matrix, c: nat)
    requires IsTableau(T) && c < Width(T) - 1 && RhsNonNegative(T)
    requires PivotRow(T, c) >= 0
    ensures RhsNonNegative(Pivoted(T, PivotRow(T, c), c))
  {
    var r := PivotRow(T, c);
    RowScanSpec(T, c, |T| - 1);
    forall i | 0 <= i < |T| - 1
      ensures Rhs(Pivoted(T, r, c), i) >= 0.0
    {
      PivotKeepsRhsAt(T, r, c, i);
    }
  }

  /** A pivot chosen by the two rules never lowers the Z-row RHS, the value
      of the maximised internal objective. */
  lemma PivotRaisesZRhs(T: Matrix, c: nat)
    requires IsTableau(T) && c < Width(T) - 1 && RhsNonNegative(T)
    requires ZRow(T)[c] < 0.0 && PivotRow(T, c) >= 0
    ensures Rhs(Pivoted(T, PivotRow(T, c), c), |T| - 1) >= Rhs(T, |T| - 1)
  {
    var r := PivotRow(T, c);
    var T' := Pivoted(T, r, c);
    var m := |T| - 1;
    var step := Rhs(T, r) / T[r][c];
    PivotedEntries(T, r, c);
    assert step >= 0.0;
    assert Rhs(T', m) == Rhs(T, m) - T[m][c] * step;
    SignStep(T[m][c], step);
  }

  // ------------------------------------------------------------- extraction

  /** Within the tolerance of 1. */
  predicate NearOne(x: real) {
    Abs(x - 1.0) < Tolerance
  }

  /** Not farther than the tolerance from 0. */
  predicate NearZero(x: real) {
    !(Abs(x) > Tolerance)
  }

  /** Column j reads as basic in row r: r is a constraint row within the
      tolerance of 1 and every other constraint row is within the tolerance of
      0 (the Z row is not looked at). */
  predicate BasicAt(T: Matrix, j: nat, r: nat)
    requires IsTableau(T) && j < Width(T)
    ensures BasicAt(T, j, r) ==> forall i :: 0 <= i < |T| - 1 && i != r ==> !NearOne(T[i][j])
  {
    && r < |T| - 1
    && NearOne(T[r][j])
    && forall i :: 0 <= i < |T| - 1 && i != r ==> NearZero(T[i][j])
  }

  /** The value read for variable j: the RHS of the row where its column is
      basic, 0 when it is basic nowhere. */
  ghost function ColumnValue(T: Matrix, j: nat): (x: real)
    requires IsTableau(T) && j < Width(T)
    ensures forall r :: 0 <= r < |T| - 1 && BasicAt(T, j, r) ==> x == Rhs(T, r)
    ensures (forall r :: 0 <= r < |T| - 1 ==> !BasicAt(T, j, r)) ==> x == 0.0
  {
    if exists r :: 0 <= r < |T| - 1 && BasicAt(T, j, r) then
      var r :| 0 <= r < |T| - 1 && BasicAt(T, j, r);
      Rhs(T, r)
    else
      0.0
  }

  ghost function Extracted(T: Matrix, n: nat): (x: seq<real>)
    requires IsTableau(T) && n <= Width(T)
    ensures |x| == n
    ensures forall j, r :: 0 <= j < n && 0 <= r < |T| - 1 && BasicAt(T, j, r) ==> x[j] == Rhs(T, r)
    ensures forall j :: 0 <= j < n && (forall r :: 0 <= r < |T| - 1 ==> !BasicAt(T, j, r)) ==> x[j] == 0.0
  {
    seq(n, j requires 0 <= j < n => ColumnValue(T, j))
  }

  // ------------------------------------------------- the corrected read-off

  /** Column j is exactly the unit vector of row r, Z row included. */
  predicate UnitColumn(T: Matrix, j: nat, r: nat)
    requires IsTableau(T) && j < Width(T)
  {
    forall i :: 0 <= i < |T| ==> T[i][j] == if i == r then 1.0 else 0.0
  }

  /** The first of columns 0..k-1 that is the unit vector of row r, or -1
      when there is none. */
  function FirstUnit(T: Matrix, r: nat, k: nat): (j: int)
    requires IsTableau(T) && k < Width(T)
    ensures -1 <= j < k
    ensures j >= 0 ==> UnitColumn(T, j, r)
    ensures j == -1 <==> forall j' :: 0 <= j' < k ==> !UnitColumn(T, j', r)
    ensures forall j' :: 0 <= j' < j ==> !UnitColumn(T, j', r)
  {
    if k == 0 then -1
    else
      var j := FirstUnit(T, r, k - 1);
      if j >= 0 then j else if UnitColumn(T, k - 1, r) then k - 1 else -1
  }

  /** For each constraint row, the column that holds its basic variable:
      the first column (RHS excluded) that is the row's unit vector. */
  function ReadBasis(T: Matrix): (b: seq<int>)
    requires IsTableau(T)
    ensures |b| == |T| - 1
    ensures forall r :: 0 <= r < |b| ==> -1 <= b[r] < Width(T) - 1
    ensures forall r :: 0 <= r < |b| && b[r] >= 0 ==> UnitColumn(T, b[r], r)
    ensures forall r, j :: 0 <= r < |b| && b[r] == -1 && 0 <= j < Width(T) - 1 ==> !UnitColumn(T, j, r)
  {
    seq(|T| - 1, r requires 0 <= r < |T| - 1 => FirstUnit(T, r, Width(T) - 1))
  }

  /** The last row whose basic variable is j, or -1 when j is not basic. */
  function BasisRow(b: seq<int>, j: int): (r: int)
    ensures -1 <= r < |b|
    ensures r >= 0 ==> b[r] == j
    ensures r == -1 <==> forall k :: 0 <= k < |b| ==> b[k] != j
  {
    if |b| == 0 then -1
    else if b[|b| - 1] == j then |b| - 1
    else BasisRow(b[..|b| - 1], j)
  }

  /** The value of column j in the basic solution of the rows 0..|b|-1 with
      basic variables b: the RHS of its row, or 0 when it is not basic. */
  function BasicValue(T: Matrix, b: seq<int>, j: int): real
    requires IsTableau(T) && |b| <= |T| - 1
  {
    var r := BasisRow(b, j);
    if r >= 0 then Rhs(T, r) else 0.0
  }

  /** The n original variables read off as the basic solution: each
      constraint row gives its RHS to the one column ReadBasis picks for it,
      every other variable is 0. */
  function BasicValues(T: Matrix, n: nat): (x: seq<real>)
    requires IsTableau(T)
    ensures |x| == n
    ensures forall j, r :: 0 <= j < n && 0 <= r < |T| - 1 && ReadBasis(T)[r] == j ==> x[j] == Rhs(T, r)
    ensures forall j :: 0 <= j < n && j < Width(T) - 1 && (forall r :: 0 <= r < |T| - 1 ==> !UnitColumn(T, j, r)) ==>
              x[j] == 0.0
    ensures forall j :: 0 <= j < n && (forall r :: 0 <= r < |T| - 1 ==> ReadBasis(T)[r] != j) ==> x[j] == 0.0
  {
    ReadBasisValues(T);
    seq(n, j requires 0 <= j < n => BasicValue(T, ReadBasis(T), j))
  }

  /** A column picked for a row is that row's unit vector, so no other row
      picks it: its value is that row's RHS, and a column no row has as its
      unit vector is picked by none. */
  lemma ReadBasisValues(T: Matrix)
    requires IsTableau(T)
    ensures forall j, r :: 0 <= j && 0 <= r < |T| - 1 && ReadBasis(T)[r] == j ==>
              BasicValue(T, ReadBasis(T), j) == Rhs(T, r)
    ensures forall j :: 0 <= j < Width(T) - 1 && (forall r :: 0 <= r < |T| - 1 ==> !UnitColumn(T, j, r)) ==>
              BasicValue(T, ReadBasis(T), j) == 0.0
    ensures forall j :: (forall r :: 0 <= r < |T| - 1 ==> ReadBasis(T)[r] != j) ==> BasicValue(T, ReadBasis(T), j) == 0.0
  {
    var b := ReadBasis(T);
    forall j | forall r :: 0 <= r < |b| ==> b[r] != j
      ensures BasicValue(T, b, j) == 0.0
    {
      assert BasisRow(b, j) == -1;
    }
    forall j, r | 0 <= j && 0 <= r < |T| - 1 && b[r] == j
      ensures BasicValue(T, b, j) == Rhs(T, r)
    {
      var r' := BasisRow(b, j);
      assert UnitColumn(T, j, r) && UnitColumn(T, j, r');
      assert T[r][j] == 1.0;
    }
  }

  // ----------------------------------------------------------- the Z value

  /** The objective value of the final tableau: the Z-row RHS when
      maximising, its negation when minimising. (The source reports the
      opposite sign; see ZValueAsWritten.) */
  function ObjectiveValue(T: Matrix, dir: Direction): real
    requires IsTableau(T)
  {
    if dir == Maximize then Rhs(T, |T| - 1) else -Rhs(T, |T| - 1)
  }

  /** The Z value as src/App.jsx:181-183 computes it: always the negation of
      ObjectiveValue. */
  function ZValueAsWritten(T: Matrix, dir: Direction): (z: real)
    requires IsTableau(T)
    ensures z == -ObjectiveValue(T, dir)
  {
    if dir == Maximize then -Rhs(T, |T| - 1) else Rhs(T, |T| - 1)
  }
}
