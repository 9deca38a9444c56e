/** The tableau engine as the source runs it: one rectangular array of reals
    built row by row and pivoted in place (src/App.jsx:66-179). Each method is
    proved equal to its value-level counterpart in module Tableau. */
module TableauArray {
  import opened LpTypes
  import opened Tableau

  /** Entries 0..k-1 of row i. */
  ghost function RowOf(t: array2<real>, i: nat, k: nat): (row: seq<real>)
    reads t
    requires i < t.Length0 && k <= t.Length1
    ensures |row| == k
  {
    if k == 0 then [] else RowOf(t, i, k - 1) + [t[i, k - 1]]
  }

  /** Rows 0..k-1. */
  ghost function RowsOf(t: array2<real>, k: nat): (rows: Matrix)
    reads t
    requires k <= t.Length0
    ensures |rows| == k
  {
    if k == 0 then [] else RowsOf(t, k - 1) + [RowOf(t, k - 1, t.Length1)]
  }

  lemma {:induction false} RowOfEntries(t: array2<real>, i: nat, k: nat)
    requires i < t.Length0 && k <= t.Length1
    ensures forall j :: 0 <= j < k ==> RowOf(t, i, k)[j] == t[i, j]
  {
    if k > 0 {
      RowOfEntries(t, i, k - 1);
    }
  }

  lemma {:induction false} RowsOfEntries(t: array2<real>, k: nat)
    requires k <= t.Length0
    ensures forall i :: 0 <= i < k ==> RowsOf(t, k)[i] == RowOf(t, i, t.Length1)
  {
    if k > 0 {
      RowsOfEntries(t, k - 1);
    }
  }

  lemma RowsOfFacts(t: array2<real>)
    ensures forall i :: 0 <= i < t.Length0 ==> |RowsOf(t, t.Length0)[i]| == t.Length1
    ensures forall i, j :: 0 <= i < t.Length0 && 0 <= j < t.Length1 ==> RowsOf(t, t.Length0)[i][j] == t[i, j]
  {
    RowsOfEntries(t, t.Length0);
    forall i | 0 <= i < t.Length0
      ensures forall j :: 0 <= j < t.Length1 ==> RowsOf(t, t.Length0)[i][j] == t[i, j]
    {
      RowOfEntries(t, i, t.Length1);
    }
  }

  /** The tableau's current contents as a value. */
  ghost function Snapshot(t: array2<real>): (T: Matrix)
    reads t
    ensures t.Length0 >= 1 && t.Length1 >= 1 ==> IsTableau(T)
    ensures |T| == t.Length0
    ensures forall i :: 0 <= i < |T| ==> |T[i]| == t.Length1
    ensures forall i, j :: 0 <= i < t.Length0 && 0 <= j < t.Length1 ==> T[i][j] == t[i, j]
  {
    RowsOfFacts(t);
    RowsOf(t, t.Length0)
  }

  lemma MatrixExtensionality(A: Matrix, B: Matrix)
    requires |A| == |B|
    requires forall i :: 0 <= i < |A| ==> |A[i]| == |B[i]|
    requires forall i, j :: 0 <= i < |A| && 0 <= j < |A[i]| ==> A[i][j] == B[i][j]
    ensures A == B
  {
    forall i | 0 <= i < |A|
      ensures A[i] == B[i]
    {
      assert forall j :: 0 <= j < |A[i]| ==> A[i][j] == B[i][j];
    }
  }

  /** Builds the initial tableau: the constraint rows in order, then the Z row. */
  method BuildTableau(p: Problem) returns (t: array2<real>)
    requires WellFormed(p)
    ensures fresh(t)
    ensures Snapshot(t) == InitialTableau(p)
  {
    var n, m := p.numVars, |p.constraints|;
    t := new real[m + 1, n + m + 1];
    var i := 0;
    while i < m
      invariant 0 <= i <= m
      invariant forall i', j' :: 0 <= i' < i && 0 <= j' <= n + m ==> t[i', j'] == InitialEntry(p, i', j')
    {
      var j := 0;
      while j < n
        invariant 0 <= j <= n
        invariant forall i', j' :: 0 <= i' < i && 0 <= j' <= n + m ==> t[i', j'] == InitialEntry(p, i', j')
        invariant forall j' :: 0 <= j' < j ==> t[i, j'] == InitialEntry(p, i, j')
      {
        t[i, j] := p.constraints[i].coefficients[j];
        j := j + 1;
      }
      // one slack column per constraint, whatever its operator
      var k := 0;
      while k < m
        invariant 0 <= k <= m
        invariant forall i', j' :: 0 <= i' < i && 0 <= j' <= n + m ==> t[i', j'] == InitialEntry(p, i', j')
        invariant forall j' :: 0 <= j' < n + k ==> t[i, j'] == InitialEntry(p, i, j')
      {
        t[i, n + k] := if k == i then 1.0 else 0.0;
        k := k + 1;
      }
      t[i, n + m] := p.constraints[i].rhs;
      i := i + 1;
    }
    var j := 0;
    while j <= n + m
      invariant 0 <= j <= n + m + 1
      invariant forall i', j' :: 0 <= i' < m && 0 <= j' <= n + m ==> t[i', j'] == InitialEntry(p, i', j')
      invariant forall j' :: 0 <= j' < j ==> t[m, j'] == InitialEntry(p, m, j')
    {
      t[m, j] := if j < n then (if p.direction == Maximize then -p.objective[j] else p.objective[j]) else 0.0;
      j := j + 1;
    }
    MatrixExtensionality(Snapshot(t), InitialTableau(p));
  }

  /** Scans the Z row, RHS excluded, for the most negative entry. */
  method FindPivotColumn(t: array2<real>) returns (pivotCol: int)
    requires t.Length0 >= 1 && t.Length1 >= 1
    ensures pivotCol == PivotColumn(Snapshot(t))
  {
    ghost var z := ZRow(Snapshot(t));
    var last := t.Length0 - 1;
    pivotCol := -1;
    var minValue := 0.0;
    var j := 0;
    while j < t.Length1 - 1
      invariant 0 <= j <= t.Length1 - 1
      invariant pivotCol == ColumnScan(z, j)
      invariant minValue == if pivotCol == -1 then 0.0 else z[pivotCol]
    {
      if t[last, j] < minValue {
        minValue := t[last, j];
        pivotCol := j;
      }
      j := j + 1;
    }
  }

  /** Minimum-ratio test over the constraint rows with a positive entry in
      column `pivotCol`; -1 stands for the source's "no row" (its running
      minimum is still Infinity). */
  method FindPivotRow(t: array2<real>, pivotCol: nat) returns (pivotRow: int)
    requires t.Length0 >= 1 && pivotCol < t.Length1
    ensures pivotRow == PivotRow(Snapshot(t), pivotCol)
  {
    ghost var T := Snapshot(t);
    var rhs := t.Length1 - 1;
    pivotRow := -1;
    var minRatio := 0.0;
    var i := 0;
    while i < t.Length0 - 1
      invariant 0 <= i <= t.Length0 - 1
      invariant pivotRow == RowScan(T, pivotCol, i)
      invariant pivotRow != -1 ==> minRatio == Ratio(T, pivotRow, pivotCol)
    {
      assert t[i, pivotCol] == T[i][pivotCol] && t[i, rhs] == Rhs(T, i);
      if t[i, pivotCol] > 0.0 {
        var ratio := t[i, rhs] / t[i, pivotCol];
        if pivotRow == -1 || ratio < minRatio {
          minRatio := ratio;
          pivotRow := i;
        }
      }
      i := i + 1;
    }
  }

  /** Divides row r by `divisor` in place (src/App.jsx:143-145). */
  method DivideRow(t: array2<real>, r: nat, divisor: real)
    requires r < t.Length0 && divisor != 0.0
    modifies t
    ensures forall i', j' :: 0 <= i' < t.Length0 && 0 <= j' < t.Length1 ==>
              t[i', j'] == if i' == r then old(t[i', j']) / divisor else old(t[i', j'])
  {
    var j := 0;
    while j < t.Length1
      invariant 0 <= j <= t.Length1
      invariant forall i', j' :: 0 <= i' < t.Length0 && 0 <= j' < t.Length1 ==>
                  t[i', j'] == if i' == r && j' < j then old(t[i', j']) / divisor else old(t[i', j'])
    {
      t[r, j] := t[r, j] / divisor;
      j := j + 1;
    }
  }

  /** Subtracts `factor` times row r from row i in place (src/App.jsx:149-152). */
  method SubtractRow(t: array2<real>, i: nat, r: nat, factor: real)
    requires i < t.Length0 && r < t.Length0 && i != r
    modifies t
    ensures forall i', j' :: 0 <= i' < t.Length0 && 0 <= j' < t.Length1 ==>
              t[i', j'] == if i' == i then old(t[i', j']) - factor * old(t[r, j']) else old(t[i', j'])
  {
    var j := 0;
    while j < t.Length1
      invariant 0 <= j <= t.Length1
      invariant forall i', j' :: 0 <= i' < t.Length0 && 0 <= j' < t.Length1 ==>
                  t[i', j'] == if i' == i && j' < j then old(t[i', j']) - factor * old(t[r, j']) else old(t[i', j'])
    {
      t[i, j] := t[i, j] - factor * t[r, j];
      j := j + 1;
    }
  }

  /** The Gauss-Jordan step in place: the pivot row is divided by the pivot
      element, then each other row loses its pivot-column entry times the
      divided pivot row. */
  method Pivot(t: array2<real>, pivotRow: nat, pivotCol: nat)
    requires pivotRow < t.Length0 && pivotCol < t.Length1 && t[pivotRow, pivotCol] != 0.0
    modifies t
    ensures Snapshot(t) == Pivoted(old(Snapshot(t)), pivotRow, pivotCol)
  {
    ghost var T := Snapshot(t);
    var r, c := pivotRow, pivotCol;
    var pivotElement := t[r, c];
    DivideRow(t, r, pivotElement);
    var i := 0;
    while i < t.Length0
      invariant 0 <= i <= t.Length0
      invariant forall i', j' :: 0 <= i' < t.Length0 && 0 <= j' < t.Length1 ==>
                  t[i', j'] == if i' == r || i' < i then PivotEntry(T, r, c, i', j') else T[i'][j']
    {
      if i != r {
        var factor := t[i, c];
        SubtractRow(t, i, r, factor);
      }
      i := i + 1;
    }
    SnapshotIsPivoted(t, T, r, c);
  }

  lemma SnapshotIsPivoted(t: array2<real>, T: Matrix, r: nat, c: nat)
    requires IsTableau(T) && r < |T| && c < Width(T) && T[r][c] != 0.0
    requires t.Length0 == |T| && t.Length1 == Width(T)
    requires forall i, j :: 0 <= i < t.Length0 && 0 <= j < t.Length1 ==> t[i, j] == PivotEntry(T, r, c, i, j)
    ensures Snapshot(t) == Pivoted(T, r, c)
  {
    PivotedEntries(T, r, c);
    MatrixExtensionality(Snapshot(t), Pivoted(T, r, c));
  }

  /** Reads the original variables off the final tableau: variable j takes
      the RHS of the one constraint row where its column is 1 within the
      tolerance, provided every other constraint row is 0 within the
      tolerance; otherwise it stays 0. */
  method ExtractSolution(t: array2<real>, numVars: nat) returns (values: seq<real>)
    requires t.Length0 >= 1 && numVars < t.Length1
    ensures values == Extracted(Snapshot(t), numVars)
  {
    ghost var T := Snapshot(t);
    var result := new real[numVars](_ => 0.0);
    var j := 0;
    while j < numVars
      invariant 0 <= j <= numVars
      invariant forall j' :: 0 <= j' < j ==> result[j'] == ColumnValue(T, j')
      invariant forall j' :: j <= j' < numVars ==> result[j'] == 0.0
    {
      var isBasic := true;
      var basicRow := -1;
      var count := 0;
      ghost var otherRow := -1;
      var i := 0;
      while i < t.Length0 - 1
        invariant 0 <= i <= t.Length0 - 1
        invariant isBasic
        invariant forall i' :: 0 <= i' < i ==> NearOne(t[i', j]) || NearZero(t[i', j])
        invariant count == 0 <==> basicRow == -1
        invariant count == 0 ==> forall i' :: 0 <= i' < i ==> !NearOne(t[i', j])
        invariant count >= 1 ==> 0 <= basicRow < i && NearOne(t[basicRow, j])
        invariant count == 1 ==> forall i' :: 0 <= i' < i && i' != basicRow ==> !NearOne(t[i', j])
        invariant count >= 2 ==> 0 <= otherRow < i && otherRow != basicRow && NearOne(t[otherRow, j])
      {
        if Abs(t[i, j] - 1.0) < Tolerance {
          count := count + 1;
          otherRow := basicRow;
          basicRow := i;
        } else if Abs(t[i, j]) > Tolerance {
          isBasic := false;
          break;
        }
        i := i + 1;
      }
      if isBasic && count == 1 && basicRow != -1 {
        assert BasicAt(T, j, basicRow);
        result[j] := t[basicRow, t.Length1 - 1];
      } else {
        assert forall r :: 0 <= r < |T| - 1 ==> !BasicAt(T, j, r);
      }
      j := j + 1;
    }
    values := result[..];
  }

  /** Whether column j is exactly the unit vector of row r, Z row included. */
  method IsUnitColumn(t: array2<real>, j: nat, r: nat) returns (unit: bool)
    requires t.Length0 >= 1 && j < t.Length1
    ensures unit == UnitColumn(Snapshot(t), j, r)
  {
    ghost var T := Snapshot(t);
    var i := 0;
    while i < t.Length0
      invariant 0 <= i <= t.Length0
      invariant forall i' :: 0 <= i' < i ==> T[i'][j] == if i' == r then 1.0 else 0.0
    {
      if t[i, j] != (if i == r then 1.0 else 0.0) {
        return false;
      }
      i := i + 1;
    }
    return true;
  }

  /** The first column, RHS excluded, that is the unit vector of row r. */
  method FindUnitColumn(t: array2<real>, r: nat) returns (col: int)
    requires t.Length0 >= 1 && t.Length1 >= 1
    ensures col == FirstUnit(Snapshot(t), r, t.Length1 - 1)
  {
    ghost var T := Snapshot(t);
    var j := 0;
    while j < t.Length1 - 1
      invariant 0 <= j <= t.Length1 - 1
      invariant FirstUnit(T, r, j) == -1
    {
      var unit := IsUnitColumn(t, j, r);
      if unit {
        assert FirstUnit(T, r, j + 1) == j;
        ghost var f := FirstUnit(T, r, t.Length1 - 1);
        assert f != -1 && !(f < j) && !(j < f);
        return j;
      }
      j := j + 1;
    }
    return -1;
  }

  /** The corrected read-off: every constraint row gives its RHS to the
      original variable whose column is the row's unit vector (the first
      such column), and every other variable stays 0. */
  method ExtractBasic(t: array2<real>, numVars: nat) returns (values: seq<real>)
    requires t.Length0 >= 1 && numVars < t.Length1
    ensures values == BasicValues(Snapshot(t), numVars)
  {
    ghost var T := Snapshot(t);
    ghost var b := ReadBasis(T);
    var result := new real[numVars](_ => 0.0);
    var r := 0;
    while r < t.Length0 - 1
      invariant 0 <= r <= t.Length0 - 1
      invariant forall j :: 0 <= j < numVars ==> result[j] == BasicValue(T, b[..r], j)
    {
      var col := FindUnitColumn(t, r);
      assert b[..r + 1] == b[..r] + [col];
      if 0 <= col < numVars {
        result[col] := t[r, t.Length1 - 1];
      }
      forall j | 0 <= j < numVars
        ensures result[j] == BasicValue(T, b[..r + 1], j)
      {
        assert (b[..r + 1])[..r] == b[..r];
      }
      r := r + 1;
    }
    assert b[..t.Length0 - 1] == b;
    values := result[..];
  }
}
