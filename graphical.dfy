/** The graphical method for two variables (src/App.jsx:196-334): collect
    candidate corner points (the origin, the axis intercepts of every
    constraint line, the pairwise intersections of constraint lines), drop
    repeats by their 4-decimal rendering, keep the feasible ones within a
    tolerance, and pick the first best objective value. */
module Graphical {
  import opened LpTypes

  datatype Point = Point(x: real, y: real)

  /** Pairs of lines whose determinant is not above this are parallel. */
  const DetTolerance: real := 0.0001
  /** Slack with which a constraint still counts as satisfied. */
  const FeasTolerance: real := 0.001

  function Max0(v: real): (r: real)
    ensures r >= 0.0 && r >= v
    ensures v >= 0.0 ==> r == v
    ensures v < 0.0 ==> r == 0.0
  {
    if v > 0.0 then v else 0.0
  }

  /** `parseFloat(objective[k]) || 0`. */
  function ObjCoef(p: Problem, k: nat): real {
    if k < |p.objective| then p.objective[k] else 0.0
  }

  /** The objective c1*x + c2*y at a point. */
  function Value(c1: real, c2: real, pt: Point): real {
    c1 * pt.x + c2 * pt.y
  }

  /** Left-hand side a*x + b*y of a constraint at a point. */
  function LhsAt(c: Constraint, pt: Point): real {
    Coef(c, 0) * pt.x + Coef(c, 1) * pt.y
  }

  function Opt(o: Option<Point>): (s: seq<Point>)
    ensures o.None? ==> s == []
    ensures o.Some? ==> s == [o.value]
  {
    if o.Some? then [o.value] else []
  }

  predicate NonNegative(pts: seq<Point>) {
    forall k :: 0 <= k < |pts| ==> pts[k].x >= 0.0 && pts[k].y >= 0.0
  }

  // ------------------------------------------------------------- candidates

  /** Where the constraint's line meets the x axis, when it does at x >= 0. */
  function XIntercept(c: Constraint): (o: Option<Point>)
    ensures o.Some? <==> Coef(c, 0) != 0.0 && c.rhs / Coef(c, 0) >= 0.0
    ensures o.Some? ==> o.value.y == 0.0 && o.value.x >= 0.0 && LhsAt(c, o.value) == c.rhs
  {
    var a := Coef(c, 0);
    if a != 0.0 && c.rhs / a >= 0.0 then Some(Point(c.rhs / a, 0.0)) else None
  }

  /** Where the constraint's line meets the y axis, when it does at y >= 0. */
  function YIntercept(c: Constraint): (o: Option<Point>)
    ensures o.Some? <==> Coef(c, 1) != 0.0 && c.rhs / Coef(c, 1) >= 0.0
    ensures o.Some? ==> o.value.x == 0.0 && o.value.y >= 0.0 && LhsAt(c, o.value) == c.rhs
  {
    var b := Coef(c, 1);
    if b != 0.0 && c.rhs / b >= 0.0 then Some(Point(0.0, c.rhs / b)) else None
  }

  function Det(ci: Constraint, cj: Constraint): real {
    Coef(ci, 0) * Coef(cj, 1) - Coef(cj, 0) * Coef(ci, 1)
  }

  /** The crossing point of two lines by Cramer's rule, before clamping. */
  function Crossing(ci: Constraint, cj: Constraint): Point
    requires Det(ci, cj) != 0.0
  {
    var d := Det(ci, cj);
    Point((ci.rhs * Coef(cj, 1) - cj.rhs * Coef(ci, 1)) / d,
          (Coef(ci, 0) * cj.rhs - Coef(cj, 0) * ci.rhs) / d)
  }

  /** The crossing of two non-parallel lines, kept when neither coordinate
      is below -0.0001, with each coordinate clamped at 0. */
  function Intersection(ci: Constraint, cj: Constraint): (o: Option<Point>)
    ensures o.Some? <==>
              && Abs(Det(ci, cj)) > DetTolerance
              && Crossing(ci, cj).x >= -0.0001 && Crossing(ci, cj).y >= -0.0001
    ensures o.Some? ==> o.value.x >= 0.0 && o.value.y >= 0.0
    ensures o.Some? ==> o.value == Point(Max0(Crossing(ci, cj).x), Max0(Crossing(ci, cj).y))
  {
    if Abs(Det(ci, cj)) > DetTolerance then
      var q := Crossing(ci, cj);
      if q.x >= -0.0001 && q.y >= -0.0001 then Some(Point(Max0(q.x), Max0(q.y))) else None
    else None
  }

  lemma CrossingIs(ci: Constraint, cj: Constraint, x: real, y: real)
    requires Det(ci, cj) != 0.0
    requires x == (ci.rhs * Coef(cj, 1) - cj.rhs * Coef(ci, 1)) / Det(ci, cj)
    requires y == (Coef(ci, 0) * cj.rhs - Coef(cj, 0) * ci.rhs) / Det(ci, cj)
    ensures Crossing(ci, cj) == Point(x, y)
  {
  }

  /** The crossing lies on both lines. */
  lemma CrossingOnBothLines(ci: Constraint, cj: Constraint)
    requires Det(ci, cj) != 0.0
    ensures LhsAt(ci, Crossing(ci, cj)) == ci.rhs
    ensures LhsAt(cj, Crossing(ci, cj)) == cj.rhs
  {
    var a1, b1, c1 := Coef(ci, 0), Coef(ci, 1), ci.rhs;
    var a2, b2, c2 := Coef(cj, 0), Coef(cj, 1), cj.rhs;
    var d := Det(ci, cj);
    var q := Crossing(ci, cj);
    assert q.x * d == c1 * b2 - c2 * b1;
    assert q.y * d == a1 * c2 - a2 * c1;
    assert (a1 * q.x + b1 * q.y) * d == c1 * d;
    assert (a2 * q.x + b2 * q.y) * d == c2 * d;
  }

  /** The reported intersection lies on both lines up to the clamping, which
      moves each coordinate by at most 0.0001. */
  lemma IntersectionNearCrossing(ci: Constraint, cj: Constraint)
    requires Intersection(ci, cj).Some?
    ensures Det(ci, cj) != 0.0
    ensures LhsAt(ci, Crossing(ci, cj)) == ci.rhs && LhsAt(cj, Crossing(ci, cj)) == cj.rhs
    ensures 0.0 <= Intersection(ci, cj).value.x - Crossing(ci, cj).x <= 0.0001
    ensures 0.0 <= Intersection(ci, cj).value.y - Crossing(ci, cj).y <= 0.0001
  {
    CrossingOnBothLines(ci, cj);
  }

  /** The x-axis intercepts of cs, in order. */
  function XIntercepts(cs: seq<Constraint>): (pts: seq<Point>)
    ensures NonNegative(pts)
  {
    if |cs| == 0 then [] else XIntercepts(cs[..|cs| - 1]) + Opt(XIntercept(cs[|cs| - 1]))
  }

  /** The y-axis intercepts of cs, in order. */
  function YIntercepts(cs: seq<Constraint>): (pts: seq<Point>)
    ensures NonNegative(pts)
  {
    if |cs| == 0 then [] else YIntercepts(cs[..|cs| - 1]) + Opt(YIntercept(cs[|cs| - 1]))
  }

  /** Intersections of line i with lines i+1..k-1, in order of j. */
  function PairsWith(cs: seq<Constraint>, i: nat, k: nat): (pts: seq<Point>)
    requires i < |cs| && k <= |cs|
    ensures NonNegative(pts)
  {
    if k <= i + 1 then [] else PairsWith(cs, i, k - 1) + Opt(Intersection(cs[i], cs[k - 1]))
  }

  /** Intersections of every pair (i, j), i < j, i < k, in the order of the
      nested loops. */
  function AllPairs(cs: seq<Constraint>, k: nat): (pts: seq<Point>)
    requires k <= |cs|
    ensures NonNegative(pts)
  {
    if k == 0 then [] else AllPairs(cs, k - 1) + PairsWith(cs, k - 1, |cs|)
  }

  /** Every candidate point, in the order the source pushes them. */
  function Candidates(cs: seq<Constraint>): (pts: seq<Point>)
    ensures |pts| >= 1 && pts[0] == Point(0.0, 0.0)
    ensures NonNegative(pts)
  {
    [Point(0.0, 0.0)] + XIntercepts(cs) + YIntercepts(cs) + AllPairs(cs, |cs|)
  }

  // ------------------------------------------------------------ feasibility

  /** The constraint holds at the point within the tolerance; every operator
      other than `<=` and `>=` is read as equality. */
  predicate Satisfies(c: Constraint, pt: Point) {
    var value := LhsAt(c, pt);
    match c.relation
    case Le => value <= c.rhs + FeasTolerance
    case Ge => value >= c.rhs - FeasTolerance
    case Eq => Abs(value - c.rhs) < FeasTolerance
  }

  predicate Feasible(cs: seq<Constraint>, pt: Point) {
    forall i :: 0 <= i < |cs| ==> Satisfies(cs[i], pt)
  }

  // ---------------------------------------------------------- deduplication

  /** `v.toFixed(4)`: the sign and the nearest multiple of 0.0001 to |v|,
      ties rounded up. */
  datatype Fixed = Fixed(negative: bool, units: int)

  datatype Key = Key(x: Fixed, y: Fixed)

  function ToFixed4(v: real): (f: Fixed)
    ensures f.negative <==> v < 0.0
    ensures f.units >= 0
    ensures f.units as real - 0.5 <= Abs(v) * 10000.0 < f.units as real + 0.5
  {
    Fixed(v < 0.0, (Abs(v) * 10000.0 + 0.5).Floor)
  }

  function KeyOf(pt: Point): Key {
    Key(ToFixed4(pt.x), ToFixed4(pt.y))
  }

  /** Two numbers with the same 4-decimal rendering differ by less than 0.0001. */
  lemma SameFixedIsClose(u: real, v: real)
    requires ToFixed4(u) == ToFixed4(v)
    ensures Abs(u - v) < 0.0001
  {
    var n := ToFixed4(u).units;
    assert n as real <= Abs(u) * 10000.0 + 0.5 < n as real + 1.0;
    assert n as real <= Abs(v) * 10000.0 + 0.5 < n as real + 1.0;
  }

  /** Points the source treats as repeats are within 0.0001 in each coordinate. */
  lemma SameKeyIsClose(p: Point, q: Point)
    requires KeyOf(p) == KeyOf(q)
    ensures Abs(p.x - q.x) < 0.0001 && Abs(p.y - q.y) < 0.0001
  {
    SameFixedIsClose(p.x, q.x);
    SameFixedIsClose(p.y, q.y);
  }

  function KeysOf(pts: seq<Point>): set<Key> {
    set k | 0 <= k < |pts| :: KeyOf(pts[k])
  }

  /** pts[k] is the first point with its key. */
  predicate FirstOfKey(pts: seq<Point>, k: nat)
    requires k < |pts|
  {
    forall j :: 0 <= j < k ==> KeyOf(pts[j]) != KeyOf(pts[k])
  }

  /** The points kept by the feasibility pass: each point whose key was not
      seen before (seen or not, its key is then recorded) and that is
      feasible. */
  function FeasibleOf(cs: seq<Constraint>, pts: seq<Point>): (kept: seq<Point>)
  {
    if |pts| == 0 then []
    else
      var prefix, pt := pts[..|pts| - 1], pts[|pts| - 1];
      FeasibleOf(cs, prefix) + (if KeyOf(pt) !in KeysOf(prefix) && Feasible(cs, pt) then [pt] else [])
  }

  lemma KeysOfSnoc(pts: seq<Point>, pt: Point)
    ensures KeysOf(pts + [pt]) == KeysOf(pts) + {KeyOf(pt)}
  {
    var s := pts + [pt];
    assert forall k :: 0 <= k < |pts| ==> s[k] == pts[k];
    assert s[|pts|] == pt;
  }

  /** q occurs in pts at an index where its key is seen for the first time. */
  predicate KeptFrom(pts: seq<Point>, q: Point) {
    exists k :: 0 <= k < |pts| && pts[k] == q && FirstOfKey(pts, k)
  }

  /** A first occurrence stays one when points are appended. */
  lemma FirstOfKeyGrows(prefix: seq<Point>, pt: Point, k: nat)
    requires k < |prefix| && FirstOfKey(prefix, k)
    ensures (prefix + [pt])[k] == prefix[k] && FirstOfKey(prefix + [pt], k)
  {
    var pts := prefix + [pt];
    forall j | 0 <= j < k
      ensures KeyOf(pts[j]) != KeyOf(pts[k])
    {
      assert pts[j] == prefix[j];
    }
  }

  /** A point whose key is new is a first occurrence. */
  lemma FirstOfKeyNew(prefix: seq<Point>, pt: Point)
    requires KeyOf(pt) !in KeysOf(prefix)
    ensures FirstOfKey(prefix + [pt], |prefix|)
  {
    var pts := prefix + [pt];
    forall j | 0 <= j < |prefix|
      ensures KeyOf(pts[j]) != KeyOf(pt)
    {
      assert pts[j] == prefix[j];
      assert KeyOf(prefix[j]) in KeysOf(prefix);
    }
  }

  /** Every kept point is feasible and is the first point of the input with
      its key, and the kept points have pairwise different keys. */
  lemma {:induction false} FeasibleOfSound(cs: seq<Constraint>, pts: seq<Point>)
    ensures forall q :: q in FeasibleOf(cs, pts) ==> Feasible(cs, q) && KeptFrom(pts, q)
    ensures forall a, b :: 0 <= a < b < |FeasibleOf(cs, pts)| ==> KeyOf(FeasibleOf(cs, pts)[a]) != KeyOf(FeasibleOf(cs, pts)[b])
    ensures forall q :: q in FeasibleOf(cs, pts) ==> KeyOf(q) in KeysOf(pts)
  {
    if |pts| > 0 {
      var prefix, pt := pts[..|pts| - 1], pts[|pts| - 1];
      assert pts == prefix + [pt];
      FeasibleOfSound(cs, prefix);
      KeysOfSnoc(prefix, pt);
      forall q | q in FeasibleOf(cs, prefix)
        ensures KeptFrom(pts, q)
      {
        var k :| 0 <= k < |prefix| && prefix[k] == q && FirstOfKey(prefix, k);
        FirstOfKeyGrows(prefix, pt, k);
      }
      if KeyOf(pt) !in KeysOf(prefix) {
        FirstOfKeyNew(prefix, pt);
      }
    }
  }

  /** No point is kept exactly when no first occurrence of a key is feasible. */
  lemma FeasibleOfEmpty(cs: seq<Constraint>, pts: seq<Point>)
    ensures |FeasibleOf(cs, pts)| == 0 <==>
              forall k :: 0 <= k < |pts| && FirstOfKey(pts, k) ==> !Feasible(cs, pts[k])
  {
    var kept := FeasibleOf(cs, pts);
    FeasibleOfSound(cs, pts);
    forall k | 0 <= k < |pts| && FirstOfKey(pts, k) && Feasible(cs, pts[k])
      ensures pts[k] in kept
    {
      FeasibleOfComplete(cs, pts, k);
    }
    if |kept| > 0 {
      assert kept[0] in kept;
    }
  }

  /** Every feasible point that is the first with its key is kept. */
  lemma {:induction false} FeasibleOfComplete(cs: seq<Constraint>, pts: seq<Point>, k: nat)
    requires k < |pts| && FirstOfKey(pts, k) && Feasible(cs, pts[k])
    ensures pts[k] in FeasibleOf(cs, pts)
  {
    var prefix, pt := pts[..|pts| - 1], pts[|pts| - 1];
    if k == |pts| - 1 {
      forall j | 0 <= j < |prefix|
        ensures KeyOf(prefix[j]) != KeyOf(pt)
      {
        assert prefix[j] == pts[j];
      }
    } else {
      assert prefix[k] == pts[k];
      assert FirstOfKey(prefix, k) by {
        forall j | 0 <= j < k ensures KeyOf(prefix[j]) != KeyOf(prefix[k]) {
          assert prefix[j] == pts[j];
        }
      }
      FeasibleOfComplete(cs, prefix, k);
    }
  }

  // -------------------------------------------------------------- the best

  /** `z > bestValue` when maximising, `z < bestValue` when minimising. */
  predicate Better(dir: Direction, z: real, w: real) {
    if dir == Maximize then z > w else z < w
  }

  /** Index of the point the scan keeps: the first point strictly better
      than every earlier one. The source's initial best of -Infinity or
      Infinity is beaten by any value, which is the `None` case here. */
  function BestOf(c1: real, c2: real, dir: Direction, pts: seq<Point>): (b: Option<nat>)
    ensures b.None? <==> |pts| == 0
    ensures b.Some? ==> b.value < |pts|
  {
    if |pts| == 0 then None
    else
      var b := BestOf(c1, c2, dir, pts[..|pts| - 1]);
      var z := Value(c1, c2, pts[|pts| - 1]);
      if b.None? || Better(dir, z, Value(c1, c2, pts[b.value])) then Some(|pts| - 1) else b
  }

  /** The kept point is optimal among all points (greatest value when
      maximising, least when minimising) and strictly better than every
      point before it. */
  lemma {:induction false} BestOfOptimal(c1: real, c2: real, dir: Direction, pts: seq<Point>)
    requires |pts| > 0
    ensures forall k :: 0 <= k < |pts| ==>
              !Better(dir, Value(c1, c2, pts[k]), Value(c1, c2, pts[BestOf(c1, c2, dir, pts).value]))
    ensures forall k :: 0 <= k < BestOf(c1, c2, dir, pts).value ==>
              Better(dir, Value(c1, c2, pts[BestOf(c1, c2, dir, pts).value]), Value(c1, c2, pts[k]))
  {
    var prefix := pts[..|pts| - 1];
    if |prefix| > 0 {
      BestOfOptimal(c1, c2, dir, prefix);
      var b, bp := BestOf(c1, c2, dir, pts).value, BestOf(c1, c2, dir, prefix).value;
      assert pts[bp] == prefix[bp];
      forall k | 0 <= k < |pts|
        ensures !Better(dir, Value(c1, c2, pts[k]), Value(c1, c2, pts[b]))
      {
        if k < |prefix| {
          assert pts[k] == prefix[k];
        }
      }
      forall k | 0 <= k < b
        ensures Better(dir, Value(c1, c2, pts[b]), Value(c1, c2, pts[k]))
      {
        assert pts[k] == prefix[k];
      }
    }
  }

  // ------------------------------------------------------------ the method

  /** What solveGraphical reports for p. */
  function GraphicalResult(p: Problem): (r: Result)
    ensures r.Error? ==> r.message == DimensionMessage || r.message == InfeasibleMessage
    ensures r.Solution? ==> p.numVars == 2 && |r.values| == 2
    ensures !r.IterationLimit?
  {
    if p.numVars != 2 then Error(DimensionMessage)
    else Report(p, FeasibleOf(p.constraints, Candidates(p.constraints)))
  }

  /** The answer once the feasible points are known: none is an error,
      otherwise the kept best point with its objective value. */
  function Report(p: Problem, feasible: seq<Point>): (r: Result)
    ensures r.Error? <==> |feasible| == 0
    ensures r.Error? ==> r.message == InfeasibleMessage
    ensures r.Solution? ==> |r.values| == 2 && Point(r.values[0], r.values[1]) in feasible
    ensures r.Solution? ==> r.z == Value(ObjCoef(p, 0), ObjCoef(p, 1), Point(r.values[0], r.values[1]))
    ensures !r.IterationLimit?
  {
    var c1, c2 := ObjCoef(p, 0), ObjCoef(p, 1);
    match BestOf(c1, c2, p.direction, feasible)
    case None => Error(InfeasibleMessage)
    case Some(b) => Solution([feasible[b].x, feasible[b].y], Value(c1, c2, feasible[b]))
  }

  /** The graphical method only answers for two variables, and reports "no
      feasible solution" exactly when no candidate point that is the first
      with its key satisfies every constraint; the origin is always such a
      candidate. */
  lemma GraphicalErrors(p: Problem)
    ensures p.numVars != 2 <==> GraphicalResult(p) == Error(DimensionMessage)
    ensures GraphicalResult(p) == Error(InfeasibleMessage) <==>
              p.numVars == 2 &&
              forall k :: 0 <= k < |Candidates(p.constraints)| && FirstOfKey(Candidates(p.constraints), k) ==>
                !Feasible(p.constraints, Candidates(p.constraints)[k])
    ensures GraphicalResult(p) != IterationLimit
  {
    FeasibleOfEmpty(p.constraints, Candidates(p.constraints));
  }

  /** A reported solution is a feasible candidate point with its objective
      value, and no kept candidate, and no feasible candidate that is the
      first with its key, has a better value. */
  lemma GraphicalOptimal(p: Problem)
    requires GraphicalResult(p).Solution?
    ensures p.numVars == 2 && |GraphicalResult(p).values| == 2
    ensures Point(GraphicalResult(p).values[0], GraphicalResult(p).values[1]) in Candidates(p.constraints)
    ensures Feasible(p.constraints, Point(GraphicalResult(p).values[0], GraphicalResult(p).values[1]))
    ensures GraphicalResult(p).z ==
              Value(ObjCoef(p, 0), ObjCoef(p, 1), Point(GraphicalResult(p).values[0], GraphicalResult(p).values[1]))
    ensures GraphicalResult(p).values[0] >= 0.0 && GraphicalResult(p).values[1] >= 0.0
    ensures forall k :: 0 <= k < |Candidates(p.constraints)| &&
                        FirstOfKey(Candidates(p.constraints), k) && Feasible(p.constraints, Candidates(p.constraints)[k]) ==>
              !Better(p.direction, Value(ObjCoef(p, 0), ObjCoef(p, 1), Candidates(p.constraints)[k]), GraphicalResult(p).z)
    ensures exists b :: 0 <= b < |FeasibleOf(p.constraints, Candidates(p.constraints))| &&
              FeasibleOf(p.constraints, Candidates(p.constraints))[b] ==
                Point(GraphicalResult(p).values[0], GraphicalResult(p).values[1]) &&
              forall k :: 0 <= k < b ==>
                Better(p.direction, GraphicalResult(p).z,
                       Value(ObjCoef(p, 0), ObjCoef(p, 1), FeasibleOf(p.constraints, Candidates(p.constraints))[k]))
  {
    var cs := p.constraints;
    var cands := Candidates(cs);
    var feasible := FeasibleOf(cs, cands);
    var c1, c2 := ObjCoef(p, 0), ObjCoef(p, 1);
    var b := BestOf(c1, c2, p.direction, feasible).value;
    FeasibleOfSound(cs, cands);
    BestOfOptimal(c1, c2, p.direction, feasible);
    assert feasible[b] in feasible;
    forall k | 0 <= k < |cands| && FirstOfKey(cands, k) && Feasible(cs, cands[k])
      ensures !Better(p.direction, Value(c1, c2, cands[k]), Value(c1, c2, feasible[b]))
    {
      FeasibleOfComplete(cs, cands, k);
      var i :| 0 <= i < |feasible| && feasible[i] == cands[k];
    }
    assert forall k :: 0 <= k < b ==> Better(p.direction, Value(c1, c2, feasible[b]), Value(c1, c2, feasible[k]));
  }

  // ------------------------------------------------------ the imperative code

  /** The x-axis intercepts, constraint by constraint (src/App.jsx:226-233). */
  method XInterceptPoints(cs: seq<Constraint>) returns (xs: seq<Point>)
    ensures xs == XIntercepts(cs)
  {
    xs := [];
    var i := 0;
    while i < |cs|
      invariant 0 <= i <= |cs|
      invariant xs == XIntercepts(cs[..i])
    {
      assert cs[..i + 1][..i] == cs[..i];
      var a := Coef(cs[i], 0);
      if a != 0.0 {
        var x := cs[i].rhs / a;
        if x >= 0.0 {
          xs := xs + [Point(x, 0.0)];
        }
      }
      i := i + 1;
    }
    assert cs[..|cs|] == cs;
  }

  /** The y-axis intercepts, constraint by constraint (src/App.jsx:236-243). */
  method YInterceptPoints(cs: seq<Constraint>) returns (ys: seq<Point>)
    ensures ys == YIntercepts(cs)
  {
    ys := [];
    var i := 0;
    while i < |cs|
      invariant 0 <= i <= |cs|
      invariant ys == YIntercepts(cs[..i])
    {
      assert cs[..i + 1][..i] == cs[..i];
      var b := Coef(cs[i], 1);
      if b != 0.0 {
        var y := cs[i].rhs / b;
        if y >= 0.0 {
          ys := ys + [Point(0.0, y)];
        }
      }
      i := i + 1;
    }
    assert cs[..|cs|] == cs;
  }

  /** One pair of lines: Cramer's rule, the parallel test, the -0.0001
      guard and the clamping (src/App.jsx:248-259). */
  method IntersectLines(ci: Constraint, cj: Constraint) returns (o: Option<Point>)
    ensures o == Intersection(ci, cj)
  {
    var a1, b1, c1 := Coef(ci, 0), Coef(ci, 1), ci.rhs;
    var a2, b2, c2 := Coef(cj, 0), Coef(cj, 1), cj.rhs;
    var det := a1 * b2 - a2 * b1;
    o := None;
    if Abs(det) > DetTolerance {
      var x := (c1 * b2 - c2 * b1) / det;
      var y := (a1 * c2 - a2 * c1) / det;
      CrossingIs(ci, cj, x, y);
      if x >= -0.0001 && y >= -0.0001 {
        o := Some(Point(Max0(x), Max0(y)));
      }
    }
  }

  /** The inner loop over j > i of the intersections (src/App.jsx:247-260). */
  method PairPoints(cs: seq<Constraint>, i: nat) returns (row: seq<Point>)
    requires i < |cs|
    ensures row == PairsWith(cs, i, |cs|)
  {
    row := [];
    var j := i + 1;
    while j < |cs|
      invariant i + 1 <= j <= |cs|
      invariant row == PairsWith(cs, i, j)
    {
      var point := IntersectLines(cs[i], cs[j]);
      if point.Some? {
        row := row + [point.value];
      }
      j := j + 1;
    }
  }

  /** Pushes the candidate points: origin, x intercepts, y intercepts, then
      the pairwise intersections (src/App.jsx:219-261). */
  method CandidatePoints(cs: seq<Constraint>) returns (points: seq<Point>)
    ensures points == Candidates(cs)
  {
    points := [Point(0.0, 0.0)];
    var xs := XInterceptPoints(cs);
    var ys := YInterceptPoints(cs);
    var pairs: seq<Point> := [];
    var i := 0;
    while i < |cs|
      invariant 0 <= i <= |cs|
      invariant pairs == AllPairs(cs, i)
    {
      var row := PairPoints(cs, i);
      pairs := pairs + row;
      i := i + 1;
    }
    points := points + xs + ys + pairs;
  }

  /** The feasibility pass with its set of seen keys (src/App.jsx:266-290). */
  method FeasibleUnique(cs: seq<Constraint>, points: seq<Point>) returns (feasible: seq<Point>)
    ensures feasible == FeasibleOf(cs, points)
  {
    feasible := [];
    var seen: set<Key> := {};
    var k := 0;
    while k < |points|
      invariant 0 <= k <= |points|
      invariant seen == KeysOf(points[..k])
      invariant feasible == FeasibleOf(cs, points[..k])
    {
      var point := points[k];
      assert points[..k + 1] == points[..k] + [point];
      KeysOfSnoc(points[..k], point);
      var key := KeyOf(point);
      if key !in seen {
        seen := seen + {key};
        if Feasible(cs, point) {
          feasible := feasible + [point];
        }
      }
      k := k + 1;
    }
    assert points[..|points|] == points;
  }

  /** The scan for the best objective value (src/App.jsx:308-320); -1
      stands for the source's initial `bestPoint = null`. */
  method BestPoint(c1: real, c2: real, dir: Direction, feasible: seq<Point>) returns (best: int)
    ensures best == -1 <==> |feasible| == 0
    ensures best != -1 ==> BestOf(c1, c2, dir, feasible) == Some(best)
  {
    best := -1;
    var bestValue := 0.0;
    var k := 0;
    while k < |feasible|
      invariant 0 <= k <= |feasible|
      invariant best == -1 <==> k == 0
      invariant best != -1 ==> BestOf(c1, c2, dir, feasible[..k]) == Some(best) && bestValue == Value(c1, c2, feasible[best])
    {
      assert feasible[..k + 1][..k] == feasible[..k];
      var z := c1 * feasible[k].x + c2 * feasible[k].y;
      if best == -1 || (dir == Maximize && z > bestValue) || (dir == Minimize && z < bestValue) {
        bestValue := z;
        best := k;
      }
      k := k + 1;
    }
    assert feasible[..|feasible|] == feasible;
  }

  /** solveGraphical. */
  method SolveGraphical(p: Problem) returns (res: Result)
    ensures res == GraphicalResult(p)
  {
    if p.numVars != 2 {
      return Error(DimensionMessage);
    }
    var points := CandidatePoints(p.constraints);
    var feasible := FeasibleUnique(p.constraints, points);
    res := ReportBest(p, feasible);
  }

  /** The end of solveGraphical once the feasible points are known
      (src/App.jsx:294-333). */
  method ReportBest(p: Problem, feasible: seq<Point>) returns (res: Result)
    ensures res == Report(p, feasible)
  {
    if |feasible| == 0 {
      return Error(InfeasibleMessage);
    }
    var c1 := if 0 < |p.objective| then p.objective[0] else 0.0;
    var c2 := if 1 < |p.objective| then p.objective[1] else 0.0;
    var best := BestPoint(c1, c2, p.direction, feasible);
    var point := feasible[best];
    res := Solution([point.x, point.y], c1 * point.x + c2 * point.y);
  }
}
