/** Piecewise-linear evaluation of a tabulated function: the source's
    getFunctionValue as written, and the evaluation it evidently intends. */
module Evaluation {
  import opened Points
  import opened Results
  import opened Tabulated

  /** The straight line through p and q, evaluated at x. */
  function Interpolate(p: Point, q: Point, x: real): real
    requires p.x < q.x
  {
    p.y + (q.y - p.y) * (x - p.x) / (q.x - p.x)
  }

  /** The line through p and q passes through both of them. */
  lemma InterpolateEndpoints(p: Point, q: Point)
    requires p.x < q.x
    ensures Interpolate(p, q, p.x) == p.y
    ensures Interpolate(p, q, q.x) == q.y
  {
    assert (q.y - p.y) * (q.x - p.x) / (q.x - p.x) == q.y - p.y;
  }

  // ---------------------------------------------------------------------
  // getFunctionValue as written

  /** One pass of the source's loop, from index i with accumulator m: the
      loop stops before the last point; a strictly enclosing pair returns its
      interpolation at once; a stored x within EPSILON of x only overwrites
      the accumulator, which is returned when the loop ends. */
  function ScanValue(ps: seq<Point>, x: real, i: nat, m: real): real
    requires Ascending(ps) && i < |ps|
    decreases |ps| - i
  {
    if i == |ps| - 1 then m
    else if ps[i].x < x < ps[i + 1].x then Interpolate(ps[i], ps[i + 1], x)
    else ScanValue(ps, x, i + 1, if Abs(x - ps[i].x) < Epsilon then ps[i].y else m)
  }

  /** getFunctionValue: None (NaN) outside the domain, otherwise the result
      of the scan started with accumulator 0. */
  function FunctionValue(t: Table, x: real): (r: Option<real>)
    requires Valid(t)
    ensures r.None? <==> x < LeftBorder(t) || x > RightBorder(t)
  {
    if x < t.points[0].x || x > t.points[|t.points| - 1].x then None
    else Some(ScanValue(t.points, x, 0, 0.0))
  }

  /** Steps in which neither branch of the loop fires leave the result of the
      scan as it was. */
  lemma {:induction false} ScanSkips(ps: seq<Point>, x: real, i: nat, j: nat, m: real)
    requires Ascending(ps) && i <= j < |ps|
    requires forall l :: i <= l < j ==> !(ps[l].x < x < ps[l + 1].x) && Abs(x - ps[l].x) >= Epsilon
    ensures ScanValue(ps, x, i, m) == ScanValue(ps, x, j, m)
    decreases j - i
  {
    if i < j {
      ScanSkips(ps, x, i + 1, j, m);
    }
  }

  /** Before the pair that encloses x, no step returns, whatever the
      accumulator holds; the pair itself returns its interpolation. */
  lemma {:induction false} ScanReachesPair(ps: seq<Point>, x: real, i: nat, k: nat, m: real)
    requires Ascending(ps) && i <= k < |ps| - 1
    requires ps[k].x < x < ps[k + 1].x
    ensures ScanValue(ps, x, i, m) == Interpolate(ps[k], ps[k + 1], x)
    decreases k - i
  {
    if i < k {
      assert ps[i + 1].x <= ps[k].x;
      ScanReachesPair(ps, x, i + 1, k, if Abs(x - ps[i].x) < Epsilon then ps[i].y else m);
    }
  }

  /** Up to and including a stored x equal to x, no step returns; the step
      at that index loads its y into the accumulator. */
  lemma {:induction false} ScanReachesNode(ps: seq<Point>, x: real, i: nat, k: nat, m: real)
    requires Ascending(ps) && i <= k < |ps| - 1
    requires x == ps[k].x
    ensures ScanValue(ps, x, i, m) == ScanValue(ps, x, k + 1, ps[k].y)
    decreases k - i
  {
    if i < k {
      assert ps[i + 1].x <= ps[k].x;
      ScanReachesNode(ps, x, i + 1, k, if Abs(x - ps[i].x) < Epsilon then ps[i].y else m);
    }
  }

  /** Strictly between two neighbouring stored x-values the source returns
      the linear interpolation between them. */
  lemma FunctionValueBetween(t: Table, k: int, x: real)
    requires Valid(t) && 0 <= k < |t.points| - 1
    requires t.points[k].x < x < t.points[k + 1].x
    ensures FunctionValue(t, x) == Some(Interpolate(t.points[k], t.points[k + 1], x))
  {
    ScanReachesPair(t.points, x, 0, k, 0.0);
  }

  /** At a stored x other than the last, whose right neighbour is at least
      EPSILON away, the source returns the stored y. */
  lemma FunctionValueAtNode(t: Table, k: int)
    requires Valid(t) && 0 <= k < |t.points| - 1
    requires t.points[k + 1].x - t.points[k].x >= Epsilon
    ensures FunctionValue(t, t.points[k].x) == Some(t.points[k].y)
  {
    var ps, x := t.points, t.points[k].x;
    ScanReachesNode(ps, x, 0, k, 0.0);
    forall l | k + 1 <= l < |ps| - 1
      ensures !(ps[l].x < x < ps[l + 1].x) && Abs(x - ps[l].x) >= Epsilon
    {
      assert ps[k + 1].x <= ps[l].x;
    }
    ScanSkips(ps, x, k + 1, |ps| - 1, ps[k].y);
  }

  /** At an interior stored x whose right neighbour is at least EPSILON away,
      the source's value meets the interpolation of both adjoining pairs, so
      the piecewise-linear function it evaluates is continuous there. */
  lemma FunctionValueContinuousAtNode(t: Table, k: int)
    requires Valid(t) && 0 < k < |t.points| - 1
    requires t.points[k + 1].x - t.points[k].x >= Epsilon
    ensures FunctionValue(t, t.points[k].x)
              == Some(Interpolate(t.points[k - 1], t.points[k], t.points[k].x))
    ensures FunctionValue(t, t.points[k].x)
              == Some(Interpolate(t.points[k], t.points[k + 1], t.points[k].x))
  {
    FunctionValueAtNode(t, k);
    InterpolateEndpoints(t.points[k - 1], t.points[k]);
    InterpolateEndpoints(t.points[k], t.points[k + 1]);
  }

  /** At the right border, when the last two stored x-values are at least
      EPSILON apart, the source returns the accumulator's initial 0 and not
      the last stored y: the loop never examines the last point. */
  lemma FunctionValueAtRightBorder(t: Table)
    requires Valid(t)
    requires t.points[|t.points| - 1].x - t.points[|t.points| - 2].x >= Epsilon
    ensures FunctionValue(t, RightBorder(t)) == Some(0.0)
  {
    var ps := t.points;
    var n, x := |ps|, ps[|ps| - 1].x;
    forall l | 0 <= l < n - 1
      ensures !(ps[l].x < x < ps[l + 1].x) && Abs(x - ps[l].x) >= Epsilon
    {
      assert ps[l].x <= ps[n - 2].x;
    }
    ScanSkips(ps, x, 0, n - 1, 0.0);
  }

  /** A concrete instance: the table (0,0), (1,1), (2,4) evaluates to 0, not
      4, at its right border. */
  lemma RightBorderCounterexample()
    ensures var t := Table([Point(0.0, 0.0), Point(1.0, 1.0), Point(2.0, 4.0)], 12);
            Valid(t) && FunctionValue(t, 2.0) == Some(0.0) && t.points[2].y == 4.0
  {
    var t := Table([Point(0.0, 0.0), Point(1.0, 1.0), Point(2.0, 4.0)], 12);
    AscendingIffAdjacent(t.points);
    FunctionValueAtRightBorder(t);
  }

  // ---------------------------------------------------------------------
  // The evidently intended evaluation

  /** The intended scan: an exact match with a stored x takes priority and
      returns its y; otherwise the enclosing pair is interpolated. */
  function EvaluateFrom(ps: seq<Point>, x: real, i: nat): real
    requires Ascending(ps) && i < |ps|
    decreases |ps| - i
  {
    if x == ps[i].x then ps[i].y
    else if i + 1 < |ps| && ps[i].x < x < ps[i + 1].x then Interpolate(ps[i], ps[i + 1], x)
    else if i + 1 < |ps| then EvaluateFrom(ps, x, i + 1)
    else 0.0
  }

  /** Piecewise-linear evaluation: None outside the domain. */
  function Evaluate(t: Table, x: real): (r: Option<real>)
    requires Valid(t)
    ensures r.None? <==> x < LeftBorder(t) || x > RightBorder(t)
  {
    if x < t.points[0].x || x > t.points[|t.points| - 1].x then None
    else Some(EvaluateFrom(t.points, x, 0))
  }

  lemma {:induction false} EvaluateFromNode(ps: seq<Point>, i: nat, k: nat)
    requires Ascending(ps) && i <= k < |ps|
    ensures EvaluateFrom(ps, ps[k].x, i) == ps[k].y
    decreases k - i
  {
    if i < k {
      assert ps[i + 1].x <= ps[k].x;
      EvaluateFromNode(ps, i + 1, k);
    }
  }

  lemma {:induction false} EvaluateFromPair(ps: seq<Point>, x: real, i: nat, k: nat)
    requires Ascending(ps) && i <= k < |ps| - 1
    requires ps[k].x < x < ps[k + 1].x
    ensures EvaluateFrom(ps, x, i) == Interpolate(ps[k], ps[k + 1], x)
    decreases k - i
  {
    if i < k {
      assert ps[i + 1].x <= ps[k].x;
      EvaluateFromPair(ps, x, i + 1, k);
    }
  }

  /** Every stored point, the last included, is reproduced exactly. */
  lemma EvaluateAtNode(t: Table, k: int)
    requires Valid(t) && 0 <= k < |t.points|
    ensures Evaluate(t, t.points[k].x) == Some(t.points[k].y)
  {
    EvaluateFromNode(t.points, 0, k);
  }

  /** Strictly between two neighbouring stored x-values the result lies on
      the straight line through them. */
  lemma EvaluateBetween(t: Table, k: int, x: real)
    requires Valid(t) && 0 <= k < |t.points| - 1
    requires t.points[k].x < x < t.points[k + 1].x
    ensures Evaluate(t, x) == Some(Interpolate(t.points[k], t.points[k + 1], x))
  {
    EvaluateFromPair(t.points, x, 0, k);
  }

  /** Every x of the domain short of the right border is either a stored x
      or strictly inside one pair of neighbours. */
  lemma {:induction false} Locate(ps: seq<Point>, x: real, i: nat) returns (k: nat)
    requires Ascending(ps) && i < |ps| - 1
    requires ps[i].x <= x < ps[|ps| - 1].x
    ensures i <= k < |ps| - 1
    ensures x == ps[k].x || ps[k].x < x < ps[k + 1].x
    decreases |ps| - i
  {
    if x == ps[i].x || x < ps[i + 1].x {
      k := i;
    } else {
      k := Locate(ps, x, i + 1);
    }
  }

  /** Where no two stored x-values are closer than EPSILON, the source's
      evaluation agrees with the intended one everywhere except at the right
      border. */
  lemma FunctionValueAgrees(t: Table, x: real)
    requires Valid(t)
    requires forall i :: 0 < i < |t.points| ==> t.points[i].x - t.points[i - 1].x >= Epsilon
    requires x != RightBorder(t)
    ensures FunctionValue(t, x) == Evaluate(t, x)
  {
    var ps := t.points;
    if t.points[0].x <= x <= ps[|ps| - 1].x {
      var k := Locate(ps, x, 0);
      if x == ps[k].x {
        FunctionValueAtNode(t, k);
        EvaluateAtNode(t, k);
      } else {
        FunctionValueBetween(t, k, x);
        EvaluateBetween(t, k, x);
      }
    }
  }

  // ---------------------------------------------------------------------
  // Insertion followed by evaluation

  /** After a successful insertion, the intended evaluation returns the
      inserted y at the inserted x. */
  lemma AddThenEvaluate(t: Table, p: Point)
    requires Valid(t) && AddPoint(t, p).Ok?
    ensures Evaluate(AddPoint(t, p).value, p.x) == Some(p.y)
  {
    var k := InsertIndex(t.points, p.x, 0);
    AddPointSplices(t, p);
    var u := AddPoint(t, p).value;
    assert u.points[k] == p;
    EvaluateAtNode(u, k);
  }

  /** The source's evaluation also returns the inserted y, provided the new
      point did not become the right border. */
  lemma AddThenFunctionValue(t: Table, p: Point)
    requires Valid(t) && AddPoint(t, p).Ok?
    requires p.x < RightBorder(t)
    ensures FunctionValue(AddPoint(t, p).value, p.x) == Some(p.y)
  {
    var ps := t.points;
    var k := InsertIndex(ps, p.x, 0);
    AddPointSplices(t, p);
    var u := AddPoint(t, p).value;
    assert k < |ps|;
    assert u.points[k] == p && u.points[k + 1] == ps[k];
    FunctionValueAtNode(u, k);
  }

  /** A point appended beyond the right border (by at least EPSILON) then
      evaluates to 0 in the source, not to its own y. */
  lemma AddAtEndThenFunctionValue(t: Table, p: Point)
    requires Valid(t)
    requires p.x - RightBorder(t) >= Epsilon
    ensures AddPoint(t, p).Ok?
    ensures FunctionValue(AddPoint(t, p).value, p.x) == Some(0.0)
  {
    var ps := t.points;
    var n := |ps|;
    assert forall j :: 0 <= j < n ==> ps[j].x <= ps[n - 1].x;
    var k := InsertIndex(ps, p.x, 0);
    assert k == n;
    AddPointSplices(t, p);
    var u := AddPoint(t, p).value;
    assert u.points[n] == p && u.points[n - 1] == ps[n - 1];
    FunctionValueAtRightBorder(u);
  }

  /** The worked example: the table (0,0), (1,1), (2,4) interpolates to 0.5
      at 0.5 and to 2.5 at 1.5 and is undefined at -1. */
  lemma WorkedExample(t: Table)
    requires t == Table([Point(0.0, 0.0), Point(1.0, 1.0), Point(2.0, 4.0)], 13)
    ensures FromPoints(t.points) == Ok(t)
    ensures FunctionValue(t, 0.5) == Some(0.5)
    ensures FunctionValue(t, 1.5) == Some(2.5)
    ensures FunctionValue(t, -1.0) == None
  {
    AscendingIffAdjacent(t.points);
    FunctionValueBetween(t, 0, 0.5);
    FunctionValueBetween(t, 1, 1.5);
  }

  /** Continuing the worked example: inserting (3,9) gives four points and
      the value 6.5 at 2.5. */
  lemma WorkedExampleInsert(t: Table)
    requires t == Table([Point(0.0, 0.0), Point(1.0, 1.0), Point(2.0, 4.0)], 13)
    ensures AddPoint(t, Point(3.0, 9.0)).Ok?
    ensures |AddPoint(t, Point(3.0, 9.0)).value.points| == 4
    ensures FunctionValue(AddPoint(t, Point(3.0, 9.0)).value, 2.5) == Some(6.5)
  {
    AscendingIffAdjacent(t.points);
    var p := Point(3.0, 9.0);
    assert forall j :: 0 <= j < 3 ==> t.points[j].x < p.x;
    assert AddPoint(t, p).Ok?;
    var u := AddPoint(t, p).value;
    AddPointSplices(t, p);
    assert InsertIndex(t.points, p.x, 0) == 3;
    assert u.points == t.points + [p];
    assert u.points[2] == Point(2.0, 4.0) && u.points[3] == p;
    assert Interpolate(u.points[2], u.points[3], 2.5) == 6.5;
    FunctionValueBetween(u, 2, 2.5);
  }
}
