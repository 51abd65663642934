/** The array-backed container itself: a backing array whose first `count`
    slots hold the points, growing by doubling. Each method is proved to
    behave exactly like the corresponding function of module Tabulated (or
    Evaluation) applied to the abstract view `Model()`. */
module ArrayTabulated {
  import opened Points
  import opened Results
  import Tabulated
  import Evaluation

  /** A mutator reports `r`'s failure and leaves the view unchanged, or
      passes and leaves the view equal to `r`'s table. */
  ghost predicate Follows(r: Result<Tabulated.Table>, o: Outcome,
                          before: Tabulated.Table, after: Tabulated.Table)
  {
    match r
    case Ok(t) => o == Pass && after == t
    case Err(e) => o == Fail(e) && after == before
  }

  class ArrayTabulatedFunction {
    var points: array<Point>
    var count: nat

    /** The abstract view: the stored points and the array's capacity. */
    function Model(): Tabulated.Table
      reads this, points
      requires count <= points.Length
    {
      Tabulated.Table(points[..count], points.Length)
    }

    ghost predicate Valid()
      reads this, points
    {
      count <= points.Length && Tabulated.Valid(Model())
    }

    constructor Make(a: array<Point>, n: nat)
      requires n <= a.Length
      ensures points == a && count == n
    {
      points := a;
      count := n;
    }

    // -------------------------------------------------------------------
    // Construction

    /** The point-list constructor: checks each neighbouring pair, then
        copies the points into an array with ten spare slots. */
    static method FromPoints(ps: seq<Point>) returns (r: Result<ArrayTabulatedFunction>)
      ensures r.Ok? <==> Tabulated.FromPoints(ps).Ok?
      ensures r.Err? ==> r.error == Tabulated.FromPoints(ps).error
      ensures r.Ok? ==> fresh(r.value) && fresh(r.value.points) && r.value.Valid()
                        && r.value.Model() == Tabulated.FromPoints(ps).value
    {
      if |ps| < 2 {
        return Err(InvalidArgument);
      }
      var i := 1;
      while i < |ps|
        invariant 1 <= i <= |ps|
        invariant forall j :: 0 < j < i ==> ps[j - 1].x < ps[j].x
      {
        if ps[i].x <= ps[i - 1].x {
          AscendingIffAdjacent(ps);
          return Err(InvalidArgument);
        }
        i := i + 1;
      }
      AscendingIffAdjacent(ps);
      var a := new Point[|ps| + Tabulated.ListSlack];
      var j := 0;
      while j < |ps|
        invariant 0 <= j <= |ps|
        invariant a[..j] == ps[..j]
      {
        a[j] := ps[j];
        j := j + 1;
      }
      assert a[..|ps|] == ps;
      var f := new ArrayTabulatedFunction.Make(a, |ps|);
      return Ok(f);
    }

    /** Fills the first |ys| slots of a fresh array with the evenly spaced
        grid on [leftX, rightX] carrying ys. */
    static method FillGrid(leftX: real, rightX: real, ys: seq<real>, slack: nat)
      returns (a: array<Point>)
      requires |ys| >= 2
      ensures fresh(a) && a.Length == |ys| + slack
      ensures a[..|ys|] == Tabulated.Grid(leftX, rightX, ys)
    {
      var n := |ys|;
      a := new Point[n + slack];
      var h := (rightX - leftX) / ((n - 1) as real);
      var i := 0;
      while i < n
        invariant 0 <= i <= n
        invariant a[..i] == Tabulated.Grid(leftX, rightX, ys)[..i]
      {
        a[i] := Point(leftX + (i as real) * h, ys[i]);
        assert a[i] == Tabulated.Grid(leftX, rightX, ys)[i];
        i := i + 1;
      }
    }

    /** The range-and-count constructor: at least three points, all y zero. */
    static method FromRange(leftX: real, rightX: real, n: int) returns (r: Result<ArrayTabulatedFunction>)
      ensures r.Ok? <==> Tabulated.FromRange(leftX, rightX, n).Ok?
      ensures r.Err? ==> r.error == Tabulated.FromRange(leftX, rightX, n).error
      ensures r.Ok? ==> fresh(r.value) && fresh(r.value.points) && r.value.Valid()
                        && r.value.Model() == Tabulated.FromRange(leftX, rightX, n).value
    {
      if n < 3 {
        return Err(InvalidArgument);
      }
      if leftX >= rightX {
        return Err(InvalidArgument);
      }
      var a := FillGrid(leftX, rightX, seq(n, _ => 0.0), Tabulated.GridSlack);
      var f := new ArrayTabulatedFunction.Make(a, n);
      return Ok(f);
    }

    /** The range-and-values constructor: at least two values. */
    static method FromValues(leftX: real, rightX: real, values: seq<real>)
      returns (r: Result<ArrayTabulatedFunction>)
      ensures r.Ok? <==> Tabulated.FromValues(leftX, rightX, values).Ok?
      ensures r.Err? ==> r.error == Tabulated.FromValues(leftX, rightX, values).error
      ensures r.Ok? ==> fresh(r.value) && fresh(r.value.points) && r.value.Valid()
                        && r.value.Model() == Tabulated.FromValues(leftX, rightX, values).value
    {
      if |values| < 2 {
        return Err(InvalidArgument);
      }
      if leftX >= rightX {
        return Err(InvalidArgument);
      }
      var a := FillGrid(leftX, rightX, values, Tabulated.GridSlack);
      var f := new ArrayTabulatedFunction.Make(a, |values|);
      return Ok(f);
    }

    // -------------------------------------------------------------------
    // Queries

    method LeftDomainBorder() returns (r: real)
      requires Valid()
      ensures r == Tabulated.LeftBorder(Model())
    {
      return points[0].x;
    }

    method RightDomainBorder() returns (r: real)
      requires Valid()
      ensures r == Tabulated.RightBorder(Model())
    {
      return points[count - 1].x;
    }

    /** getFunctionValue as written: the loop stops before the last point. */
    method FunctionValue(x: real) returns (r: Option<real>)
      requires Valid()
      ensures r == Evaluation.FunctionValue(Model(), x)
    {
      if x < points[0].x || x > points[count - 1].x {
        return None;
      }
      ghost var ps := points[..count];
      var m := 0.0;
      var i := 0;
      while i < count - 1
        invariant 0 <= i <= count - 1
        invariant Evaluation.ScanValue(ps, x, i, m) == Evaluation.ScanValue(ps, x, 0, 0.0)
      {
        if points[i].x < x < points[i + 1].x {
          return Some(Evaluation.Interpolate(points[i], points[i + 1], x));
        }
        if Abs(x - points[i].x) < Tabulated.Epsilon {
          m := points[i].y;
        }
        i := i + 1;
      }
      return Some(m);
    }

    method PointsCount() returns (n: nat)
      requires Valid()
      ensures n == |Model().points|
    {
      return count;
    }

    method GetPoint(i: int) returns (r: Result<Point>)
      requires Valid()
      ensures r == Tabulated.GetPoint(Model(), i)
    {
      if i < 0 || i >= count {
        return Err(IndexOutOfRange);
      }
      return Ok(points[i]);
    }

    method GetPointX(i: int) returns (r: Result<real>)
      requires Valid()
      ensures r == Tabulated.GetPointX(Model(), i)
    {
      if i < 0 || i >= count {
        return Err(IndexOutOfRange);
      }
      return Ok(points[i].x);
    }

    method GetPointY(i: int) returns (r: Result<real>)
      requires Valid()
      ensures r == Tabulated.GetPointY(Model(), i)
    {
      if i < 0 || i >= count {
        return Err(IndexOutOfRange);
      }
      return Ok(points[i].y);
    }

    // -------------------------------------------------------------------
    // Setters. The source reads the slots before and after the index with
    // no guard: index 0 reads before the array, and the last index reads
    // the empty slot after the last point (or past a full array). Both
    // surface here as IndexOutOfRange.

    method SetPoint(i: int, p: Point) returns (o: Outcome)
      requires Valid()
      modifies points
      ensures Valid()
      ensures Follows(Tabulated.SetPoint(old(Model()), i, p), o, old(Model()), Model())
    {
      if i < 0 || i >= count {
        return Fail(IndexOutOfRange);
      }
      if i == 0 {
        return Fail(IndexOutOfRange);
      }
      if p.x <= points[i - 1].x {
        return Pass;
      }
      if i == count - 1 {
        return Fail(IndexOutOfRange);
      }
      if p.x >= points[i + 1].x {
        return Pass;
      }
      points[i] := p;
      assert points[..count] == old(points[..count])[i := p];
      return Pass;
    }

    method SetPointX(i: int, x: real) returns (o: Outcome)
      requires Valid()
      modifies points
      ensures Valid()
      ensures Follows(Tabulated.SetPointX(old(Model()), i, x), o, old(Model()), Model())
    {
      if i < 0 || i >= count {
        return Fail(IndexOutOfRange);
      }
      if i == 0 {
        return Fail(IndexOutOfRange);
      }
      if x <= points[i - 1].x {
        return Fail(InvalidPlacement);
      }
      if i == count - 1 {
        return Fail(IndexOutOfRange);
      }
      if x >= points[i + 1].x {
        return Fail(InvalidPlacement);
      }
      points[i] := points[i].(x := x);
      assert points[..count] == old(points[..count])[i := Point(x, old(points[i]).y)];
      return Pass;
    }

    method SetPointY(i: int, y: real) returns (o: Outcome)
      requires Valid()
      modifies points
      ensures Valid()
      ensures Follows(Tabulated.SetPointY(old(Model()), i, y), o, old(Model()), Model())
    {
      if i < 0 || i >= count {
        return Fail(IndexOutOfRange);
      }
      points[i] := points[i].(y := y);
      assert points[..count] == old(points[..count])[i := Point(old(points[i]).x, y)];
      return Pass;
    }

    // -------------------------------------------------------------------
    // Deletion and insertion

    /** Shifts the points after index i one slot left, dropping the point at i. */
    method RemoveAt(i: nat)
      requires 0 < count <= points.Length && i < count
      modifies this, points
      ensures points == old(points) && count == old(count) - 1
      ensures points[..count] == old(points[..count])[..i] + old(points[..count])[i + 1..]
    {
      ghost var s := points[..count];
      var j := i;
      while j < count - 1
        invariant points == old(points) && count == |s| <= points.Length
        invariant i <= j <= count - 1
        invariant forall m :: 0 <= m < i ==> points[m] == s[m]
        invariant forall m :: i <= m < j ==> points[m] == s[m + 1]
        invariant forall m :: j < m < count ==> points[m] == s[m]
      {
        points[j] := points[j + 1];
        j := j + 1;
      }
      count := count - 1;
      assert points[..count] == s[..i] + s[i + 1..];
    }

    /** deletePoint: refuses a bad index or fewer than three points, then
        shifts the later points one slot left. */
    method DeletePoint(i: int) returns (o: Outcome)
      requires Valid()
      modifies this, points
      ensures Valid()
      ensures points == old(points)
      ensures Follows(Tabulated.DeletePoint(old(Model()), i), o, old(Model()), Model())
    {
      if i < 0 || i >= count {
        return Fail(IndexOutOfRange);
      }
      if count < 3 {
        return Fail(InvalidState);
      }
      RemoveAt(i);
      return Pass;
    }

    /** addPoint's scan: the first index whose x is not below x. */
    method FindInsertIndex(x: real) returns (k: nat)
      requires Valid()
      ensures k == Tabulated.InsertIndex(Model().points, x, 0)
    {
      ghost var s := points[..count];
      k := 0;
      while k < count && points[k].x < x
        invariant 0 <= k <= count
        invariant Tabulated.InsertIndex(s, x, k) == Tabulated.InsertIndex(s, x, 0)
      {
        k := k + 1;
      }
    }

    /** Replaces a full backing array by one of twice the length holding the
        same points. */
    method Grow()
      requires Valid() && count == points.Length
      modifies this
      ensures Valid() && fresh(points)
      ensures count == old(count) && points.Length == 2 * old(points.Length)
      ensures points[..count] == old(points[..count])
    {
      var bigger := new Point[points.Length * 2];
      var c := 0;
      while c < count
        invariant points == old(points) && count == old(count)
        invariant 0 <= c <= count
        invariant bigger[..c] == points[..c]
      {
        bigger[c] := points[c];
        c := c + 1;
      }
      assert bigger[..count] == points[..count];
      points := bigger;
    }

    /** Shifts the points from index k on one slot right and stores p at k. */
    method InsertAt(k: nat, p: Point)
      requires count < points.Length && k <= count
      modifies this, points
      ensures points == old(points) && count == old(count) + 1
      ensures points[..count] == old(points[..count])[..k] + [p] + old(points[..count])[k..]
    {
      ghost var s := points[..count];
      var j := count;
      while j > k
        invariant points == old(points) && count == |s| < points.Length
        invariant k <= j <= count
        invariant forall m :: 0 <= m < j ==> points[m] == s[m]
        invariant forall m :: j < m <= count ==> points[m] == s[m - 1]
      {
        points[j] := points[j - 1];
        j := j - 1;
      }
      points[k] := p;
      count := count + 1;
      assert points[..count] == s[..k] + [p] + s[k..];
    }

    /** addPoint: linear scan for the position, duplicate check, doubling
        growth when full, shift right, store. */
    method AddPoint(p: Point) returns (o: Outcome)
      requires Valid()
      modifies this, points
      ensures Valid()
      ensures points == old(points) || fresh(points)
      ensures Follows(Tabulated.AddPoint(old(Model()), p), o, old(Model()), Model())
    {
      var k := FindInsertIndex(p.x);
      if k < count && Abs(p.x - points[k].x) < Tabulated.Epsilon {
        return Fail(InvalidPlacement);
      }
      if count == points.Length {
        Grow();
      }
      InsertAt(k, p);
      Tabulated.AddPointSplices(old(Model()), p);
      return Pass;
    }
  }
}
