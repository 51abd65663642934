/** The tabulated function as a value: its stored points (the first
    `pointsCount` slots of the backing array) together with the array's
    capacity. Every operation of the container is a pure function from one
    such value to a new one or to the error it reports; the class in
    array_tabulated.dfy is proved to behave exactly like these functions. */
module Tabulated {
  import opened Points
  import opened Results

  /** Tolerance the source uses to call two x-values equal (1e-10). */
  const Epsilon: real := 0.0000000001

  /** Spare slots allocated beyond the point count by the point-list
      constructor and by the two evenly spaced constructors. */
  const ListSlack: int := 10
  const GridSlack: int := 5

  /** `points` are the logically valid entries, `capacity` the length of the
      backing array. */
  datatype Table = Table(points: seq<Point>, capacity: int)

  /** The container's invariant: at least two points, strictly ascending x,
      and no more points than the backing array can hold. */
  ghost predicate Valid(t: Table) {
    2 <= |t.points| <= t.capacity && Ascending(t.points)
  }

  // ---------------------------------------------------------------------
  // Construction

  /** The constructor's neighbour-by-neighbour order check, from index i on. */
  function OrderedFrom(ps: seq<Point>, i: nat): (ok: bool)
    requires 1 <= i <= |ps|
    ensures ok <==> Ascending(ps[i - 1..])
    decreases |ps| - i
  {
    if i == |ps| then true
    else if ps[i].x <= ps[i - 1].x then
      assert ps[i - 1..][0] == ps[i - 1] && ps[i - 1..][1] == ps[i];
      false
    else
      AscendingStep(ps[i - 1..]);
      assert ps[i - 1..][1..] == ps[i..];
      OrderedFrom(ps, i + 1)
  }

  /** Construction from an explicit list of points. */
  function FromPoints(ps: seq<Point>): (r: Result<Table>)
    ensures r.Ok? <==> |ps| >= 2 && Ascending(ps)
    ensures r.Err? ==> r.error == InvalidArgument
    ensures r.Ok? ==> Valid(r.value) && r.value.points == ps
    ensures r.Ok? ==> r.value.capacity == |ps| + ListSlack
  {
    if |ps| < 2 then Err(InvalidArgument)
    else if !OrderedFrom(ps, 1) then
      assert ps[0..] == ps;
      Err(InvalidArgument)
    else
      assert ps[0..] == ps;
      Ok(Table(ps, |ps| + ListSlack))
  }

  /** The x-value of the i-th of n evenly spaced points on [leftX, rightX]. */
  function GridX(leftX: real, rightX: real, n: int, i: int): real
    requires n >= 2
  {
    leftX + (i as real) * ((rightX - leftX) / ((n - 1) as real))
  }

  /** Evenly spaced points on [leftX, rightX] carrying the given y-values. */
  function Grid(leftX: real, rightX: real, ys: seq<real>): (ps: seq<Point>)
    requires |ys| >= 2
    ensures |ps| == |ys|
    ensures forall i :: 0 <= i < |ps| ==> ps[i] == Point(GridX(leftX, rightX, |ys|, i), ys[i])
  {
    seq(|ys|, i requires 0 <= i < |ys| => Point(GridX(leftX, rightX, |ys|, i), ys[i]))
  }

  /** The grid starts at leftX, ends at rightX, has constant step and is
      strictly increasing. */
  lemma GridShape(leftX: real, rightX: real, n: int)
    requires leftX < rightX && n >= 2
    ensures GridX(leftX, rightX, n, 0) == leftX
    ensures GridX(leftX, rightX, n, n - 1) == rightX
    ensures forall i {:trigger GridX(leftX, rightX, n, i)} :: 0 < i < n ==>
              GridX(leftX, rightX, n, i) - GridX(leftX, rightX, n, i - 1)
                == (rightX - leftX) / ((n - 1) as real)
    ensures forall i, j :: 0 <= i < j < n ==> GridX(leftX, rightX, n, i) < GridX(leftX, rightX, n, j)
  {
    var h := (rightX - leftX) / ((n - 1) as real);
    assert h > 0.0;
    assert ((n - 1) as real) * h == rightX - leftX;
    forall i, j | 0 <= i < j < n
      ensures GridX(leftX, rightX, n, i) < GridX(leftX, rightX, n, j)
    {
      GridStepPositive(i, j, h);
    }
  }

  lemma GridStepPositive(i: int, j: int, h: real)
    requires i < j && h > 0.0
    ensures (i as real) * h < (j as real) * h
  {
    var d := (j - i) as real;
    assert d > 0.0;
    assert d * h > 0.0;
    assert (j as real) * h == (i as real) * h + d * h;
  }

  lemma GridAscending(leftX: real, rightX: real, ys: seq<real>)
    requires leftX < rightX && |ys| >= 2
    ensures Ascending(Grid(leftX, rightX, ys))
  {
    GridShape(leftX, rightX, |ys|);
  }

  /** GridShape restated about the points of the grid themselves, so that
      the constructors below need not unfold the comprehension. */
  lemma GridPoints(leftX: real, rightX: real, ys: seq<real>)
    requires leftX < rightX && |ys| >= 2
    ensures Grid(leftX, rightX, ys)[0].x == leftX
    ensures Grid(leftX, rightX, ys)[|ys| - 1].x == rightX
    ensures forall i :: 0 < i < |ys| ==>
              Grid(leftX, rightX, ys)[i].x - Grid(leftX, rightX, ys)[i - 1].x
                == (rightX - leftX) / ((|ys| - 1) as real)
    ensures forall i :: 0 <= i < |ys| ==> Grid(leftX, rightX, ys)[i].y == ys[i]
    ensures Ascending(Grid(leftX, rightX, ys))
  {
    var n := |ys|;
    var ps := Grid(leftX, rightX, ys);
    GridShape(leftX, rightX, n);
    GridAscending(leftX, rightX, ys);
    forall i | 0 < i < n
      ensures ps[i].x - ps[i - 1].x == (rightX - leftX) / ((n - 1) as real)
    {
      assert ps[i].x == GridX(leftX, rightX, n, i);
      assert ps[i - 1].x == GridX(leftX, rightX, n, i - 1);
    }
  }

  /** Construction from a range and a point count; every y is zero. */
  function FromRange(leftX: real, rightX: real, n: int): (r: Result<Table>)
    ensures r.Ok? <==> n >= 3 && leftX < rightX
    ensures r.Err? ==> r.error == InvalidArgument
    ensures r.Ok? ==> Valid(r.value) && |r.value.points| == n
                      && r.value.capacity == n + GridSlack
    ensures r.Ok? ==> r.value.points[0].x == leftX && r.value.points[n - 1].x == rightX
    ensures r.Ok? ==> forall i :: 0 < i < n ==>
              r.value.points[i].x - r.value.points[i - 1].x == (rightX - leftX) / ((n - 1) as real)
    ensures r.Ok? ==> forall i :: 0 <= i < n ==> r.value.points[i].y == 0.0
  {
    if n < 3 then Err(InvalidArgument)
    else if leftX >= rightX then Err(InvalidArgument)
    else
      var ys := seq(n, _ => 0.0);
      GridPoints(leftX, rightX, ys);
      Ok(Table(Grid(leftX, rightX, ys), n + GridSlack))
  }

  /** Construction from a range and the y-values of evenly spaced points. */
  function FromValues(leftX: real, rightX: real, values: seq<real>): (r: Result<Table>)
    ensures r.Ok? <==> |values| >= 2 && leftX < rightX
    ensures r.Err? ==> r.error == InvalidArgument
    ensures r.Ok? ==> Valid(r.value) && |r.value.points| == |values|
                      && r.value.capacity == |values| + GridSlack
    ensures r.Ok? ==> r.value.points[0].x == leftX && r.value.points[|values| - 1].x == rightX
    ensures r.Ok? ==> forall i :: 0 < i < |values| ==>
              r.value.points[i].x - r.value.points[i - 1].x
                == (rightX - leftX) / ((|values| - 1) as real)
    ensures r.Ok? ==> forall i :: 0 <= i < |values| ==> r.value.points[i].y == values[i]
  {
    if |values| < 2 then Err(InvalidArgument)
    else if leftX >= rightX then Err(InvalidArgument)
    else
      GridPoints(leftX, rightX, values);
      Ok(Table(Grid(leftX, rightX, values), |values| + GridSlack))
  }

  // ---------------------------------------------------------------------
  // Domain borders and accessors

  /** The left border of the domain: the smallest stored x. */
  function LeftBorder(t: Table): (r: real)
    requires Valid(t)
    ensures exists i :: 0 <= i < |t.points| && t.points[i].x == r
    ensures forall i :: 0 <= i < |t.points| ==> r <= t.points[i].x
  {
    t.points[0].x
  }

  /** The right border of the domain: the largest stored x. */
  function RightBorder(t: Table): (r: real)
    requires Valid(t)
    ensures exists i :: 0 <= i < |t.points| && t.points[i].x == r
    ensures forall i :: 0 <= i < |t.points| ==> t.points[i].x <= r
  {
    t.points[|t.points| - 1].x
  }

  /** A copy of the point at index i, bounds-checked. */
  function GetPoint(t: Table, i: int): (r: Result<Point>)
    ensures r.Ok? <==> 0 <= i < |t.points|
    ensures r.Ok? ==> r.value == t.points[i]
    ensures r.Err? ==> r.error == IndexOutOfRange
  {
    if 0 <= i < |t.points| then Ok(t.points[i]) else Err(IndexOutOfRange)
  }

  /** The x of the point at index i, bounds-checked like GetPoint. */
  function GetPointX(t: Table, i: int): (r: Result<real>)
    ensures r.Ok? <==> GetPoint(t, i).Ok?
    ensures r.Ok? ==> r.value == GetPoint(t, i).value.x
    ensures r.Err? ==> r.error == IndexOutOfRange
  {
    if 0 <= i < |t.points| then Ok(t.points[i].x) else Err(IndexOutOfRange)
  }

  /** The y of the point at index i, bounds-checked like GetPoint. */
  function GetPointY(t: Table, i: int): (r: Result<real>)
    ensures r.Ok? <==> GetPoint(t, i).Ok?
    ensures r.Ok? ==> r.value == GetPoint(t, i).value.y
    ensures r.Err? ==> r.error == IndexOutOfRange
  {
    if 0 <= i < |t.points| then Ok(t.points[i].y) else Err(IndexOutOfRange)
  }

  // ---------------------------------------------------------------------
  // Setters, as the source writes them: the neighbour check reads the slot
  // before and the slot after the index with no guard, so index 0 always
  // fails (a read before the array) and the last index fails whenever its
  // left check passes (a read of the empty slot after the last point, or
  // past the array when it is full). Both failures are IndexOutOfRange.

  /** setPoint: an order-breaking replacement is silently ignored. */
  function SetPoint(t: Table, i: int, p: Point): (r: Result<Table>)
    requires Valid(t)
    ensures r.Ok? <==> 0 < i < |t.points| - 1
                       || (i == |t.points| - 1 && p.x <= t.points[i - 1].x)
    ensures r.Err? ==> r.error == IndexOutOfRange
    ensures r.Ok? ==> Valid(r.value) && r.value.capacity == t.capacity
    ensures r.Ok? ==> (r.value.points ==
                       if Ascending(t.points[i := p]) then t.points[i := p] else t.points)
  {
    var n := |t.points|;
    if i < 0 || i >= n then Err(IndexOutOfRange)
    else if i == 0 then Err(IndexOutOfRange)
    else if p.x <= t.points[i - 1].x then
      ReplaceKeepsOrderIff(t.points, i, p);
      Ok(t)
    else if i == n - 1 then Err(IndexOutOfRange)
    else if p.x >= t.points[i + 1].x then
      ReplaceKeepsOrderIff(t.points, i, p);
      Ok(t)
    else
      ReplaceKeepsOrderIff(t.points, i, p);
      Ok(t.(points := t.points[i := p]))
  }

  /** setPointX: an order-breaking x is refused with InvalidPlacement. */
  function SetPointX(t: Table, i: int, x: real): (r: Result<Table>)
    requires Valid(t)
    ensures r.Ok? <==> 0 < i < |t.points| - 1 && Ascending(t.points[i := Point(x, t.points[i].y)])
    ensures (i <= 0 || i >= |t.points|) ==> r == Err(IndexOutOfRange)
    ensures 0 < i < |t.points| - 1 && r.Err? ==> r.error == InvalidPlacement
    ensures r.Ok? ==> Valid(r.value) && r.value.capacity == t.capacity
    ensures r.Ok? ==> r.value.points == t.points[i := Point(x, t.points[i].y)]
  {
    var n := |t.points|;
    if i < 0 || i >= n then Err(IndexOutOfRange)
    else if i == 0 then Err(IndexOutOfRange)
    else if x <= t.points[i - 1].x then
      ReplaceKeepsOrderIff(t.points, i, Point(x, t.points[i].y));
      Err(InvalidPlacement)
    else if i == n - 1 then Err(IndexOutOfRange)
    else if x >= t.points[i + 1].x then
      ReplaceKeepsOrderIff(t.points, i, Point(x, t.points[i].y));
      Err(InvalidPlacement)
    else
      ReplaceKeepsOrderIff(t.points, i, Point(x, t.points[i].y));
      Ok(t.(points := t.points[i := Point(x, t.points[i].y)]))
  }

  /** setPointY: y carries no constraint, so only the index is checked. */
  function SetPointY(t: Table, i: int, y: real): (r: Result<Table>)
    requires Valid(t)
    ensures r.Ok? <==> 0 <= i < |t.points|
    ensures r.Err? ==> r.error == IndexOutOfRange
    ensures r.Ok? ==> Valid(r.value) && r.value.capacity == t.capacity
    ensures r.Ok? ==> |r.value.points| == |t.points|
    ensures r.Ok? ==> forall j :: 0 <= j < |t.points| ==>
              r.value.points[j].x == t.points[j].x
              && r.value.points[j].y == (if j == i then y else t.points[j].y)
  {
    if 0 <= i < |t.points| then
      ReplaceKeepsOrderIff(t.points, i, Point(t.points[i].x, y));
      Ok(t.(points := t.points[i := Point(t.points[i].x, y)]))
    else Err(IndexOutOfRange)
  }

  /** setPointX with the evidently intended neighbour check: a missing
      neighbour imposes no bound, so the end indices can be moved outwards. */
  function SetPointXGuarded(t: Table, i: int, x: real): (r: Result<Table>)
    requires Valid(t)
    ensures r.Ok? <==> 0 <= i < |t.points| && Ascending(t.points[i := Point(x, t.points[i].y)])
    ensures r.Err? ==> r.error == (if 0 <= i < |t.points| then InvalidPlacement else IndexOutOfRange)
    ensures r.Ok? ==> Valid(r.value) && r.value.capacity == t.capacity
    ensures r.Ok? ==> r.value.points == t.points[i := Point(x, t.points[i].y)]
  {
    var n := |t.points|;
    if i < 0 || i >= n then Err(IndexOutOfRange)
    else
      ReplaceKeepsOrderIff(t.points, i, Point(x, t.points[i].y));
      if (i > 0 && x <= t.points[i - 1].x) || (i < n - 1 && x >= t.points[i + 1].x) then
        Err(InvalidPlacement)
      else
        Ok(t.(points := t.points[i := Point(x, t.points[i].y)]))
  }

  /** setPoint with the evidently intended neighbour check: a missing
      neighbour imposes no bound; an order-breaking point is still ignored. */
  function SetPointGuarded(t: Table, i: int, p: Point): (r: Result<Table>)
    requires Valid(t)
    ensures r.Ok? <==> 0 <= i < |t.points|
    ensures r.Err? ==> r.error == IndexOutOfRange
    ensures r.Ok? ==> Valid(r.value) && r.value.capacity == t.capacity
    ensures r.Ok? ==> (r.value.points ==
                       if Ascending(t.points[i := p]) then t.points[i := p] else t.points)
  {
    var n := |t.points|;
    if i < 0 || i >= n then Err(IndexOutOfRange)
    else
      ReplaceKeepsOrderIff(t.points, i, p);
      if (i > 0 && p.x <= t.points[i - 1].x) || (i < n - 1 && p.x >= t.points[i + 1].x) then
        Ok(t)
      else
        Ok(t.(points := t.points[i := p]))
  }

  /** As written, setPointX refuses every move of the first point and every
      order-keeping move of the last point, while the guarded version
      accepts exactly the moves that keep the order. */
  lemma SetPointXRejectsEnds(t: Table, x: real)
    requires Valid(t)
    ensures x < t.points[1].x ==>
              SetPointX(t, 0, x) == Err(IndexOutOfRange) && SetPointXGuarded(t, 0, x).Ok?
    ensures var n := |t.points|;
            x > t.points[n - 2].x ==>
              SetPointX(t, n - 1, x) == Err(IndexOutOfRange) && SetPointXGuarded(t, n - 1, x).Ok?
  {
    var n := |t.points|;
    ReplaceKeepsOrderIff(t.points, 0, Point(x, t.points[0].y));
    ReplaceKeepsOrderIff(t.points, n - 1, Point(x, t.points[n - 1].y));
  }

  /** As written, setPoint fails for every replacement of the first point
      and for every order-keeping replacement of the last point, while the
      guarded version performs exactly the order-keeping replacements. */
  lemma SetPointRejectsEnds(t: Table, p: Point)
    requires Valid(t)
    ensures p.x < t.points[1].x ==>
              SetPoint(t, 0, p) == Err(IndexOutOfRange)
              && SetPointGuarded(t, 0, p) == Ok(t.(points := t.points[0 := p]))
    ensures var n := |t.points|;
            p.x > t.points[n - 2].x ==>
              SetPoint(t, n - 1, p) == Err(IndexOutOfRange)
              && SetPointGuarded(t, n - 1, p) == Ok(t.(points := t.points[n - 1 := p]))
  {
    var n := |t.points|;
    ReplaceKeepsOrderIff(t.points, 0, p);
    ReplaceKeepsOrderIff(t.points, n - 1, p);
  }

  // ---------------------------------------------------------------------
  // Deletion and insertion

  /** deletePoint: later points shift left; refused below three points. */
  function DeletePoint(t: Table, i: int): (r: Result<Table>)
    requires Valid(t)
    ensures r.Ok? <==> 0 <= i < |t.points| && |t.points| >= 3
    ensures (i < 0 || i >= |t.points|) ==> r == Err(IndexOutOfRange)
    ensures 0 <= i < |t.points| && |t.points| < 3 ==> r == Err(InvalidState)
    ensures r.Ok? ==> Valid(r.value) && r.value.capacity == t.capacity
    ensures r.Ok? ==> |r.value.points| == |t.points| - 1
    ensures r.Ok? ==> r.value.points == t.points[..i] + t.points[i + 1..]
    ensures r.Ok? ==> multiset(r.value.points) + multiset{t.points[i]} == multiset(t.points)
    ensures r.Ok? ==> t.points[i] !in r.value.points
  {
    var n := |t.points|;
    if i < 0 || i >= n then Err(IndexOutOfRange)
    else if n < 3 then Err(InvalidState)
    else
      SpliceOut(t.points, i);
      Ok(t.(points := t.points[..i] + t.points[i + 1..]))
  }

  /** Cutting the k-th point out of an ascending sequence keeps it ascending
      and removes exactly that point. */
  lemma SpliceOut(s: seq<Point>, k: int)
    requires Ascending(s) && 0 <= k < |s|
    ensures Ascending(s[..k] + s[k + 1..])
    ensures multiset(s[..k] + s[k + 1..]) + multiset{s[k]} == multiset(s)
    ensures s[k] !in s[..k] + s[k + 1..]
  {
    var rest := s[..k] + s[k + 1..];
    AscendingRemove(s, k);
    assert s == s[..k] + [s[k]] + s[k + 1..];
    forall j | 0 <= j < |rest| ensures rest[j] != s[k] {
      if j < k { assert rest[j] == s[j]; } else { assert rest[j] == s[j + 1]; }
    }
  }

  /** addPoint's scan: the first index, from i on, whose x is not below x. */
  function InsertIndex(ps: seq<Point>, x: real, i: nat): (k: nat)
    requires i <= |ps|
    ensures i <= k <= |ps|
    ensures forall j :: i <= j < k ==> ps[j].x < x
    ensures k < |ps| ==> x <= ps[k].x
    decreases |ps| - i
  {
    if i < |ps| && ps[i].x < x then InsertIndex(ps, x, i + 1) else i
  }

  /** Capacity after one insertion: doubled when the array is full. */
  function GrownCapacity(t: Table): (c: int)
    requires Valid(t)
    ensures c > |t.points|
    ensures c == t.capacity || c == 2 * t.capacity
  {
    if |t.points| == t.capacity then 2 * t.capacity else t.capacity
  }

  /** addPoint: inserts p in x order; refused when a stored x lies in
      [p.x, p.x + EPSILON). */
  function AddPoint(t: Table, p: Point): (r: Result<Table>)
    requires Valid(t)
    ensures r.Err? <==> exists j :: 0 <= j < |t.points| && p.x <= t.points[j].x < p.x + Epsilon
    ensures r.Err? ==> r.error == InvalidPlacement
    ensures r.Ok? ==> Valid(r.value) && |r.value.points| == |t.points| + 1
    ensures r.Ok? ==> multiset(r.value.points) == multiset(t.points) + multiset{p}
    ensures r.Ok? ==> r.value.capacity == (if |t.points| == t.capacity then 2 * t.capacity else t.capacity)
  {
    var ps := t.points;
    var k := InsertIndex(ps, p.x, 0);
    if k < |ps| && Abs(p.x - ps[k].x) < Epsilon then
      assert p.x <= ps[k].x < p.x + Epsilon;
      Err(InvalidPlacement)
    else
      SpliceAtInsertIndex(ps, p, k);
      Ok(Table(ps[..k] + [p] + ps[k..], GrownCapacity(t)))
  }

  /** When the duplicate check passes at the scan's index k, no stored x lies
      in [p.x, p.x + EPSILON), and splicing p in at k keeps the order and adds
      exactly p. */
  lemma SpliceAtInsertIndex(ps: seq<Point>, p: Point, k: nat)
    requires Ascending(ps) && k == InsertIndex(ps, p.x, 0)
    requires !(k < |ps| && Abs(p.x - ps[k].x) < Epsilon)
    ensures forall j :: 0 <= j < |ps| ==> !(p.x <= ps[j].x < p.x + Epsilon)
    ensures Ascending(ps[..k] + [p] + ps[k..])
    ensures multiset(ps[..k] + [p] + ps[k..]) == multiset(ps) + multiset{p}
  {
    NoStoredXInWindow(ps, p, k);
    AscendingInsert(ps, k, p);
    SpliceMultiset(ps, p, k);
  }

  lemma NoStoredXInWindow(ps: seq<Point>, p: Point, k: nat)
    requires Ascending(ps) && k == InsertIndex(ps, p.x, 0)
    requires !(k < |ps| && Abs(p.x - ps[k].x) < Epsilon)
    ensures forall j :: 0 <= j < |ps| ==> !(p.x <= ps[j].x < p.x + Epsilon)
  {
    forall j | 0 <= j < |ps| ensures !(p.x <= ps[j].x < p.x + Epsilon) {
      if k <= j { assert ps[k].x <= ps[j].x; }
    }
  }

  lemma SpliceMultiset(ps: seq<Point>, p: Point, k: nat)
    requires k <= |ps|
    ensures multiset(ps[..k] + [p] + ps[k..]) == multiset(ps) + multiset{p}
  {
    assert ps == ps[..k] + ps[k..];
  }

  /** The sequence addPoint stores is the old one with p spliced in at the
      first index whose x is at least p.x. */
  lemma AddPointSplices(t: Table, p: Point)
    requires Valid(t)
    requires AddPoint(t, p).Ok?
    ensures var k := InsertIndex(t.points, p.x, 0);
            AddPoint(t, p).value.points == t.points[..k] + [p] + t.points[k..]
            && (k > 0 ==> t.points[k - 1].x < p.x)
            && (k < |t.points| ==> p.x + Epsilon <= t.points[k].x)
  {
  }

  /** The evenly spaced example: three points on [0, 10] sit at 0, 5 and 10
      with y zero. */
  lemma RangeExample()
    ensures FromRange(0.0, 10.0, 3)
              == Ok(Table([Point(0.0, 0.0), Point(5.0, 0.0), Point(10.0, 0.0)], 8))
  {
    var r := FromRange(0.0, 10.0, 3);
    var ps := r.value.points;
    assert ps[0] == Point(0.0, 0.0);
    assert ps[1] == Point(5.0, 0.0);
    assert ps[2] == Point(10.0, 0.0);
    assert ps == [Point(0.0, 0.0), Point(5.0, 0.0), Point(10.0, 0.0)];
  }
}
