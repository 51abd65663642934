# ArrayTabulatedFunction in Dafny

This project models `functions/ArrayTabulatedFunction.java`. That class is an
array-backed, growable table of sample points `(x, y)`. It keeps the points in
strictly ascending x order and evaluates the sampled function by
piecewise-linear interpolation. The table holds a logical `pointsCount` that is
separate from the length (capacity) of its backing array.

The model has two layers.

- **Functional layer.** It lives in modules `Points`, `Results`, `Tabulated` and
  `Evaluation`. A table is the value `Table(points, capacity)`. Every operation
  of the class is a pure function that returns either the new table or the
  error the source would throw. The contracts that state what the source
  promises are written on this layer.
- **Imperative layer.** Module `ArrayTabulated` holds the class
  `ArrayTabulatedFunction`, with an `array<Point>` and a `count`. Its methods
  follow the source statement by statement: the constructor's order check, the
  `addPoint` scan, the doubling growth and the two shifts. Each method is proved
  to produce exactly the functional layer's result on the abstract view
  `Model()`.

The container's invariant, `Tabulated.Valid`, has three parts:

- there are at least 2 points;
- the x-values are strictly ascending (pairwise);
- the count is at most the capacity.

Every constructor establishes this invariant or fails. Every mutator preserves
it or fails. Every failed mutator leaves the table unchanged; `setPoint`
additionally ignores an order-breaking point without failing.

Coordinates are `real`, so there is no floating point. `EPSILON_DOUBLE = 1e-10`
is the real constant `Tabulated.Epsilon`. NaN becomes `None`. The four Java
failures become `Results.Error`:

- `IllegalArgumentException` becomes `InvalidArgument`;
- `IndexOutOfBoundsException` becomes `IndexOutOfRange`;
- `InappropriateFunctionPointException` becomes `InvalidPlacement`;
- `IllegalStateException` becomes `InvalidState`.

Several behaviours are modelled as the code is written:

- **End indices of the setters.** `setPoint` and `setPointX` read the slots
  before and after the index with no guard. At index 0, reading `points[-1]`
  throws, so both setters always fail there with `IndexOutOfRange`. At the last
  index, the left-neighbour check runs first. If it rejects, `setPointX` fails
  with `InvalidPlacement` and `setPoint` silently does nothing. Otherwise the
  read of `points[count]` throws. That slot is null, or lies past a full array.
  Both exceptions are modelled as `IndexOutOfRange`.
- **Evaluation at the right border.** The `getFunctionValue` loop stops at
  `pointsCount - 2`. So at the right border it returns the accumulator's
  initial 0, unless the last two x-values are closer than EPSILON.
- **Evaluation near close points.** A stored x within EPSILON of the argument
  only overwrites the accumulator. When two stored x-values are closer than
  EPSILON, the later match wins.
- **Duplicate check in `addPoint`.** `addPoint` compares the new x only with
  the first stored x that is not below it. It therefore rejects exactly when
  some stored x lies in `[x, x + EPSILON)`. A stored x just below the new x is
  accepted.
- **Minimum counts.** `deletePoint` refuses when `pointsCount < 3`, so deletion
  down to exactly 2 points is allowed. The range-and-count constructor needs 3
  points, while the range-and-values constructor needs only 2 values.

## Model

| member | source | states |
|---|---|---|
| Points.AscendingIffAdjacent | functions/ArrayTabulatedFunction.java:15-19 | checking each neighbouring pair, as the constructor does, is equivalent to strict pairwise ascending order |
| Tabulated.OrderedFrom | functions/ArrayTabulatedFunction.java:15-19 | the constructor's neighbour scan from index i accepts exactly when the suffix from i-1 is strictly ascending |
| Tabulated.FromPoints | functions/ArrayTabulatedFunction.java:10-27 | succeeds exactly for 2 or more strictly ascending points; otherwise InvalidArgument; on success it holds a copy of exactly those points, the invariant holds and the capacity is count + 10 |
| Tabulated.GridShape | functions/ArrayTabulatedFunction.java:41-45 | the grid x_i = leftX + i·h starts at leftX, ends exactly at rightX, has constant step (rightX-leftX)/(n-1) and is strictly increasing |
| Tabulated.FromRange | functions/ArrayTabulatedFunction.java:29-49 | succeeds exactly when the count is at least 3 and leftX < rightX; otherwise InvalidArgument; on success: invariant, n points from leftX to rightX with constant step, all y zero, capacity n + 5 |
| Tabulated.FromValues | functions/ArrayTabulatedFunction.java:51-73 | succeeds exactly when there are at least 2 values and leftX < rightX; otherwise InvalidArgument; on success: invariant, evenly spaced x from leftX to rightX, y_i = values[i], capacity count + 5 |
| Tabulated.RangeExample | functions/ArrayTabulatedFunction.java:29-49 | three points on [0, 10] are (0,0), (5,0), (10,0) with capacity 8 |
| Tabulated.LeftBorder | functions/ArrayTabulatedFunction.java:76-79 | the left border is a stored x and no stored x is smaller |
| Tabulated.RightBorder | functions/ArrayTabulatedFunction.java:81-84 | the right border is a stored x and no stored x is larger |
| Tabulated.GetPoint | functions/ArrayTabulatedFunction.java:118-124 | succeeds exactly for indices in [0, count) and then returns that point; otherwise IndexOutOfRange |
| Tabulated.GetPointX | functions/ArrayTabulatedFunction.java:142-148 | bounds-checked exactly like GetPoint; returns that point's x |
| Tabulated.GetPointY | functions/ArrayTabulatedFunction.java:168-174 | bounds-checked exactly like GetPoint; returns that point's y |
| Tabulated.SetPoint | functions/ArrayTabulatedFunction.java:126-140 | succeeds exactly at interior indices, or at the last index when the new x is not above its left neighbour; on success the point is replaced if and only if the replacement keeps the order, and otherwise nothing changes; all failures are IndexOutOfRange |
| Tabulated.SetPointX | functions/ArrayTabulatedFunction.java:150-166 | succeeds exactly at an interior index whose new x keeps the order; then only that x changes; an interior order break is InvalidPlacement; index 0 or out of range is IndexOutOfRange |
| Tabulated.SetPointY | functions/ArrayTabulatedFunction.java:176-182 | succeeds exactly for indices in [0, count); changes only the y at that index; all x-values and the invariant are kept |
| Tabulated.SetPointXGuarded | functions/ArrayTabulatedFunction.java:150-166 | corrected setPointX: succeeds exactly for an in-range index whose new x keeps the order, with a missing neighbour imposing no bound |
| Tabulated.SetPointGuarded | functions/ArrayTabulatedFunction.java:126-140 | corrected setPoint: succeeds for every in-range index and replaces the point if and only if that keeps the order |
| Tabulated.SetPointXRejectsEnds | functions/ArrayTabulatedFunction.java:158-163 | setPointX as written fails with IndexOutOfRange on order-keeping moves of the first and the last point, which the corrected version accepts |
| Tabulated.SetPointRejectsEnds | functions/ArrayTabulatedFunction.java:132-137 | setPoint as written fails with IndexOutOfRange on order-keeping replacements of the first and the last point, which the corrected version performs |
| Tabulated.DeletePoint | functions/ArrayTabulatedFunction.java:184-196 | an index outside [0, count) is IndexOutOfRange; fewer than 3 points is InvalidState; otherwise the sequence with that element removed, one point fewer, same capacity, invariant kept, and the removed point no longer present |
| Tabulated.InsertIndex | functions/ArrayTabulatedFunction.java:200-203 | the scan stops at the first index whose x is not below the new x: every earlier x is smaller |
| Tabulated.AddPoint | functions/ArrayTabulatedFunction.java:198-223 | fails with InvalidPlacement exactly when some stored x lies in [x, x + EPSILON); otherwise one more point, the old points plus the new one as a multiset, invariant kept, and capacity doubled exactly when the array was full |
| Tabulated.AddPointSplices | functions/ArrayTabulatedFunction.java:218-222 | the stored sequence after insertion is old[..k] + [p] + old[k..] at the scan's index k, strictly between its neighbours |
| Evaluation.InterpolateEndpoints | functions/ArrayTabulatedFunction.java:100 | the interpolation formula passes through both points of the pair |
| Evaluation.FunctionValue | functions/ArrayTabulatedFunction.java:86-111 | undefined (None) exactly when x lies outside [left border, right border] |
| Evaluation.FunctionValueBetween | functions/ArrayTabulatedFunction.java:93-102 | strictly between neighbours x_k and x_k+1 the result is the linear interpolation between them |
| Evaluation.FunctionValueAtNode | functions/ArrayTabulatedFunction.java:104-106 | at a stored x other than the last, with its right neighbour at least EPSILON away, the result is that point's y |
| Evaluation.FunctionValueContinuousAtNode | functions/ArrayTabulatedFunction.java:97-106 | at an interior stored x whose right neighbour is at least EPSILON away, the result equals the interpolation of both adjoining pairs there, so the evaluated function is continuous at that point |
| Evaluation.FunctionValueAtRightBorder | functions/ArrayTabulatedFunction.java:88-110 | at the right border, when the last gap is at least EPSILON, the result is 0 and not the last y |
| Evaluation.RightBorderCounterexample | functions/ArrayTabulatedFunction.java:86-111 | the table (0,0), (1,1), (2,4) evaluates to 0 at x = 2, where the stored y is 4 |
| Evaluation.Evaluate | functions/ArrayTabulatedFunction.java:86-111 | corrected evaluation: undefined exactly outside the domain |
| Evaluation.EvaluateAtNode | functions/ArrayTabulatedFunction.java:104-106 | corrected evaluation returns the stored y at every stored x, the last one included |
| Evaluation.EvaluateBetween | functions/ArrayTabulatedFunction.java:97-101 | corrected evaluation interpolates linearly strictly between neighbours |
| Evaluation.FunctionValueAgrees | functions/ArrayTabulatedFunction.java:86-111 | when no two stored x are closer than EPSILON, the source's evaluation equals the corrected one everywhere except at the right border |
| Evaluation.AddThenEvaluate | functions/ArrayTabulatedFunction.java:198-223 | after a successful insertion, the corrected evaluation returns the inserted y at the inserted x |
| Evaluation.AddThenFunctionValue | functions/ArrayTabulatedFunction.java:198-223 | after a successful insertion below the right border, the source's evaluation returns the inserted y at the inserted x |
| Evaluation.AddAtEndThenFunctionValue | functions/ArrayTabulatedFunction.java:198-223 | a point appended at least EPSILON beyond the right border is accepted, and the source's evaluation then gives 0 at its x |
| Evaluation.WorkedExample | functions/ArrayTabulatedFunction.java:86-111 | the table (0,0), (1,1), (2,4) is accepted and gives 0.5 at 0.5, 2.5 at 1.5 and None at -1 |
| Evaluation.WorkedExampleInsert | functions/ArrayTabulatedFunction.java:198-223 | inserting (3,9) into that table gives four points and the value 6.5 at 2.5 |
| ArrayTabulated.ArrayTabulatedFunction.FromPoints | functions/ArrayTabulatedFunction.java:10-27 | the array constructor, with its pairwise check loop and copy loop, fails or succeeds exactly like Tabulated.FromPoints and then holds its table |
| ArrayTabulated.ArrayTabulatedFunction.FromRange | functions/ArrayTabulatedFunction.java:29-49 | the range-and-count constructor fails exactly like Tabulated.FromRange, with the same error, and otherwise fills a fresh array with exactly that table's grid |
| ArrayTabulated.ArrayTabulatedFunction.FromValues | functions/ArrayTabulatedFunction.java:51-73 | the range-and-values constructor fails exactly like Tabulated.FromValues, with the same error, and otherwise fills a fresh array with exactly that table's grid |
| ArrayTabulated.ArrayTabulatedFunction.LeftDomainBorder | functions/ArrayTabulatedFunction.java:76-79 | reading the first array slot gives Tabulated.LeftBorder of the stored table |
| ArrayTabulated.ArrayTabulatedFunction.RightDomainBorder | functions/ArrayTabulatedFunction.java:81-84 | reading the slot at count - 1 gives Tabulated.RightBorder of the stored table |
| ArrayTabulated.ArrayTabulatedFunction.FunctionValue | functions/ArrayTabulatedFunction.java:86-111 | the loop over the array computes exactly Evaluation.FunctionValue |
| ArrayTabulated.ArrayTabulatedFunction.PointsCount | functions/ArrayTabulatedFunction.java:114-116 | the logical count is the number of points in the stored table, not the array length |
| ArrayTabulated.ArrayTabulatedFunction.GetPoint | functions/ArrayTabulatedFunction.java:118-124 | the bounds check against count and the slot read give exactly Tabulated.GetPoint |
| ArrayTabulated.ArrayTabulatedFunction.GetPointX | functions/ArrayTabulatedFunction.java:142-148 | the bounds check against count and the slot read give exactly Tabulated.GetPointX |
| ArrayTabulated.ArrayTabulatedFunction.GetPointY | functions/ArrayTabulatedFunction.java:168-174 | the bounds check against count and the slot read give exactly Tabulated.GetPointY |
| ArrayTabulated.ArrayTabulatedFunction.FindInsertIndex | functions/ArrayTabulatedFunction.java:200-203 | the while loop over the array stops at Tabulated.InsertIndex |
| ArrayTabulated.ArrayTabulatedFunction.Grow | functions/ArrayTabulatedFunction.java:211-215 | a full array is replaced by one of twice the length holding the same points |
| ArrayTabulated.ArrayTabulatedFunction.InsertAt | functions/ArrayTabulatedFunction.java:218-222 | the right shift and store give old[..k] + [p] + old[k..] in the same array |
| ArrayTabulated.ArrayTabulatedFunction.AddPoint | functions/ArrayTabulatedFunction.java:198-223 | the array insertion reports and stores exactly what Tabulated.AddPoint gives, keeping the invariant; the array afterwards is the old one or a fresh one, so further mutations may follow |
| ArrayTabulated.ArrayTabulatedFunction.RemoveAt | functions/ArrayTabulatedFunction.java:193-194 | the left shift gives old[..i] + old[i+1..] in the same array, with one point fewer |
| ArrayTabulated.ArrayTabulatedFunction.DeletePoint | functions/ArrayTabulatedFunction.java:184-196 | the left shift stores exactly what Tabulated.DeletePoint gives, keeping the invariant, in the same array |
| ArrayTabulated.ArrayTabulatedFunction.SetPoint | functions/ArrayTabulatedFunction.java:126-140 | the in-place update, with its unguarded neighbour reads and silent no-op, reports and stores exactly what Tabulated.SetPoint gives |
| ArrayTabulated.ArrayTabulatedFunction.SetPointX | functions/ArrayTabulatedFunction.java:150-166 | the in-place update reports and stores exactly what Tabulated.SetPointX gives |
| ArrayTabulated.ArrayTabulatedFunction.SetPointY | functions/ArrayTabulatedFunction.java:176-182 | the in-place update reports and stores exactly what Tabulated.SetPointY gives |

## Left out

- Java serialisation (`Serializable`) is I/O plumbing and is not modelled.
- IEEE-754 `double` is not modelled. There is no rounding and no NaN
  propagation, and the grid x-values are exact reals. So the last grid x equals
  rightX exactly, which floating point does not guarantee.
- Java `null` arguments are not modelled: a null point array, a null values
  array, or a null point passed to `addPoint`/`setPoint`. A `seq` cannot be
  null.
- Exception messages and exact exception classes are not modelled. The
  `NullPointerException` from reading the empty slot after the last point is
  folded into `IndexOutOfRange`, like the `ArrayIndexOutOfBoundsException` at
  index -1.
- Java `int` overflow of `pointsCount + 10`, `pointsCount + 5` and
  `points.length * 2` is not modelled. Counts are unbounded.
- The trailing slot that `deletePoint` sets to null is not modelled. Slots
  beyond `count` are outside the abstract view and hold arbitrary points.
- `FunctionPoint` and the `TabulatedFunction` interface are not part of this
  model. The point is the value datatype `Point`, so every defensive copy the
  source makes is implicit.
- Evaluation.FunctionValueAtNode: the value at a stored x is stated only when
  the next stored x is at least EPSILON away. When stored points are closer
  than EPSILON, the later match overwrites the accumulator, and this lemma says
  nothing about that case.

## Findings

| source | as written | input that shows it | evidently intended | confidence | as-written member | corrected member |
|---|---|---|---|---|---|---|
| functions/ArrayTabulatedFunction.java:93 | the evaluation loop stops before the last point and the accumulator starts at 0, so the right border evaluates to 0 | points (0,0), (1,1), (2,4); evaluate at x = 2 gives 0 | the last stored y (4), as at every other stored x | high; not executed | Evaluation.RightBorderCounterexample | Evaluation.EvaluateAtNode |
| functions/ArrayTabulatedFunction.java:158-161 | setPointX reads points[index-1] and points[index+1] unguarded, so index 0 always throws, and the last index throws whenever the left check passes | any table; setPointX(0, x) with x below the second x | a missing neighbour imposes no bound | high; not executed | Tabulated.SetPointXRejectsEnds | Tabulated.SetPointXGuarded |
| functions/ArrayTabulatedFunction.java:132-135 | setPoint has the same unguarded neighbour reads | any table; setPoint(0, p) with p.x below the second x | a missing neighbour imposes no bound | high; not executed | Tabulated.SetPointRejectsEnds | Tabulated.SetPointGuarded |

The class in `ArrayTabulated` mirrors the source as written, including these
three behaviours. The corrected definitions are the functional specification
of the intended behaviour. Their properties are proved on the same `Table`
values: exact reproduction of every stored point, and setters bounded only by
the neighbours that exist. `FunctionValueAgrees` connects the two evaluations.
