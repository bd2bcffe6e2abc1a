# Cubic B-spline of LabelCatheter, modelled in Dafny

LabelCatheter lets a user click knot points on a video frame and draws
the cubic B-spline through them. `Bspline<_Tp,dim>` (`include/bspline.h`)
keeps two point lists in step:

- the **knot points**, which the curve passes through;
- the **control points**, which generate the curve.

Adding or moving a knot recomputes the control polygon as `B^-1 * knots`.
Adding or moving a control point recomputes the knots as `B * ctrl`.
`B` is the banded basis matrix of an OPEN or CLOSED spline. Either
conversion only happens once its input holds more than three points.

A curve segment `i` at parameter `t` blends the four control points
`i-1 .. i+2`. The weights are the power row of `t` (or of a derivative)
times the constant cubic B-spline matrix. `GetPtIdx` maps the
out-of-range indices at the ends: CLOSED wraps them, OPEN clamps them.

The model is split into these modules:

- `Points`: 2-D points with exact real coordinates.
- `MachineInts`: the `size_t` and `int` conversions the index code performs.
- `Basis`: the matrix `B`, and `B * ctrl` as a matrix-building loop plus a
  multiplication loop.
- `Recurrence` and `Solve`: an exact solver for `B * ctrl = knots`. The
  lemmas here show that it always succeeds and that its answer is unique,
  so it is the value `B^-1 * knots` denotes.
- `Blending`: the segment weights.
- `Splines`: the `Bspline` class itself, its index mapping, segment
  evaluation, and the curve properties.

The class invariant `Bspline.Valid` says two things:

- A ready curve's control polygon is exactly the one whose knots are the
  knot list.
- A polygon of more than three points is never shorter than the knot list.

Every mutating method keeps this invariant.

## Model

| member | source | states |
|---|---|---|
| Splines.Bspline.constructor | include/bspline.h:20-24 | a new spline is OPEN, has no points, and a level of detail of 30 |
| Splines.Bspline.IsReady | include/bspline.h:38-41 | the curve is ready exactly when both lists hold more than three points; then every segment -1 .. n - 1 that the drawing and length loops visit can be evaluated (ReadyWalkEvaluates) |
| Splines.Bspline.Clear | include/bspline.h:32-36 | both point lists become empty; type and level of detail are kept; the invariant holds |
| Splines.ReadyWalkEvaluates | include/bspline.h:144-145 | on a ready curve every segment -1 .. n - 1 that the guarded loops visit has all four control points and yields a point for every t in [0, 1] |
| Splines.ReadyMeansConsistent | include/bspline.h:38-41 | once the curve is ready, both lists have the same length and the control polygon is the only polygon whose knots are the knot list |
| Splines.Bspline.AddKnotPt | include/bspline.h:43-48 | the knot is appended; with more than three knots the controls solve B * ctrl = knots, otherwise they are untouched |
| Splines.Bspline.AddKnotPts | include/bspline.h:50-54 | the knot list is replaced; the controls follow as for AddKnotPt |
| Splines.Bspline.AddCtrlPt | include/bspline.h:56-61 | the control point is appended; with more than three of them the knots become B * ctrl, otherwise they are untouched |
| Splines.Bspline.AddCtrlPts | include/bspline.h:63-67 | the control polygon is replaced; the knots follow as for AddCtrlPt |
| Splines.Bspline.SetKnotPt | include/bspline.h:69-73 | exactly the knot at column GetPtIdx(int(p)) is replaced, then the controls are re-solved |
| Splines.Bspline.SetCtrlPt | include/bspline.h:75-79 | exactly the control point at column GetPtIdx(int(p)) is replaced, then the knots are recomputed |
| Splines.Bspline.SetBsplineType | include/bspline.h:124-128 | the type changes and the controls are re-solved for it; re-selecting the current type leaves a ready curve's controls unchanged |
| Splines.Bspline.CubicIntplt | include/bspline.h:225-260 | a value exists exactly when the polygon has at least four points, 0 <= t <= 1 and the order is at most 3 |
| Splines.Bspline.GetPtIdx | include/bspline.h:265-290 | CLOSED: indices within one lap of the polygon map to i mod n, all others land outside the polygon; OPEN: the column nearest to i among max(#ctrl, #knot) columns, or, when both lists are empty, 0 for a negative index and 2^64 - 1 otherwise |
| Splines.SegmentIndicesInRange | include/bspline.h:252-257 | the four columns of segment i exist for every OPEN segment, and for a CLOSED segment exactly when 1 - n <= i <= 2n - 3 |
| Splines.Bspline.CvtCtrlToKnotCubic | include/bspline.h:293-331 | with more than three control points the knots become B * ctrl, otherwise nothing changes |
| Splines.Bspline.CvtKnotToCtrlCubic | include/bspline.h:333-374 | with more than three knots the controls solve B * ctrl = knots, otherwise nothing changes |
| Basis.Coef | include/bspline.h:305-324 | entry (r, j) of B: the OPEN identity end rows and 1/6, 2/3, 1/6 bands, the CLOSED wrapped bands; every entry lies in [0, 1] |
| Basis.KnotRow | include/bspline.h:305-328 | knot r as its banded row of B gives it from the control polygon; a polygon of identical points yields that point |
| Basis.KnotsOf | include/bspline.h:305-328 | the knot list B * ctrl: one knot per control point, knot r given by its banded row |
| Basis.BuildBasis | include/bspline.h:303-326 | builds a fresh n x n array whose entries are the OPEN or CLOSED banded coefficients |
| Basis.MulBasis | include/bspline.h:328 | the matrix product of that array with the polygon equals the knots of the banded rows |
| Basis.BandedProduct | include/bspline.h:305-328 | a dense row of B times the polygon is the three-term banded combination |
| Basis.RowsSumToOne | include/bspline.h:305-326 | every row of B sums to one |
| Basis.ConstantPolygonKnots | include/bspline.h:305-328 | a polygon of identical points has those points as its knots |
| Basis.OpenEndsPinned | include/bspline.h:307-308 | OPEN: the first and last knots are the first and last control points |
| Solve.SolveBasis | include/bspline.h:344-371 | returns a polygon of the same length whose knots are exactly the given knots |
| Solve.SolveOpen | include/bspline.h:344-357 | the OPEN system is solved for every n > 3 |
| Solve.SolveClosed | include/bspline.h:359-369 | the CLOSED system is solved for every n > 3 |
| Solve.ControlsDetermined | include/bspline.h:356 | B is injective: two polygons with the same knots are equal, so the inverse exists |
| Recurrence.OpenPivotNonzero | include/bspline.h:356 | the pivot of the OPEN sweep is never zero |
| Recurrence.ClosedPivotNonzero | include/bspline.h:368 | the 2x2 determinant that closes the CLOSED sweep is never zero |
| Blending.MonomialRow | include/bspline.h:237-248 | the row (1, t, t^2, t^3) or its derivative of the given order; the first `order` entries are zero |
| Blending.Weights | include/bspline.h:236-249 | the position weights sum to one and the derivative weights sum to zero |
| Blending.WeightsAreUniformBasis | include/bspline.h:22-23 | the matrix product yields the uniform cubic basis functions (1-t)^3/6, ... , t^3/6 |
| Blending.WeightsNonnegative | include/bspline.h:237-239 | every position weight is non-negative on [0, 1] |
| Blending.WeightsSymmetric | include/bspline.h:237-239 | replacing t by 1 - t reverses the position weights |
| Blending.WeightsAtStart | include/bspline.h:236-249 | the weights at t = 0 for orders 0, 1 and 2 |
| Blending.WeightsAtEnd | include/bspline.h:236-249 | the weights at t = 1 for orders 0, 1 and 2: those at t = 0 shifted one point on |
| Blending.Blend4 | include/bspline.h:251-257 | the combination of the four control points around a segment with the four weights; four equal points blend to that point scaled by the weight sum |
| Blending.BlendConstant | include/bspline.h:251-257 | four equal points blend to that point, and to zero for any derivative |
| Blending.BlendInBox | include/bspline.h:251-257 | blending with convex weights stays inside any box around the four points |
| Splines.OpenInteriorKnot | include/bspline.h:225-260 | OPEN: segment i starts at knot i for 1 <= i <= n - 2 |
| Splines.OpenEndpointsPinned | include/bspline.h:225-260 | OPEN: segment -1 starts at the first knot and segment n - 1 ends at the last one |
| Splines.ClosedKnotInterpolated | include/bspline.h:225-260 | CLOSED: segment k + 1 starts at knot k |
| Splines.SegmentsJoin | include/bspline.h:225-260 | the end of segment i equals the start of segment i + 1 in position, first and second derivative |
| Splines.ClosedCurvePeriodic | include/bspline.h:270-277 | CLOSED: segment i + n is segment i |
| Splines.ClosedLoopCloses | include/bspline.h:225-290 | CLOSED: the last segment ends where segment 0 starts, in position and first and second derivative |
| Splines.WalkedSegments | include/bspline.h:145 | the n + 1 segment indices -1 .. n - 1 that the arc-length loop visits |
| Splines.ClosedWalkRepeatsSegment | include/bspline.h:145 | the arc-length walk over segments -1 .. n - 1 visits two indices that are the same CLOSED curve piece |
| Splines.ClosedSegmentsCoverOnce | include/bspline.h:145 | every evaluable CLOSED segment is the same piece as the one segment of 0 .. n - 1 congruent to it modulo n |
| Splines.ConstantPolygonCurve | include/bspline.h:225-260 | a polygon of one repeated point draws that point, with every derivative zero |
| Splines.ConstantKnotsCurve | include/bspline.h:333-374 | a ready curve through identical knots has every control point at that knot |
| Splines.CurveInControlBox | include/bspline.h:225-260 | every curve point lies in any box holding the four control points of its segment |
| MachineInts.ToSize | include/bspline.h:274-286 | the size_t result is the unique value below 2^64 congruent to the input |
| MachineInts.SizeToInt | include/bspline.h:71 | narrowing a size_t index to int gives the unique 32-bit value congruent to it |

## Left out

- Points are fixed to two dimensions, matching the application's `Bspline<float,2>`. Coordinates are exact reals, so float rounding is not modelled.
- Splines.Bspline.CvtKnotToCtrlCubic: Eigen's general `B.inverse()` and the product with it are replaced by an exact banded solve. Its result is proved to be the unique solution of B * ctrl = knots, so it equals B^-1 * knots in exact arithmetic. The float rounding of the inversion is not captured.
- Splines.Bspline.CubicIntplt: the source returns an uninitialised vector when the polygon has fewer than four points or t is outside [0, 1]. The model returns None. For a derivative order above 3 the source blends with an uninitialised weight vector; the model also returns None there.
- Splines.Bspline.CubicIntplt: the diagnostic line printed to standard error is left out.
- Splines.Bspline.GetPtIdx: the index narrowing and wrap-around are written out for a 32-bit `int` and a 64-bit `size_t`. Point counts are assumed below 2^63, the largest column count of an Eigen matrix (`CountsFit`).
- Splines.Bspline.CubicIntplt requires all four columns of segment i to exist. For a CLOSED segment outside 1 - n .. 2n - 3 the source reads outside the polygon, which has no defined result. The drawing and arc-length loops only ask for segments -1 .. n - 1, which meet it.
- Splines.Bspline.SetKnotPt and Splines.Bspline.SetCtrlPt require the selected column to exist. Eigen's `col()` has no defined behaviour otherwise.
- `GetLength` and `KnotEquidist` are not modelled. They measure arc length with square roots of floats, and `KnotEquidist` loops until a float tolerance is met, with no bound on the number of rounds. Only the list of segments that `GetLength` walks is modelled (see Findings).
- The getters (`GetKnotPts`, `GetKnotPt`, `GetCtrlPt`, the first/last point getters, the point counts), `SetLOD`/`GetLOD`, `GetBsplineType` and the destructor are not modelled. They only read or return fields.
- `include/extra/pango_drawer.h`, `src/label_catheter.cpp`, `main.cpp` and `src/video_exporter.cpp` (drawing, user input, video output) are not part of this model.

Three behaviours of the code that the model keeps as they are:

- A CLOSED row r uses columns r, r+1 and r+2 (include/bspline.h:322-324). So a CLOSED curve passes through knot k at the start of segment k + 1 (`ClosedKnotInterpolated`).
- An OPEN curve reaches its first knot at the start of segment -1, where the drawing loops start (`OpenEndpointsPinned`).
- Below four control points `CubicIntplt` returns an uninitialised vector, modelled as None.

## Findings

| source | as written | input that shows it | evidently intended | confidence | as-written member | corrected member |
|---|---|---|---|---|---|---|
| include/bspline.h:145 | the arc-length loop walks segments -1 .. n - 1 for both topologies | any CLOSED curve: segment -1 and segment n - 1 blend the same four control points, so `GetLength` adds that segment's length twice | a CLOSED curve walks the n segments 0 .. n - 1, each piece once | medium, not executed | Splines.ClosedWalkRepeatsSegment | Splines.ClosedSegmentsCoverOnce |
