/**
 * The Bspline object: a list of knot points the curve passes through and
 * the control polygon that produces it, kept in step after every change.
 * Changing the knots recomputes the control points (B^-1 * knots);
 * changing the control points recomputes the knots (B * ctrl). Either
 * conversion only happens once its input holds more than three points.
 */
module Splines {
  import opened Wrappers
  import opened Points
  import opened MachineInts
  import opened Basis
  import opened Solve
  import opened Blending

  /** c is a control polygon whose knots are exactly knots. */
  predicate IsControlPolygon(topology: Topology, c: seq<Point>, knots: seq<Point>) {
    |c| == |knots| > 3 && KnotsOf(topology, c) == knots
  }

  /** The distance between two indices. */
  function Dist(a: int, b: int): nat {
    if a >= b then a - b else b - a
  }

  /** Euclidean remainder of an index at most one lap below zero. */
  lemma ModOfNegative(n: int, i: int)
    requires 0 < n && -n <= i < 0
    ensures i % n == n + i
  {
    assert i == n * (-1) + (n + i);
  }

  /** The facts about wrapping a signed index once around n columns that GetPtIdx relies on. */
  lemma CyclicIndex(n: int, i: int)
    requires 0 <= n < IndexLimit && IsInt32(i)
    ensures -n <= i < 0 ==> ToSize(n + i) == n + i && i % n == n + i
    ensures i < -n ==> ToSize(n + i) >= n
    ensures 0 <= i < n ==> i % n == i
    ensures n <= i < 2 * n ==> i % n == i - n
  {
    if -n <= i < 0 {
      SizeOfSmall(n + i);
      ModOfNegative(n, i);
    } else if i < -n {
      SizeOfNegative(n + i);
    } else if 0 <= i < 2 * n {
      ModWrap(i, n);
    }
  }

  /** The size_t value of m - 1: the last column, or 2^64 - 1 when there is none. */
  lemma LastIndex(m: nat)
    requires m < IndexLimit
    ensures ToSize(m - 1) == if m > 0 then m - 1 else SizeModulus - 1
  {
    if m > 0 {
      SizeOfSmall(m - 1);
    } else {
      SizeOfNegative(-1);
    }
  }

  class Bspline {
    var topology: Topology
    var knotPts: seq<Point>
    var ctrlPts: seq<Point>
    /** Level of detail: samples per segment when the curve is measured. */
    var lod: nat

    /**
     * Whenever the curve is ready, the control polygon is the one whose knots
     * are knotPts; a polygon of more than three points is never shorter than
     * the knot list (knots only outgrow it while they are too few to convert).
     */
    ghost predicate Valid()
      reads this
    {
      (|ctrlPts| > 3 ==> |knotPts| <= |ctrlPts|) &&
      (IsReady() ==> IsControlPolygon(topology, ctrlPts, knotPts))
    }

    constructor ()
      ensures Valid()
      ensures topology == Open && knotPts == [] && ctrlPts == [] && lod == 30
    {
      topology := Open;
      knotPts := [];
      ctrlPts := [];
      lod := 30;
    }

    method Clear()
      modifies this
      ensures Valid()
      ensures knotPts == [] && ctrlPts == []
      ensures topology == old(topology) && lod == old(lod)
    {
      knotPts := [];
      ctrlPts := [];
    }

    /** Both point lists have fewer columns than an Eigen matrix can hold. */
    predicate CountsFit()
      reads this
    {
      |ctrlPts| < IndexLimit && |knotPts| < IndexLimit
    }

    /** A ready curve has enough control points for every segment to be evaluated. */
    predicate IsReady()
      reads this
      ensures IsReady() ==> |ctrlPts| >= 4 && |knotPts| >= 4
    {
      |knotPts| > 3 && |ctrlPts| > 3
    }

    method AddKnotPt(pt: Point)
      modifies this
      ensures Valid()
      ensures knotPts == old(knotPts) + [pt]
      ensures |knotPts| > 3 ==> IsControlPolygon(topology, ctrlPts, knotPts)
      ensures |knotPts| <= 3 ==> ctrlPts == old(ctrlPts)
      ensures topology == old(topology) && lod == old(lod)
    {
      knotPts := knotPts + [pt];
      CvtKnotToCtrlCubic();
    }

    method AddKnotPts(pts: seq<Point>)
      modifies this
      ensures Valid()
      ensures knotPts == pts
      ensures |pts| > 3 ==> IsControlPolygon(topology, ctrlPts, pts)
      ensures |pts| <= 3 ==> ctrlPts == old(ctrlPts)
      ensures topology == old(topology) && lod == old(lod)
    {
      knotPts := pts;
      CvtKnotToCtrlCubic();
    }

    method AddCtrlPt(pt: Point)
      modifies this
      ensures Valid()
      ensures ctrlPts == old(ctrlPts) + [pt]
      ensures knotPts == if |ctrlPts| > 3 then KnotsOf(topology, ctrlPts) else old(knotPts)
      ensures topology == old(topology) && lod == old(lod)
    {
      ctrlPts := ctrlPts + [pt];
      CvtCtrlToKnotCubic();
    }

    method AddCtrlPts(pts: seq<Point>)
      modifies this
      ensures Valid()
      ensures ctrlPts == pts
      ensures knotPts == if |pts| > 3 then KnotsOf(topology, pts) else old(knotPts)
      ensures topology == old(topology) && lod == old(lod)
    {
      ctrlPts := pts;
      CvtCtrlToKnotCubic();
    }

    /** Replace the knot at the column the size_t index p selects after narrowing to int. */
    method SetKnotPt(p: nat, pt: Point)
      requires Valid()
      requires p < SizeModulus && CountsFit() && GetPtIdx(SizeToInt(p)) < |knotPts|
      modifies this
      ensures Valid()
      ensures knotPts == old(knotPts)[old(GetPtIdx(SizeToInt(p))) := pt]
      ensures |knotPts| > 3 ==> IsControlPolygon(topology, ctrlPts, knotPts)
      ensures |knotPts| <= 3 ==> ctrlPts == old(ctrlPts)
      ensures topology == old(topology) && lod == old(lod)
    {
      var idx := GetPtIdx(SizeToInt(p));
      knotPts := knotPts[idx := pt];
      CvtKnotToCtrlCubic();
    }

    /** Replace the control point at the column the size_t index p selects after narrowing to int. */
    method SetCtrlPt(p: nat, pt: Point)
      requires p < SizeModulus && CountsFit() && GetPtIdx(SizeToInt(p)) < |ctrlPts|
      modifies this
      ensures Valid()
      ensures ctrlPts == old(ctrlPts)[old(GetPtIdx(SizeToInt(p))) := pt]
      ensures knotPts == if |ctrlPts| > 3 then KnotsOf(topology, ctrlPts) else old(knotPts)
      ensures topology == old(topology) && lod == old(lod)
    {
      var idx := GetPtIdx(SizeToInt(p));
      ctrlPts := ctrlPts[idx := pt];
      CvtCtrlToKnotCubic();
    }

    /**
     * Switch between OPEN and CLOSED and recompute the control polygon from
     * the knots; re-selecting the current type leaves a ready curve as it was.
     */
    method SetBsplineType(t: Topology)
      requires Valid()
      modifies this
      ensures Valid()
      ensures topology == t && knotPts == old(knotPts) && lod == old(lod)
      ensures |knotPts| > 3 ==> IsControlPolygon(t, ctrlPts, knotPts)
      ensures |knotPts| <= 3 ==> ctrlPts == old(ctrlPts)
      ensures old(IsReady()) && t == old(topology) ==> ctrlPts == old(ctrlPts)
    {
      ghost var before := ctrlPts;
      topology := t;
      CvtKnotToCtrlCubic();
      if old(IsReady()) && t == old(topology) {
        ControlsDetermined(t, ctrlPts, before);
      }
    }

    /**
     * The column a signed point index selects: CLOSED wraps it once around
     * the control polygon in size_t arithmetic, OPEN clamps it to the longer
     * of the two point lists.
     */
    function GetPtIdx(i: int): (r: nat)
      requires IsInt32(i) && CountsFit()
      reads this
      ensures var n := |ctrlPts|;
        topology == Closed && -n <= i < 2 * n ==> r == i % n
      ensures var n := |ctrlPts|;
        topology == Closed && !(-n <= i < 2 * n) ==> r >= n
      ensures var m := if |ctrlPts| >= |knotPts| then |ctrlPts| else |knotPts|;
        topology == Open && m > 0 ==> r < m && forall j :: 0 <= j < m ==> Dist(r, i) <= Dist(j, i)
      ensures var m := if |ctrlPts| >= |knotPts| then |ctrlPts| else |knotPts|;
        topology == Open && m == 0 ==> r == if i < 0 then 0 else SizeModulus - 1
    {
      var n := |ctrlPts|;
      var m := if |ctrlPts| >= |knotPts| then |ctrlPts| else |knotPts|;
      CyclicIndex(n, i);
      LastIndex(m);
      match topology
      case Closed =>
        if i < 0 then ToSize(n + i)
        else if i >= n then i - n
        else i
      case Open =>
        if i < 0 then 0
        else if i >= m then ToSize(m - 1)
        else i
    }

    /** All four control points around segment i are columns of the polygon. */
    predicate SegmentInRange(i: int)
      requires IsInt32(i - 1) && IsInt32(i + 2) && CountsFit()
      reads this
    {
      GetPtIdx(i - 1) < |ctrlPts| && GetPtIdx(i) < |ctrlPts|
        && GetPtIdx(i + 1) < |ctrlPts| && GetPtIdx(i + 2) < |ctrlPts|
    }

    /**
     * The point (order 0) or a derivative (order 1 .. 3) of segment i at
     * parameter t: the four control points around the segment, blended with
     * the weights of t. None when the polygon has fewer than four points, t
     * lies outside [0, 1], or the order is above 3.
     */
    function CubicIntplt(i: int, t: real, order: nat): (r: Option<Point>)
      requires IsInt32(i - 1) && IsInt32(i + 2) && CountsFit()
      requires |ctrlPts| >= 4 && 0.0 <= t <= 1.0 ==> SegmentInRange(i)
      reads this
      ensures r.Some? <==> |ctrlPts| >= 4 && 0.0 <= t <= 1.0 && order <= 3
    {
      if |ctrlPts| < 4 then None
      else if t > 1.0 || t < 0.0 then None
      else if order > 3 then None
      else
        Some(Blend4(Weights(t, order), ctrlPts[GetPtIdx(i - 1)], ctrlPts[GetPtIdx(i)],
                    ctrlPts[GetPtIdx(i + 1)], ctrlPts[GetPtIdx(i + 2)]))
    }

    /** knots := B * ctrl, once the polygon has more than three points. */
    method CvtCtrlToKnotCubic()
      modifies this
      ensures ctrlPts == old(ctrlPts) && topology == old(topology) && lod == old(lod)
      ensures knotPts == if |ctrlPts| > 3 then KnotsOf(topology, ctrlPts) else old(knotPts)
    {
      var n := |ctrlPts|;
      if n > 3 {
        var B := BuildBasis(topology, n);
        knotPts := MulBasis(B, topology, ctrlPts);
      }
    }

    /** ctrl := B^-1 * knots, once there are more than three knots. */
    method CvtKnotToCtrlCubic()
      modifies this
      ensures knotPts == old(knotPts) && topology == old(topology) && lod == old(lod)
      ensures |knotPts| > 3 ==> IsControlPolygon(topology, ctrlPts, knotPts)
      ensures |knotPts| <= 3 ==> ctrlPts == old(ctrlPts)
    {
      if |knotPts| > 3 {
        ctrlPts := SolveBasis(topology, knotPts);
      }
    }
  }

  /** For OPEN every segment is evaluable; for CLOSED exactly segments 1 - n .. 2n - 3 are. */
  lemma SegmentIndicesInRange(b: Bspline, i: int)
    requires b.Valid() && b.CountsFit() && |b.ctrlPts| >= 4 && IsInt32(i - 1) && IsInt32(i + 2)
    ensures b.SegmentInRange(i) <==>
      b.topology == Open || 1 - |b.ctrlPts| <= i <= 2 * |b.ctrlPts| - 3
  {
  }

  /**
   * The loops guarded by IsReady walk segments -1 .. n - 1; on a ready curve
   * each of them can be evaluated.
   */
  lemma ReadyWalkEvaluates(b: Bspline, i: int, t: real)
    requires b.Valid() && b.IsReady() && b.CountsFit()
    requires -1 <= i <= |b.ctrlPts| - 1 && IsInt32(i + 2) && 0.0 <= t <= 1.0
    ensures b.SegmentInRange(i) && b.CubicIntplt(i, t, 0).Some?
  {
    SegmentIndicesInRange(b, i);
  }

  /** A ready curve's control polygon is the only one whose knots are the knot list. */
  lemma ReadyMeansConsistent(b: Bspline)
    requires b.Valid() && b.IsReady()
    ensures |b.ctrlPts| == |b.knotPts|
    ensures forall c :: IsControlPolygon(b.topology, c, b.knotPts) ==> c == b.ctrlPts
  {
    forall c | IsControlPolygon(b.topology, c, b.knotPts)
      ensures c == b.ctrlPts
    {
      ControlsDetermined(b.topology, c, b.ctrlPts);
    }
  }

  /** An OPEN curve passes through interior knot i where segment i starts. */
  lemma OpenInteriorKnot(b: Bspline, i: int)
    requires b.Valid() && b.CountsFit() && b.IsReady() && b.topology == Open
    requires 1 <= i <= |b.knotPts| - 2 && IsInt32(i + 2)
    ensures b.CubicIntplt(i, 0.0, 0) == Some(b.knotPts[i])
  {
    WeightsAtStart();
    var c := b.ctrlPts;
    assert b.knotPts[i] == KnotRow(Open, c, i);
    assert b.CubicIntplt(i, 0.0, 0).value == Comb3(1.0 / 6.0, c[i - 1], 2.0 / 3.0, c[i], 1.0 / 6.0, c[i + 1]);
  }

  /**
   * An OPEN curve starts at the first knot, at the start of segment -1, and
   * ends at the last knot, at the end of segment n - 1.
   */
  lemma OpenEndpointsPinned(b: Bspline)
    requires b.Valid() && b.CountsFit() && b.IsReady() && b.topology == Open
    requires IsInt32(|b.ctrlPts| + 1)
    ensures b.CubicIntplt(-1, 0.0, 0) == Some(b.knotPts[0])
    ensures b.CubicIntplt(|b.ctrlPts| - 1, 1.0, 0) == Some(b.knotPts[|b.knotPts| - 1])
  {
    WeightsAtStart();
    WeightsAtEnd();
    var c, n := b.ctrlPts, |b.ctrlPts|;
    OpenEndsPinned(c);
    assert b.CubicIntplt(-1, 0.0, 0).value == Point(c[0].x, c[0].y);
    assert b.CubicIntplt(n - 1, 1.0, 0).value == Point(c[n - 1].x, c[n - 1].y);
  }

  /** A CLOSED curve passes through knot k where segment k + 1 starts. */
  lemma ClosedKnotInterpolated(b: Bspline, k: int)
    requires b.Valid() && b.CountsFit() && b.IsReady() && b.topology == Closed
    requires 0 <= k < |b.knotPts| && IsInt32(k + 3)
    ensures b.CubicIntplt(k + 1, 0.0, 0) == Some(b.knotPts[k])
  {
    WeightsAtStart();
    var c, n := b.ctrlPts, |b.ctrlPts|;
    assert b.knotPts[k] == KnotRow(Closed, c, k);
    assert b.CubicIntplt(k + 1, 0.0, 0).value
      == Comb3(1.0 / 6.0, c[k], 2.0 / 3.0, c[(k + 1) % n], 1.0 / 6.0, c[(k + 2) % n]);
  }

  /**
   * Consecutive segments meet with matching position, first and second
   * derivative: the curve is C2 across every knot.
   */
  lemma SegmentsJoin(b: Bspline, i: int, order: nat)
    requires b.CountsFit() && |b.ctrlPts| >= 4 && order <= 2
    requires IsInt32(i - 1) && IsInt32(i + 3) && b.SegmentInRange(i) && b.SegmentInRange(i + 1)
    ensures b.CubicIntplt(i, 1.0, order) == b.CubicIntplt(i + 1, 0.0, order)
  {
    WeightsAtStart();
    WeightsAtEnd();
  }

  /** A CLOSED curve repeats itself after n segments. */
  lemma ClosedCurvePeriodic(b: Bspline, i: int, t: real, order: nat)
    requires b.CountsFit() && |b.ctrlPts| >= 4 && b.topology == Closed
    requires 1 - |b.ctrlPts| <= i <= |b.ctrlPts| - 3 && IsInt32(i - 1) && IsInt32(i + |b.ctrlPts| + 2)
    ensures b.CubicIntplt(i + |b.ctrlPts|, t, order) == b.CubicIntplt(i, t, order)
  {
    var n := |b.ctrlPts|;
    CyclicIndex(n, i - 1);
    CyclicIndex(n, i);
    CyclicIndex(n, i + 1);
    CyclicIndex(n, i + 2);
    ModWrap(i - 1 + n, n);
    ModWrap(i + n, n);
    ModWrap(i + 1 + n, n);
    ModWrap(i + 2 + n, n);
  }

  /** A CLOSED curve's last segment ends where segment 0 starts, in position and first two derivatives. */
  lemma ClosedLoopCloses(b: Bspline, order: nat)
    requires b.CountsFit() && |b.ctrlPts| >= 4 && b.topology == Closed && order <= 2
    requires IsInt32(|b.ctrlPts| + 2)
    ensures b.CubicIntplt(|b.ctrlPts| - 1, 1.0, order) == b.CubicIntplt(0, 0.0, order)
  {
    var n := |b.ctrlPts|;
    SegmentsJoin(b, n - 1, order);
    ClosedCurvePeriodic(b, 0, 0.0, order);
  }

  /** A polygon of identical points draws that point, with every derivative zero. */
  lemma ConstantPolygonCurve(b: Bspline, p: Point, i: int, t: real, order: nat)
    requires b.CountsFit() && |b.ctrlPts| >= 4 && forall j :: 0 <= j < |b.ctrlPts| ==> b.ctrlPts[j] == p
    requires IsInt32(i - 1) && IsInt32(i + 2) && b.SegmentInRange(i)
    ensures b.CubicIntplt(i, t, order)
      == if 0.0 <= t <= 1.0 && order <= 3 then Some(if order == 0 then p else Origin) else None
  {
    if 0.0 <= t <= 1.0 && order <= 3 {
      BlendConstant(t, order, p);
    }
  }

  /** A ready curve through identical knots has all its control points there. */
  lemma ConstantKnotsCurve(b: Bspline, p: Point)
    requires b.Valid() && b.IsReady() && forall j :: 0 <= j < |b.knotPts| ==> b.knotPts[j] == p
    ensures forall j :: 0 <= j < |b.ctrlPts| ==> b.ctrlPts[j] == p
  {
    var n := |b.knotPts|;
    ConstantPolygonKnots(b.topology, p, n);
    assert b.knotPts == Constant(p, n);
    ControlsDetermined(b.topology, Constant(p, n), b.ctrlPts);
  }

  /** Every curve point lies in any box that holds the four control points of its segment. */
  lemma CurveInControlBox(b: Bspline, i: int, t: real, lo: Point, hi: Point)
    requires b.CountsFit() && |b.ctrlPts| >= 4 && 0.0 <= t <= 1.0
    requires IsInt32(i - 1) && IsInt32(i + 2) && b.SegmentInRange(i)
    requires forall k :: i - 1 <= k <= i + 2 ==> InBox(b.ctrlPts[b.GetPtIdx(k)], lo, hi)
    ensures InBox(b.CubicIntplt(i, t, 0).value, lo, hi)
  {
    var c := b.ctrlPts;
    assert InBox(c[b.GetPtIdx(i - 1)], lo, hi) && InBox(c[b.GetPtIdx(i)], lo, hi);
    assert InBox(c[b.GetPtIdx(i + 1)], lo, hi) && InBox(c[b.GetPtIdx(i + 2)], lo, hi);
    WeightsNonnegative(t);
    BlendInBox(Weights(t, 0), c[b.GetPtIdx(i - 1)], c[b.GetPtIdx(i)], c[b.GetPtIdx(i + 1)], c[b.GetPtIdx(i + 2)], lo, hi);
  }

  /** The segment indices -1 .. n - 1 that the arc-length loop visits for n control points. */
  function WalkedSegments(n: nat): (s: seq<int>)
    ensures |s| == n + 1 && forall k :: 0 <= k <= n ==> s[k] == k - 1
  {
    seq(n + 1, k requires 0 <= k <= n => k - 1)
  }

  /**
   * For a CLOSED curve the walk visits segment -1 and segment n - 1, and
   * both are the same piece of curve: its length is counted twice.
   */
  lemma ClosedWalkRepeatsSegment(b: Bspline, t: real, order: nat)
    requires b.CountsFit() && |b.ctrlPts| >= 4 && b.topology == Closed && IsInt32(|b.ctrlPts| + 1)
    ensures var s := WalkedSegments(|b.ctrlPts|); s[0] == -1 && s[|b.ctrlPts|] == |b.ctrlPts| - 1
    ensures b.CubicIntplt(-1, t, order) == b.CubicIntplt(|b.ctrlPts| - 1, t, order)
  {
    ClosedCurvePeriodic(b, -1, t, order);
  }

  /** The segments that make up a CLOSED curve once each: 0 .. n - 1. */
  function ClosedCurveSegments(n: nat): (s: seq<int>)
    ensures |s| == n && forall k :: 0 <= k < n ==> s[k] == k
  {
    seq(n, k requires 0 <= k < n => k)
  }

  /**
   * Every evaluable CLOSED segment is the same curve piece as exactly one
   * entry of ClosedCurveSegments: the one congruent to it modulo n.
   */
  lemma ClosedSegmentsCoverOnce(b: Bspline, i: int, t: real, order: nat)
    requires b.CountsFit() && |b.ctrlPts| >= 4 && b.topology == Closed
    requires 1 - |b.ctrlPts| <= i <= 2 * |b.ctrlPts| - 3 && IsInt32(i - 1) && IsInt32(i + 2)
    requires IsInt32(|b.ctrlPts| + 2)
    ensures var n := |b.ctrlPts|; var s := ClosedCurveSegments(n);
      0 <= i % n < n && s[i % n] == i % n && b.CubicIntplt(i, t, order) == b.CubicIntplt(i % n, t, order)
    ensures var n := |b.ctrlPts|; var s := ClosedCurveSegments(n);
      forall k :: 0 <= k < n && s[k] % n == i % n ==> k == i % n
  {
    var n := |b.ctrlPts|;
    CyclicIndex(n, i);
    if i < 0 {
      ClosedCurvePeriodic(b, i, t, order);
    } else if i >= n {
      ClosedCurvePeriodic(b, i - n, t, order);
    }
    forall k | 0 <= k < n
      ensures k % n == k
    {
      ModWrap(k, n);
    }
  }
}
