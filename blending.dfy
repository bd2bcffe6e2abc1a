/**
 * The uniform cubic B-spline blending weights of one curve segment.
 * A segment is evaluated as the row of powers of t (or of one of its
 * derivatives) times the constant 4x4 basis matrix, giving four weights
 * for the four control points around the segment.
 */
module Blending {
  import opened Points

  /** The cubic B-spline basis matrix before its division by 6, row by row. */
  const CubicBsplineMatrix: seq<seq<real>> := [
    [1.0, 4.0, 1.0, 0.0],
    [-3.0, 0.0, 3.0, 0.0],
    [3.0, -6.0, 3.0, 0.0],
    [-1.0, 3.0, -3.0, 1.0]
  ]

  /** The row (1, t, t^2, t^3) differentiated order times. */
  function MonomialRow(t: real, order: nat): (m: seq<real>)
    requires order <= 3
    ensures |m| == 4
    ensures forall i :: 0 <= i < order ==> m[i] == 0.0
  {
    if order == 0 then [1.0, t, t * t, t * t * t]
    else if order == 1 then [0.0, 1.0, 2.0 * t, 3.0 * t * t]
    else if order == 2 then [0.0, 0.0, 2.0, 6.0 * t]
    else [0.0, 0.0, 0.0, 6.0]
  }

  /** Entry j of the product of the row m with the basis matrix divided by 6. */
  function Column(m: seq<real>, j: nat): real
    requires |m| == 4 && j < 4
  {
    (m[0] * CubicBsplineMatrix[0][j] + m[1] * CubicBsplineMatrix[1][j]
      + m[2] * CubicBsplineMatrix[2][j] + m[3] * CubicBsplineMatrix[3][j]) / 6.0
  }

  function Sum4(w: seq<real>): real
    requires |w| == 4
  {
    w[0] + w[1] + w[2] + w[3]
  }

  /**
   * The four weights of the control points around a segment at parameter t.
   * The position weights form a partition of unity; the weights of every
   * derivative sum to zero, so a translation of the polygon moves positions
   * and leaves derivatives alone.
   */
  function Weights(t: real, order: nat): (w: seq<real>)
    requires order <= 3
    ensures |w| == 4
    ensures Sum4(w) == if order == 0 then 1.0 else 0.0
  {
    var m := MonomialRow(t, order);
    [Column(m, 0), Column(m, 1), Column(m, 2), Column(m, 3)]
  }

  /** The textbook uniform cubic B-spline basis functions. */
  function UniformBasis(t: real): seq<real> {
    var s := 1.0 - t;
    [s * s * s / 6.0,
     (3.0 * t * t * t - 6.0 * t * t + 4.0) / 6.0,
     (-3.0 * t * t * t + 3.0 * t * t + 3.0 * t + 1.0) / 6.0,
     t * t * t / 6.0]
  }

  /** The matrix form computes the textbook basis functions. */
  lemma WeightsAreUniformBasis(t: real)
    ensures Weights(t, 0) == UniformBasis(t)
  {
    var s := 1.0 - t;
    assert s * s * s == 1.0 - 3.0 * t + 3.0 * t * t - t * t * t;
  }

  lemma MulNonnegative(a: real, b: real)
    requires a >= 0.0 && b >= 0.0
    ensures a * b >= 0.0
  {
  }

  /** On the segment, 0 <= t <= 1, every position weight is non-negative. */
  lemma WeightsNonnegative(t: real)
    requires 0.0 <= t <= 1.0
    ensures forall j :: 0 <= j < 4 ==> Weights(t, 0)[j] >= 0.0
  {
    WeightsAreUniformBasis(t);
    var s := 1.0 - t;
    MulNonnegative(s, s);
    MulNonnegative(s * s, s);
    MulNonnegative(t, t);
    MulNonnegative(t * t, t);
    MulNonnegative(t * t, s);
    // 3t^3 - 6t^2 + 4 >= 1 because 2t^2 - t^3 <= 1 on [0, 1]
    MulNonnegative(t, s);
    assert 1.0 + t - t * t >= 0.0;
    MulNonnegative(s, 1.0 + t - t * t);
    assert 1.0 - 2.0 * t * t + t * t * t == s * (1.0 + t - t * t);
    // -3t^3 + 3t^2 + 3t + 1 = 3 t^2 (1 - t) + 3t + 1
    assert -3.0 * t * t * t + 3.0 * t * t == 3.0 * (t * t * s);
  }

  /** Mirroring the parameter reverses the order of the position weights. */
  lemma WeightsSymmetric(t: real)
    ensures var w := Weights(t, 0); Weights(1.0 - t, 0) == [w[3], w[2], w[1], w[0]]
  {
    WeightsAreUniformBasis(t);
    WeightsAreUniformBasis(1.0 - t);
    var s := 1.0 - t;
    assert s * s == 1.0 - 2.0 * t + t * t;
    assert s * s * s == 1.0 - 3.0 * t + 3.0 * t * t - t * t * t;
  }

  /** The weights where a segment starts, for the position and its first two derivatives. */
  lemma WeightsAtStart()
    ensures Weights(0.0, 0) == [1.0 / 6.0, 2.0 / 3.0, 1.0 / 6.0, 0.0]
    ensures Weights(0.0, 1) == [-1.0 / 2.0, 0.0, 1.0 / 2.0, 0.0]
    ensures Weights(0.0, 2) == [1.0, -2.0, 1.0, 0.0]
  {
  }

  /** The weights where a segment ends: those at its start, shifted one control point on. */
  lemma WeightsAtEnd()
    ensures Weights(1.0, 0) == [0.0, 1.0 / 6.0, 2.0 / 3.0, 1.0 / 6.0]
    ensures Weights(1.0, 1) == [0.0, -1.0 / 2.0, 0.0, 1.0 / 2.0]
    ensures Weights(1.0, 2) == [0.0, 1.0, -2.0, 1.0]
  {
  }

  /** w0 p0 + w1 p1 + w2 p2 + w3 p3. */
  function Blend4(w: seq<real>, p0: Point, p1: Point, p2: Point, p3: Point): (b: Point)
    requires |w| == 4
    ensures p0 == p1 == p2 == p3 ==> b == Point(Sum4(w) * p0.x, Sum4(w) * p0.y)
  {
    assert (w[0] + w[1] + w[2] + w[3]) * p0.x == w[0] * p0.x + w[1] * p0.x + w[2] * p0.x + w[3] * p0.x;
    assert (w[0] + w[1] + w[2] + w[3]) * p0.y == w[0] * p0.y + w[1] * p0.y + w[2] * p0.y + w[3] * p0.y;
    Point(w[0] * p0.x + w[1] * p1.x + w[2] * p2.x + w[3] * p3.x,
          w[0] * p0.y + w[1] * p1.y + w[2] * p2.y + w[3] * p3.y)
  }

  /** Blending four copies of one point gives that point, and zero for a derivative. */
  lemma BlendConstant(t: real, order: nat, p: Point)
    requires order <= 3
    ensures Blend4(Weights(t, order), p, p, p, p) == if order == 0 then p else Origin
  {
    var w := Weights(t, order);
    assert w[0] * p.x + w[1] * p.x + w[2] * p.x + w[3] * p.x == Sum4(w) * p.x;
    assert w[0] * p.y + w[1] * p.y + w[2] * p.y + w[3] * p.y == Sum4(w) * p.y;
  }

  /** A non-negative weight keeps the order of two values. */
  lemma ScaleMonotone(w: real, a: real, c: real)
    requires w >= 0.0 && a <= c
    ensures w * a <= w * c
  {
    MulNonnegative(w, c - a);
  }

  /** Weights summing to one average a constant to itself. */
  lemma UnitSum4(w0: real, w1: real, w2: real, w3: real, x: real)
    requires w0 + w1 + w2 + w3 == 1.0
    ensures w0 * x + w1 * x + w2 * x + w3 * x == x
  {
    assert w0 * x + w1 * x + w2 * x + w3 * x == (w0 + w1 + w2 + w3) * x;
  }

  /** Four inequalities add up. */
  lemma AddBounds4(l0: real, l1: real, l2: real, l3: real, m0: real, m1: real, m2: real, m3: real)
    requires l0 <= m0 && l1 <= m1 && l2 <= m2 && l3 <= m3
    ensures l0 + l1 + l2 + l3 <= m0 + m1 + m2 + m3
  {
  }

  /** Convex weights keep a blend of values that are all at least lo at least lo. */
  lemma BlendAtLeast(w0: real, w1: real, w2: real, w3: real, a0: real, a1: real, a2: real, a3: real, lo: real)
    requires w0 >= 0.0 && w1 >= 0.0 && w2 >= 0.0 && w3 >= 0.0 && w0 + w1 + w2 + w3 == 1.0
    requires lo <= a0 && lo <= a1 && lo <= a2 && lo <= a3
    ensures lo <= w0 * a0 + w1 * a1 + w2 * a2 + w3 * a3
  {
    ScaleMonotone(w0, lo, a0);
    ScaleMonotone(w1, lo, a1);
    ScaleMonotone(w2, lo, a2);
    ScaleMonotone(w3, lo, a3);
    UnitSum4(w0, w1, w2, w3, lo);
    assert w0 * lo <= w0 * a0 && w1 * lo <= w1 * a1 && w2 * lo <= w2 * a2 && w3 * lo <= w3 * a3;
    AddBounds4(w0 * lo, w1 * lo, w2 * lo, w3 * lo, w0 * a0, w1 * a1, w2 * a2, w3 * a3);
  }

  /** Convex weights keep a blend of values that are all at most hi at most hi. */
  lemma BlendAtMost(w0: real, w1: real, w2: real, w3: real, a0: real, a1: real, a2: real, a3: real, hi: real)
    requires w0 >= 0.0 && w1 >= 0.0 && w2 >= 0.0 && w3 >= 0.0 && w0 + w1 + w2 + w3 == 1.0
    requires a0 <= hi && a1 <= hi && a2 <= hi && a3 <= hi
    ensures w0 * a0 + w1 * a1 + w2 * a2 + w3 * a3 <= hi
  {
    ScaleMonotone(w0, a0, hi);
    ScaleMonotone(w1, a1, hi);
    ScaleMonotone(w2, a2, hi);
    ScaleMonotone(w3, a3, hi);
    UnitSum4(w0, w1, w2, w3, hi);
    assert w0 * a0 <= w0 * hi && w1 * a1 <= w1 * hi && w2 * a2 <= w2 * hi && w3 * a3 <= w3 * hi;
    AddBounds4(w0 * a0, w1 * a1, w2 * a2, w3 * a3, w0 * hi, w1 * hi, w2 * hi, w3 * hi);
  }

  /** p lies in the axis-aligned box from lo to hi. */
  predicate InBox(p: Point, lo: Point, hi: Point) {
    lo.x <= p.x <= hi.x && lo.y <= p.y <= hi.y
  }

  /** Convex hull property: blending with convex weights stays in any box around the four points. */
  lemma BlendInBox(w: seq<real>, p0: Point, p1: Point, p2: Point, p3: Point, lo: Point, hi: Point)
    requires |w| == 4 && Sum4(w) == 1.0 && forall j :: 0 <= j < 4 ==> w[j] >= 0.0
    requires InBox(p0, lo, hi) && InBox(p1, lo, hi) && InBox(p2, lo, hi) && InBox(p3, lo, hi)
    ensures InBox(Blend4(w, p0, p1, p2, p3), lo, hi)
  {
    assert w[0] >= 0.0 && w[1] >= 0.0 && w[2] >= 0.0 && w[3] >= 0.0;
    BlendAtLeast(w[0], w[1], w[2], w[3], p0.x, p1.x, p2.x, p3.x, lo.x);
    BlendAtMost(w[0], w[1], w[2], w[3], p0.x, p1.x, p2.x, p3.x, hi.x);
    BlendAtLeast(w[0], w[1], w[2], w[3], p0.y, p1.y, p2.y, p3.y, lo.y);
    BlendAtMost(w[0], w[1], w[2], w[3], p0.y, p1.y, p2.y, p3.y, hi.y);
  }
}
