/**
 * The knot -> control direction: find the control polygon c with B * c = knots.
 * Bspline inverts B numerically for this; here the banded system is solved
 * exactly, by sweeping the row recurrence of module Recurrence, and
 * ControlsDetermined shows that the solution is the only one, so it is the
 * value B^-1 * knots that the inversion computes.
 */
module Solve {
  import opened Points
  import opened Basis
  import opened Recurrence

  /** q * (e / q) == e for a non-zero q. */
  lemma DivCancel(q: real, e: real)
    requires q != 0.0
    ensures q * (e / q) == e
  {
  }

  /** Cramer's rule for the 2x2 system [m00 m01; m10 m11] (a, b) = (-y0, -y1). */
  lemma Cramer(m00: real, m01: real, m10: real, m11: real, y0: real, y1: real)
    requires m00 * m11 - m01 * m10 != 0.0
    ensures var det := m00 * m11 - m01 * m10;
      var a := (m01 * y1 - m11 * y0) / det;
      var b := (m10 * y0 - m00 * y1) / det;
      m00 * a + m01 * b == -y0 && m10 * a + m11 * b == -y1
  {
    var det := m00 * m11 - m01 * m10;
    var a := (m01 * y1 - m11 * y0) / det;
    var b := (m10 * y0 - m00 * y1) / det;
    assert a * det == m01 * y1 - m11 * y0;
    assert b * det == m10 * y0 - m00 * y1;
    assert (m00 * a + m01 * b) * det == -y0 * det by {
      calc {
        (m00 * a + m01 * b) * det;
        m00 * (a * det) + m01 * (b * det);
        m00 * (m01 * y1 - m11 * y0) + m01 * (m10 * y0 - m00 * y1);
        -y0 * det;
      }
    }
    assert (m10 * a + m11 * b) * det == -y1 * det by {
      calc {
        (m10 * a + m11 * b) * det;
        m10 * (a * det) + m11 * (b * det);
        m10 * (m01 * y1 - m11 * y0) + m11 * (m10 * y0 - m00 * y1);
        -y1 * det;
      }
    }
  }

  /** The only solution of a homogeneous 2x2 system with a non-zero determinant is zero. */
  lemma HomogeneousCramer(m00: real, m01: real, m10: real, m11: real, a: real, b: real)
    requires m00 * m11 - m01 * m10 != 0.0
    requires m00 * a + m01 * b == 0.0 && m10 * a + m11 * b == 0.0
    ensures a == 0.0 && b == 0.0
  {
    var det := m00 * m11 - m01 * m10;
    assert a * det == m11 * (m00 * a + m01 * b) - m01 * (m10 * a + m11 * b);
    assert b * det == m00 * (m10 * a + m11 * b) - m10 * (m00 * a + m01 * b);
  }

  /** The determinant of the closing system (P(n) - 1, Q(n); P(n+1), Q(n+1) - 1). */
  function ClosingDet(pn: real, qn: real, pn1: real, qn1: real): real {
    (pn - 1.0) * (qn1 - 1.0) - qn * pn1
  }

  /** Cramer's rule for one coordinate of the start (a, b) of a closed sweep. */
  function ClosingA(pn: real, qn: real, pn1: real, qn1: real, y0: real, y1: real): real
    requires ClosingDet(pn, qn, pn1, qn1) != 0.0
  {
    (qn * y1 - (qn1 - 1.0) * y0) / ClosingDet(pn, qn, pn1, qn1)
  }

  function ClosingB(pn: real, qn: real, pn1: real, qn1: real, y0: real, y1: real): real
    requires ClosingDet(pn, qn, pn1, qn1) != 0.0
  {
    (pn1 * y0 - (pn - 1.0) * y1) / ClosingDet(pn, qn, pn1, qn1)
  }

  /** One coordinate of SweepCloses. */
  lemma ScalarSweepCloses(pn: real, qn: real, pn1: real, qn1: real, y0: real, y1: real)
    requires ClosingDet(pn, qn, pn1, qn1) != 0.0
    ensures var a, b := ClosingA(pn, qn, pn1, qn1, y0, y1), ClosingB(pn, qn, pn1, qn1, y0, y1);
      y0 + pn * a + qn * b == a && y1 + pn1 * a + qn1 * b == b
  {
    var a, b := ClosingA(pn, qn, pn1, qn1, y0, y1), ClosingB(pn, qn, pn1, qn1, y0, y1);
    Cramer(pn - 1.0, qn, pn1, qn1 - 1.0, y0, y1);
    assert (pn - 1.0) * a + qn * b == -y0;
    assert pn1 * a + (qn1 - 1.0) * b == -y1;
    assert pn * a == (pn - 1.0) * a + a;
    assert qn1 * b == (qn1 - 1.0) * b + b;
  }

  /**
   * With (a, b) chosen by Cramer's rule, the sweep started from (a, b) returns
   * to (a, b) after n steps: y + P(n) a + Q(n) b = a, and the same one step later.
   */
  lemma SweepCloses(pn: real, qn: real, pn1: real, qn1: real, y0: Point, y1: Point, a: Point, b: Point)
    requires ClosingDet(pn, qn, pn1, qn1) != 0.0
    requires a == Point(ClosingA(pn, qn, pn1, qn1, y0.x, y1.x), ClosingA(pn, qn, pn1, qn1, y0.y, y1.y))
    requires b == Point(ClosingB(pn, qn, pn1, qn1, y0.x, y1.x), ClosingB(pn, qn, pn1, qn1, y0.y, y1.y))
    ensures Affine2(y0, pn, a, qn, b) == a && Affine2(y1, pn1, a, qn1, b) == b
  {
    ScalarSweepCloses(pn, qn, pn1, qn1, y0.x, y1.x);
    ScalarSweepCloses(pn, qn, pn1, qn1, y0.y, y1.y);
    assert Affine2(y0, pn, a, qn, b) == Point(a.x, a.y);
    assert Affine2(y1, pn1, a, qn1, b) == Point(b.x, b.y);
  }

  /** Solve B * c = knots for c. */
  method SolveBasis(topology: Topology, knots: seq<Point>) returns (ctrls: seq<Point>)
    requires |knots| > 3
    ensures |ctrls| == |knots| && KnotsOf(topology, ctrls) == knots
  {
    if topology == Open {
      ctrls := SolveOpen(knots);
    } else {
      ctrls := SolveClosed(knots);
    }
  }

  /** y + p a + q b, point by point. */
  function Combine(y: seq<Point>, p: seq<real>, q: seq<real>, a: Point, b: Point): (x: seq<Point>)
    requires |p| == |y| && |q| == |y|
    ensures |x| == |y| && forall r :: 0 <= r < |y| ==> x[r] == Affine2(y[r], p[r], a, q[r], b)
  {
    seq(|y|, r requires 0 <= r < |y| => Affine2(y[r], p[r], a, q[r], b))
  }

  /**
   * y is the sweep of the rows ks from two zero starting points, and p, q
   * are the fundamental solutions P, Q over the same range.
   */
  ghost predicate Swept(ks: seq<Point>, y: seq<Point>, p: seq<real>, q: seq<real>) {
    |y| == |ks| + 2 && |p| == |y| && |q| == |y| && y[0] == Origin && y[1] == Origin &&
    (forall m :: 0 <= m < |ks| ==> y[m + 2] == Shoot(ks[m], y[m], y[m + 1])) &&
    (forall m :: 0 <= m < |y| ==> p[m] == P(m) && q[m] == Q(m))
  }

  /** Sweep the rows ks forward: the particular solution y and the homogeneous p, q. */
  method Sweep(ks: seq<Point>) returns (y: seq<Point>, p: seq<real>, q: seq<real>)
    ensures Swept(ks, y, p, q)
  {
    y, p, q := [Origin, Origin], [1.0, 0.0], [0.0, 1.0];
    for r := 0 to |ks|
      invariant |y| == r + 2 && |p| == r + 2 && |q| == r + 2
      invariant y[0] == Origin && y[1] == Origin
      invariant forall m :: 0 <= m < r ==> y[m + 2] == Shoot(ks[m], y[m], y[m + 1])
      invariant forall m :: 0 <= m < r + 2 ==> p[m] == P(m) && q[m] == Q(m)
    {
      y := y + [Shoot(ks[r], y[r], y[r + 1])];
      p := p + [-4.0 * p[r + 1] - p[r]];
      q := q + [-4.0 * q[r + 1] - q[r]];
    }
  }

  /** Whatever two starting points a, b are chosen, y + p a + q b satisfies every swept row. */
  lemma SweepCombines(ks: seq<Point>, y: seq<Point>, p: seq<real>, q: seq<real>, a: Point, b: Point)
    requires Swept(ks, y, p, q)
    ensures var x := Combine(y, p, q, a, b);
      x[0] == a && x[1] == b &&
      forall m :: 0 <= m < |ks| ==> x[m + 2] == Shoot(ks[m], x[m], x[m + 1])
  {
    var x := Combine(y, p, q, a, b);
    assert x[0] == Point(a.x, a.y);
    assert x[1] == Point(b.x, b.y);
    forall m | 0 <= m < |ks|
      ensures x[m + 2] == Shoot(ks[m], x[m], x[m + 1])
    {
      ShootIsAffine(ks[m], y[m], y[m + 1], p[m], p[m + 1], a, q[m], q[m + 1], b);
      assert p[m + 2] == -4.0 * p[m + 1] - p[m] && q[m + 2] == -4.0 * q[m + 1] - q[m];
    }
  }

  /** The OPEN sweep's second start point b that makes its last point land on kl. */
  lemma EndRow(yl: Point, pl: real, k0: Point, ql: real, kl: Point)
    requires ql != 0.0
    ensures var b := Point((kl.x - yl.x - pl * k0.x) / ql, (kl.y - yl.y - pl * k0.y) / ql);
      Affine2(yl, pl, k0, ql, b) == kl
  {
    DivCancel(ql, kl.x - yl.x - pl * k0.x);
    DivCancel(ql, kl.y - yl.y - pl * k0.y);
  }

  /**
   * OPEN: c[0] = knots[0] is known; sweep interior rows forward from c[0] and
   * an unknown c[1], then choose c[1] so that the last row c[n-1] = knots[n-1] holds.
   */
  method SolveOpen(knots: seq<Point>) returns (ctrls: seq<Point>)
    requires |knots| > 3
    ensures |ctrls| == |knots| && KnotsOf(Open, ctrls) == knots
  {
    var n := |knots|;
    ghost var ks := knots[1..n - 1];
    var y, p, q := Sweep(knots[1..n - 1]);
    OpenPivotNonzero(n - 1);
    var k0, kl, yl, pl, ql := knots[0], knots[n - 1], y[n - 1], p[n - 1], q[n - 1];
    var b := Point((kl.x - yl.x - pl * k0.x) / ql, (kl.y - yl.y - pl * k0.y) / ql);
    ctrls := Combine(y, p, q, k0, b);
    SweepCombines(ks, y, p, q, k0, b);
    EndRow(yl, pl, k0, ql, kl);
    forall r | 0 <= r < n
      ensures KnotRow(Open, ctrls, r) == knots[r]
    {
      if 0 < r < n - 1 {
        assert ks[r - 1] == knots[r];
        assert ctrls[r + 1] == Shoot(ks[r - 1], ctrls[r - 1], ctrls[r]);
      }
    }
  }

  /**
   * CLOSED: sweep rows 0 .. n-1 forward from two unknown points c[0], c[1];
   * the two rows that wrap around fix them through a 2x2 system.
   */
  method SolveClosed(knots: seq<Point>) returns (ctrls: seq<Point>)
    requires |knots| > 3
    ensures |ctrls| == |knots| && KnotsOf(Closed, ctrls) == knots
  {
    var n := |knots|;
    var y, p, q := Sweep(knots);
    var pn, qn, pn1, qn1 := p[n], q[n], p[n + 1], q[n + 1];
    ClosedPivotNonzero(n);
    assert ClosingDet(pn, qn, pn1, qn1) != 0.0 by {
      assert pn == P(n) && qn == Q(n) && pn1 == P(n + 1) && qn1 == Q(n + 1);
    }
    var y0, y1 := y[n], y[n + 1];
    var a := Point(ClosingA(pn, qn, pn1, qn1, y0.x, y1.x), ClosingA(pn, qn, pn1, qn1, y0.y, y1.y));
    var b := Point(ClosingB(pn, qn, pn1, qn1, y0.x, y1.x), ClosingB(pn, qn, pn1, qn1, y0.y, y1.y));
    var x := Combine(y, p, q, a, b);
    ctrls := x[..n];
    SweepCombines(knots, y, p, q, a, b);
    SweepCloses(pn, qn, pn1, qn1, y0, y1, a, b);
    ClosedRows(knots, x);
  }

  /** A sweep x of the CLOSED rows that returns to its start is a CLOSED control polygon. */
  lemma ClosedRows(knots: seq<Point>, x: seq<Point>)
    requires |knots| > 3 && |x| == |knots| + 2
    requires x[|knots|] == x[0] && x[|knots| + 1] == x[1]
    requires forall m :: 0 <= m < |knots| ==> x[m + 2] == Shoot(knots[m], x[m], x[m + 1])
    ensures KnotsOf(Closed, x[..|knots|]) == knots
  {
    var n, c := |knots|, x[..|knots|];
    forall r | 0 <= r < n
      ensures KnotRow(Closed, c, r) == knots[r]
    {
      ClosedColumns(n, r);
      assert c[(r + 1) % n] == x[r + 1];
      assert c[(r + 2) % n] == x[r + 2];
    }
  }

  /**
   * B is injective: two control polygons with the same knots are equal.
   * Hence the polygon the solver returns is the one B^-1 * knots denotes.
   */
  lemma ControlsDetermined(topology: Topology, c1: seq<Point>, c2: seq<Point>)
    requires |c1| == |c2| > 3 && KnotsOf(topology, c1) == KnotsOf(topology, c2)
    ensures c1 == c2
  {
    if topology == Open {
      OpenControlsDetermined(c1, c2);
    } else {
      ClosedControlsDetermined(c1, c2);
    }
  }

  function Difference(c1: seq<Point>, c2: seq<Point>): (d: seq<Point>)
    requires |c1| == |c2|
    ensures |d| == |c1| && forall r :: 0 <= r < |d| ==> d[r] == Sub(c1[r], c2[r])
  {
    seq(|c1|, r requires 0 <= r < |c1| => Sub(c1[r], c2[r]))
  }

  lemma OpenControlsDetermined(c1: seq<Point>, c2: seq<Point>)
    requires |c1| == |c2| > 3 && KnotsOf(Open, c1) == KnotsOf(Open, c2)
    ensures c1 == c2
  {
    var n := |c1|;
    var d := Difference(c1, c2);
    forall r | 0 <= r
      ensures StepsAt(d, r)
    {
      if r + 2 < n {
        assert KnotRow(Open, c1, r + 1) == KnotRow(Open, c2, r + 1);
      }
    }
    assert KnotRow(Open, c1, 0) == KnotRow(Open, c2, 0);
    assert d[0] == Origin;
    assert KnotRow(Open, c1, n - 1) == KnotRow(Open, c2, n - 1);
    HomogeneousSpan(d, n - 1);
    OpenPivotNonzero(n - 1);
    assert d[1] == Origin;
    forall r | 0 <= r < n
      ensures c1[r] == c2[r]
    {
      HomogeneousSpan(d, r);
    }
  }

  lemma ClosedControlsDetermined(c1: seq<Point>, c2: seq<Point>)
    requires |c1| == |c2| > 3 && KnotsOf(Closed, c1) == KnotsOf(Closed, c2)
    ensures c1 == c2
  {
    var n := |c1|;
    var d := Difference(c1, c2);
    var e := d + [d[0], d[1]];
    forall r | 0 <= r
      ensures StepsAt(e, r)
    {
      if r + 2 < n + 2 {
        assert KnotRow(Closed, c1, r) == KnotRow(Closed, c2, r);
        ClosedColumns(n, r);
      }
    }
    HomogeneousSpan(e, n);
    HomogeneousSpan(e, n + 1);
    ClosedPivotNonzero(n);
    HomogeneousCramer(P(n) - 1.0, Q(n), P(n + 1), Q(n + 1) - 1.0, d[0].x, d[1].x);
    HomogeneousCramer(P(n) - 1.0, Q(n), P(n + 1), Q(n + 1) - 1.0, d[0].y, d[1].y);
    forall r | 0 <= r < n
      ensures c1[r] == c2[r]
    {
      HomogeneousSpan(e, r);
    }
  }
}
