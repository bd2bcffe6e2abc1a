/**
 * The three-term recurrence hidden in the banded rows 1/6, 2/3, 1/6.
 * A row (u + 4v + w) / 6 = k is solved for its last point by
 * w = 6k - 4v - u, so a whole system of such rows can be solved by
 * sweeping this recurrence from two starting points. The lemmas here
 * show that the sweeps used for the OPEN and CLOSED systems never divide
 * by zero, which is what makes the basis matrix invertible for every
 * point count above 3.
 */
module Recurrence {
  import opened Points

  /** The point w that makes the row (u + 4v + w) / 6 equal to k. */
  function Shoot(k: Point, u: Point, v: Point): (w: Point)
    ensures Comb3(1.0 / 6.0, u, 2.0 / 3.0, v, 1.0 / 6.0, w) == k
  {
    Point(6.0 * k.x - 4.0 * v.x - u.x, 6.0 * k.y - 4.0 * v.y - u.y)
  }

  /** y + p * a + q * b: a particular solution plus multiples of two homogeneous ones. */
  function Affine2(y: Point, p: real, a: Point, q: real, b: Point): Point {
    Point(y.x + p * a.x + q * b.x, y.y + p * a.y + q * b.y)
  }

  /** The scalar sequence u_0 = u0, u_1 = u1, u_{m+2} = -4 u_{m+1} - u_m. */
  ghost function Homogeneous(u0: real, u1: real, m: nat): real {
    if m == 0 then u0
    else if m == 1 then u1
    else -4.0 * Homogeneous(u0, u1, m - 1) - Homogeneous(u0, u1, m - 2)
  }

  /** The two fundamental solutions: P starts (1, 0), Q starts (0, 1). */
  ghost function P(m: nat): real { Homogeneous(1.0, 0.0, m) }
  ghost function Q(m: nat): real { Homogeneous(0.0, 1.0, m) }

  /** b has the opposite sign of a and a strictly larger magnitude. */
  predicate Alternating(a: real, b: real) {
    (a < 0.0 && b > -a) || (a > 0.0 && b < -a)
  }

  /** One step of the recurrence keeps the signs alternating and the magnitudes growing. */
  lemma AlternatingStep(a: real, b: real)
    requires Alternating(a, b)
    ensures Alternating(b, -4.0 * b - a)
  {
  }

  lemma {:induction false} QAlternates(m: nat)
    requires m >= 1
    ensures Alternating(Q(m), Q(m + 1))
  {
    if m == 1 {
      assert Q(2) == -4.0;
    } else {
      QAlternates(m - 1);
      AlternatingStep(Q(m - 1), Q(m));
      assert Q(m + 1) == -4.0 * Q(m) - Q(m - 1);
    }
  }

  /** The OPEN sweep divides by Q(n - 1), which is never zero. */
  lemma OpenPivotNonzero(m: nat)
    requires m >= 1
    ensures Q(m) != 0.0
  {
    QAlternates(m);
  }

  /** The trace of the n-step transfer matrix of the recurrence. */
  ghost function Trace(m: nat): real { P(m) + Q(m + 1) }

  lemma TraceRecurrence(m: nat)
    ensures Trace(m + 2) == -4.0 * Trace(m + 1) - Trace(m)
  {
    assert P(m + 2) == -4.0 * P(m + 1) - P(m);
    assert Q(m + 3) == -4.0 * Q(m + 2) - Q(m + 1);
  }

  lemma {:induction false} TraceAlternates(m: nat)
    requires m >= 1
    ensures Alternating(Trace(m), Trace(m + 1))
    ensures Trace(m) <= -4.0 || Trace(m) >= 4.0
  {
    if m == 1 {
      assert Trace(1) == -4.0;
      assert Trace(2) == 14.0 by {
        assert P(2) == -1.0 && Q(3) == 15.0;
      }
    } else {
      TraceAlternates(m - 1);
      TraceRecurrence(m - 1);
      AlternatingStep(Trace(m - 1), Trace(m));
    }
  }

  /** The Casoratian of P and Q is constant: the transfer matrix has determinant 1. */
  lemma {:induction false} Casoratian(m: nat)
    ensures P(m) * Q(m + 1) - Q(m) * P(m + 1) == 1.0
  {
    if m > 0 {
      Casoratian(m - 1);
      var p0, p1, q0, q1 := P(m - 1), P(m), Q(m - 1), Q(m);
      assert P(m + 1) == -4.0 * p1 - p0;
      assert Q(m + 1) == -4.0 * q1 - q0;
      calc {
        p1 * (-4.0 * q1 - q0) - q1 * (-4.0 * p1 - p0);
        -4.0 * p1 * q1 - p1 * q0 + 4.0 * q1 * p1 + q1 * p0;
        p0 * q1 - q0 * p1;
      }
    }
  }

  /** The determinant of the 2x2 system that closes the CLOSED sweep. */
  ghost function ClosedPivot(n: nat): real {
    (P(n) - 1.0) * (Q(n + 1) - 1.0) - Q(n) * P(n + 1)
  }

  /** det(T^n - I) = 2 - trace(T^n), and the trace never equals 2. */
  lemma ClosedPivotNonzero(n: nat)
    requires n >= 1
    ensures ClosedPivot(n) != 0.0
  {
    Casoratian(n);
    TraceAlternates(n);
    var p0, p1, q0, q1 := P(n), P(n + 1), Q(n), Q(n + 1);
    calc {
      ClosedPivot(n);
      (p0 - 1.0) * (q1 - 1.0) - q0 * p1;
      (p0 * q1 - q0 * p1) - p0 - q1 + 1.0;
      2.0 - Trace(n);
    }
  }

  /** Index r of d continues the homogeneous recurrence from r and r + 1. */
  ghost predicate StepsAt(d: seq<Point>, r: int) {
    0 <= r && r + 2 < |d| ==> d[r + 2] == Shoot(Origin, d[r], d[r + 1])
  }

  /** A sequence obeying the homogeneous recurrence is spanned by P and Q. */
  lemma {:induction false} HomogeneousSpan(d: seq<Point>, m: nat)
    requires 2 <= |d| && m < |d|
    requires forall r :: StepsAt(d, r)
    ensures d[m] == Affine2(Origin, P(m), d[0], Q(m), d[1])
  {
    if m >= 2 {
      HomogeneousSpan(d, m - 1);
      HomogeneousSpan(d, m - 2);
      assert StepsAt(d, m - 2);
      var p0, p1, q0, q1 := P(m - 2), P(m - 1), Q(m - 2), Q(m - 1);
      assert P(m) == -4.0 * p1 - p0 && Q(m) == -4.0 * q1 - q0;
      var a, b := d[0], d[1];
      calc {
        d[m].x;
        -4.0 * (p1 * a.x + q1 * b.x) - (p0 * a.x + q0 * b.x);
        (-4.0 * p1 - p0) * a.x + (-4.0 * q1 - q0) * b.x;
      }
      calc {
        d[m].y;
        -4.0 * (p1 * a.y + q1 * b.y) - (p0 * a.y + q0 * b.y);
        (-4.0 * p1 - p0) * a.y + (-4.0 * q1 - q0) * b.y;
      }
    }
  }

  /** Sweeping a particular solution plus multiples of P and Q stays a solution. */
  lemma ShootIsAffine(k: Point, y0: Point, y1: Point, p0: real, p1: real, a: Point, q0: real, q1: real, b: Point)
    ensures Affine2(Shoot(k, y0, y1), -4.0 * p1 - p0, a, -4.0 * q1 - q0, b)
            == Shoot(k, Affine2(y0, p0, a, q0, b), Affine2(y1, p1, a, q1, b))
  {
    assert (-4.0 * p1 - p0) * a.x == -4.0 * (p1 * a.x) - p0 * a.x;
    assert (-4.0 * q1 - q0) * b.x == -4.0 * (q1 * b.x) - q0 * b.x;
    assert (-4.0 * p1 - p0) * a.y == -4.0 * (p1 * a.y) - p0 * a.y;
    assert (-4.0 * q1 - q0) * b.y == -4.0 * (q1 * b.y) - q0 * b.y;
  }
}
