/**
 * The banded N x N matrix B that maps control points to knot points
 * (knots = B * ctrls) for a cubic uniform B-spline, built the way the
 * conversion routines of `Bspline` build it.
 */
module Basis {
  import opened Points

  datatype Topology = Open | Closed

  /**
   * Entry (r, j) of B for n points. OPEN: rows 0 and n-1 are identity rows,
   * interior rows hold 1/6, 2/3, 1/6 in columns r-1, r, r+1. CLOSED: every
   * row holds 1/6, 2/3, 1/6 in columns r, r+1, r+2 taken modulo n.
   */
  function Coef(topology: Topology, n: nat, r: nat, j: nat): (c: real)
    requires n > 3
    ensures 0.0 <= c <= 1.0
  {
    match topology
    case Open =>
      if r == 0 || r == n - 1 then (if j == r then 1.0 else 0.0)
      else if j + 1 == r then 1.0 / 6.0
      else if j == r then 2.0 / 3.0
      else if j == r + 1 then 1.0 / 6.0
      else 0.0
    case Closed =>
      if j == r % n then 1.0 / 6.0
      else if j == (r + 1) % n then 2.0 / 3.0
      else if j == (r + 2) % n then 1.0 / 6.0
      else 0.0
  }

  /** Row r of B as a sequence of n coefficients. */
  function Row(topology: Topology, n: nat, r: nat): (row: seq<real>)
    requires n > 3
    ensures |row| == n && forall j :: 0 <= j < n ==> row[j] == Coef(topology, n, r, j)
  {
    seq(n, (j: int) requires 0 <= j < n => Coef(topology, n, r, j))
  }

  /** The sum of the first k entries of a row. */
  function RowSum(row: seq<real>, k: nat): real
    requires k <= |row|
  {
    if k == 0 then 0.0 else RowSum(row, k - 1) + row[k - 1]
  }

  /** A row applied to the first k points: the sum of row[j] * pts[j] for j < k. */
  function Dot(row: seq<real>, pts: seq<Point>, k: nat): Point
    requires k <= |row| && k <= |pts|
  {
    if k == 0 then Origin else Add(Dot(row, pts, k - 1), Scale(row[k - 1], pts[k - 1]))
  }

  /** Knot r computed from the control polygon c, as the banded row r of B gives it. */
  function KnotRow(topology: Topology, c: seq<Point>, r: nat): (k: Point)
    requires |c| > 3 && r < |c|
    ensures (forall j :: 0 <= j < |c| ==> c[j] == c[0]) ==> k == c[0]
  {
    var n := |c|;
    match topology
    case Open =>
      if r == 0 || r == n - 1 then c[r]
      else Comb3(1.0 / 6.0, c[r - 1], 2.0 / 3.0, c[r], 1.0 / 6.0, c[r + 1])
    case Closed =>
      Comb3(1.0 / 6.0, c[r], 2.0 / 3.0, c[(r + 1) % n], 1.0 / 6.0, c[(r + 2) % n])
  }

  /** All knots derived from the control polygon c: the value of B * c. */
  function KnotsOf(topology: Topology, c: seq<Point>): (k: seq<Point>)
    requires |c| > 3
    ensures |k| == |c|
    ensures forall r :: 0 <= r < |c| ==> k[r] == KnotRow(topology, c, r)
  {
    seq(|c|, r requires 0 <= r < |c| => KnotRow(topology, c, r))
  }

  /** row[j] * pts[j], counted only when j is among the first k columns. */
  function Term(row: seq<real>, pts: seq<Point>, j: nat, k: nat): Point
    requires j < |row| && j < |pts|
  {
    if j < k then Scale(row[j], pts[j]) else Origin
  }

  /** A row with at most three non-zero columns a, b, c reduces to three terms. */
  lemma {:induction false} SparseDot(row: seq<real>, pts: seq<Point>, k: nat, a: nat, b: nat, c: nat)
    requires |row| == |pts| && k <= |pts|
    requires a < |pts| && b < |pts| && c < |pts| && a != b && b != c && a != c
    requires forall j :: 0 <= j < |row| && j != a && j != b && j != c ==> row[j] == 0.0
    ensures Dot(row, pts, k) == Add(Add(Term(row, pts, a, k), Term(row, pts, b, k)), Term(row, pts, c, k))
  {
    if k > 0 {
      SparseDot(row, pts, k - 1, a, b, c);
    }
  }

  lemma ModWrap(x: int, n: int)
    requires 0 < n && 0 <= x < 2 * n
    ensures x % n == if x < n then x else x - n
  {
    if x >= n {
      assert x == n * 1 + (x - n);
    }
  }

  /** The columns a, b, c that hold the three band entries of row r. */
  function BandColumns(topology: Topology, n: nat, r: nat): (nat, nat, nat)
    requires n > 3 && r < n
  {
    match topology
    case Open =>
      if r == 0 then (0, 1, 2)
      else if r == n - 1 then (n - 3, n - 2, n - 1)
      else (r - 1, r, r + 1)
    case Closed => (r % n, (r + 1) % n, (r + 2) % n)
  }

  /** The three CLOSED band columns of row r are r, r+1, r+2 wrapped once. */
  lemma ClosedColumns(n: nat, r: nat)
    requires n > 3 && r < n
    ensures r % n == r
    ensures (r + 1) % n == if r + 1 < n then r + 1 else r + 1 - n
    ensures (r + 2) % n == if r + 2 < n then r + 2 else r + 2 - n
  {
    ModWrap(r, n);
    ModWrap(r + 1, n);
    ModWrap(r + 2, n);
  }

  /** Every entry of row r outside its band columns is zero. */
  lemma BandIsSparse(topology: Topology, n: nat, r: nat)
    requires n > 3 && r < n
    ensures var (a, b, c) := BandColumns(topology, n, r);
      a < n && b < n && c < n && a != b && b != c && a != c &&
      forall j :: 0 <= j < n && j != a && j != b && j != c ==> Row(topology, n, r)[j] == 0.0
  {
    if topology == Closed {
      ClosedColumns(n, r);
    }
  }

  /** The dense product row r of B times pts equals the banded knot formula. */
  lemma BandedProduct(topology: Topology, pts: seq<Point>, r: nat)
    requires |pts| > 3 && r < |pts|
    ensures Dot(Row(topology, |pts|, r), pts, |pts|) == KnotRow(topology, pts, r)
  {
    if topology == Closed {
      ClosedBandedProduct(pts, r);
    } else {
      OpenBandedProduct(pts, r);
    }
  }

  lemma OpenBandedProduct(pts: seq<Point>, r: nat)
    requires |pts| > 3 && r < |pts|
    ensures Dot(Row(Open, |pts|, r), pts, |pts|) == KnotRow(Open, pts, r)
  {
    var n := |pts|;
    var row := Row(Open, n, r);
    BandIsSparse(Open, n, r);
    var (a, b, c) := BandColumns(Open, n, r);
    SparseDot(row, pts, n, a, b, c);
    ThreeTerms(row, pts, a, b, c);
    if r == 0 {
      assert row[a] == 1.0 && row[b] == 0.0 && row[c] == 0.0;
      UnitCombination(1.0, pts[a], 0.0, pts[b], 0.0, pts[c]);
    } else if r == n - 1 {
      assert row[a] == 0.0 && row[b] == 0.0 && row[c] == 1.0;
      UnitCombination(1.0, pts[c], 0.0, pts[a], 0.0, pts[b]);
    }
  }

  /** A combination whose only non-zero weight is 1 picks that point out, in any order. */
  lemma UnitCombination(w0: real, p0: Point, w1: real, p1: Point, w2: real, p2: Point)
    requires w0 == 1.0 && w1 == 0.0 && w2 == 0.0
    ensures Comb3(w0, p0, w1, p1, w2, p2) == p0
    ensures Comb3(w1, p1, w2, p2, w0, p0) == p0
  {
    assert Comb3(w0, p0, w1, p1, w2, p2) == Point(p0.x, p0.y);
    assert Comb3(w1, p1, w2, p2, w0, p0) == Point(p0.x, p0.y);
  }

  /** The three band terms of a full row are a three-point combination. */
  lemma ThreeTerms(row: seq<real>, pts: seq<Point>, a: nat, b: nat, c: nat)
    requires |row| == |pts| && a < |pts| && b < |pts| && c < |pts|
    ensures Add(Add(Term(row, pts, a, |pts|), Term(row, pts, b, |pts|)), Term(row, pts, c, |pts|))
            == Comb3(row[a], pts[a], row[b], pts[b], row[c], pts[c])
  {
  }

  lemma ClosedBandedProduct(pts: seq<Point>, r: nat)
    requires |pts| > 3 && r < |pts|
    ensures Dot(Row(Closed, |pts|, r), pts, |pts|) == KnotRow(Closed, pts, r)
  {
    var n := |pts|;
    var row := Row(Closed, n, r);
    BandIsSparse(Closed, n, r);
    var a, b, c := r % n, (r + 1) % n, (r + 2) % n;
    ClosedColumns(n, r);
    assert BandColumns(Closed, n, r) == (a, b, c);
    SparseDot(row, pts, n, a, b, c);
    assert row[a] == 1.0 / 6.0 && row[b] == 2.0 / 3.0 && row[c] == 1.0 / 6.0;
    assert Dot(row, pts, n) == Comb3(1.0 / 6.0, pts[a], 2.0 / 3.0, pts[b], 1.0 / 6.0, pts[c]);
    assert KnotRow(Closed, pts, r) == Comb3(1.0 / 6.0, pts[a], 2.0 / 3.0, pts[b], 1.0 / 6.0, pts[c]);
  }

  /** A constant polygon of k points: every point equal to p. */
  function Constant(p: Point, k: nat): (s: seq<Point>)
    ensures |s| == k && forall j :: 0 <= j < k ==> s[j] == p
  {
    seq(k, _ => p)
  }

  /** The partial row sum is the x coordinate of the row applied to the all-ones polygon. */
  lemma {:induction false} RowSumIsDotWithOnes(row: seq<real>, k: nat)
    requires k <= |row|
    ensures RowSum(row, k) == Dot(row, Constant(Point(1.0, 1.0), |row|), k).x
  {
    if k > 0 {
      RowSumIsDotWithOnes(row, k - 1);
    }
  }

  /** In both topologies every row of B sums to 1. */
  lemma RowsSumToOne(topology: Topology, n: nat, r: nat)
    requires n > 3 && r < n
    ensures RowSum(Row(topology, n, r), n) == 1.0
  {
    RowSumIsDotWithOnes(Row(topology, n, r), n);
    BandedProduct(topology, Constant(Point(1.0, 1.0), n), r);
  }

  /** Because rows sum to 1, a constant control polygon yields identical knots. */
  lemma ConstantPolygonKnots(topology: Topology, p: Point, n: nat)
    requires n > 3
    ensures KnotsOf(topology, Constant(p, n)) == Constant(p, n)
  {
  }

  /** OPEN pins the end knots to the end controls exactly. */
  lemma OpenEndsPinned(c: seq<Point>)
    requires |c| > 3
    ensures KnotsOf(Open, c)[0] == c[0] && KnotsOf(Open, c)[|c| - 1] == c[|c| - 1]
  {
  }

  /**
   * Fill B with loops as the conversion routines do: zero it, then set the
   * identity end rows (OPEN) and the three band entries of each row.
   */
  method BuildBasis(topology: Topology, n: nat) returns (B: array2<real>)
    requires n > 3
    ensures fresh(B) && B.Length0 == n && B.Length1 == n
    ensures forall r, j :: 0 <= r < n && 0 <= j < n ==> B[r, j] == Coef(topology, n, r, j)
  {
    B := new real[n, n]((r, j) => 0.0);
    if topology == Open {
      B[0, 0] := 1.0;
      B[n - 1, n - 1] := 1.0;
      for c := 1 to n - 1
        invariant forall r, j :: 0 <= r < n && 0 <= j < n ==>
          B[r, j] == if r == 0 || r == n - 1 || r < c then Coef(topology, n, r, j) else 0.0
      {
        ModWrap(c - 1, n);
        ModWrap(c, n);
        ModWrap(c + 1, n);
        B[c, (c - 1) % n] := 1.0 / 6.0;
        B[c, c % n] := 2.0 / 3.0;
        B[c, (c + 1) % n] := 1.0 / 6.0;
      }
    }
    if topology == Closed {
      for c := 0 to n
        invariant forall r, j :: 0 <= r < n && 0 <= j < n ==>
          B[r, j] == if r < c then Coef(topology, n, r, j) else 0.0
      {
        ClosedColumns(n, c);
        B[c, c % n] := 1.0 / 6.0;
        B[c, (c + 1) % n] := 2.0 / 3.0;
        B[c, (c + 2) % n] := 1.0 / 6.0;
      }
    }
  }

  /** knots = B * pts, row by row with an inner accumulation over the columns. */
  method MulBasis(B: array2<real>, topology: Topology, pts: seq<Point>) returns (knots: seq<Point>)
    requires |pts| > 3 && B.Length0 == |pts| && B.Length1 == |pts|
    requires forall r, j :: 0 <= r < |pts| && 0 <= j < |pts| ==> B[r, j] == Coef(topology, |pts|, r, j)
    ensures knots == KnotsOf(topology, pts)
  {
    var n := |pts|;
    knots := [];
    for r := 0 to n
      invariant |knots| == r
      invariant forall q :: 0 <= q < r ==> knots[q] == KnotRow(topology, pts, q)
    {
      var acc := Origin;
      for j := 0 to n
        invariant acc == Dot(Row(topology, n, r), pts, j)
      {
        acc := Add(acc, Scale(B[r, j], pts[j]));
      }
      BandedProduct(topology, pts, r);
      knots := knots + [acc];
    }
  }
}
