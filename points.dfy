/** Planar points with exact real coordinates and the vector operations the spline uses. */
module Points {
  /** A 2-D point (the application instantiates the spline with dim = 2). */
  datatype Point = Point(x: real, y: real)

  const Origin: Point := Point(0.0, 0.0)

  function Add(p: Point, q: Point): Point {
    Point(p.x + q.x, p.y + q.y)
  }

  function Sub(p: Point, q: Point): Point {
    Point(p.x - q.x, p.y - q.y)
  }

  function Scale(a: real, p: Point): Point {
    Point(a * p.x, a * p.y)
  }

  /** a*p + b*q + c*r, the shape of one banded row of the basis matrix. */
  function Comb3(a: real, p: Point, b: real, q: Point, c: real, r: Point): Point {
    Point(a * p.x + b * q.x + c * r.x, a * p.y + b * q.y + c * r.y)
  }
}
