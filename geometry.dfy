/**
 * Plane geometry over exact reals: points, circles, squared distances and
 * square-root witnesses.  The source computes in `double`/`float` and calls
 * `Math.sqrt`; here every distance is compared squared, and where the source
 * needs a square root the caller supplies a witness `s` with `IsSqrt(s, v)`.
 */
module Geometry {

  datatype Point = Point(x: real, y: real)

  /** A circle given by its centre and radius (the source's `Circle`). */
  datatype Circle = Circle(center: Point, radius: real)

  function DistSq(p: Point, q: Point): (r: real)
    ensures r >= 0.0
  {
    (p.x - q.x) * (p.x - q.x) + (p.y - q.y) * (p.y - q.y)
  }

  /** `s` is the non-negative square root of `v`. */
  predicate IsSqrt(s: real, v: real) {
    s >= 0.0 && s * s == v
  }

  /** Square roots are unique, so a witness stands for `Math.sqrt` exactly. */
  lemma SqrtUnique(s: real, t: real, v: real)
    requires IsSqrt(s, v) && IsSqrt(t, v)
    ensures s == t
  {
    if s < t {
      SquareLess(s, t);
    } else if t < s {
      SquareLess(t, s);
    }
  }

  /** Distinct points are a positive squared distance apart. */
  lemma DistSqPositive(p: Point, q: Point)
    requires p != q
    ensures DistSq(p, q) > 0.0
  {
    var dx, dy := p.x - q.x, p.y - q.y;
    var sx, sy := dx * dx, dy * dy;
    assert DistSq(p, q) == sx + sy;
    SquareNonnegAt(dx, sx);
    SquareNonnegAt(dy, sy);
    if dx != 0.0 {
      SquarePositiveAt(dx, sx);
    } else {
      SquarePositiveAt(dy, sy);
    }
  }

  /*
   * Facts of real arithmetic the solver does not find unaided.  A square is
   * passed both as its root `e` and as its value `m`, so that what is learnt
   * about `m` carries over to the caller's own term for it.
   */

  lemma MulPositive(a: real, b: real)
    requires a > 0.0 && b > 0.0
    ensures a * b > 0.0
  {
  }

  lemma MulNonzero(a: real, b: real)
    requires a != 0.0 && b != 0.0
    ensures a * b != 0.0
  {
  }

  lemma DiffOfSquares(s: real, t: real)
    ensures (t - s) * (t + s) == t * t - s * s
  {
  }

  lemma Negate(a: real, b: real)
    requires b == -a
    ensures a * a == b * b
  {
  }

  lemma SquareLess(s: real, t: real)
    requires 0.0 <= s < t
    ensures s * s < t * t
  {
    var u, w := t - s, t + s;
    MulPositive(u, w);
    DiffOfSquares(s, t);
  }

  lemma SquareNonnegAt(e: real, m: real)
    requires m == e * e
    ensures m >= 0.0
  {
  }

  lemma SquarePositiveAt(e: real, m: real)
    requires e != 0.0 && m == e * e
    ensures m > 0.0
  {
    SquareLess(0.0, if e > 0.0 then e else -e);
  }

  lemma Cancel(k: real, a: real, b: real)
    requires k != 0.0 && k * a == k * b
    ensures a == b
  {
    assert k * (a - b) == 0.0;
    if a != b {
      MulNonzero(k, a - b);
    }
  }

  lemma ScaleSquare(k: real, a: real)
    ensures k * k * (a * a) == (k * a) * (k * a)
  {
  }

  lemma Distribute(k: real, a: real, b: real)
    ensures k * (a + b) == k * a + k * b
  {
  }

  lemma DivideThenMultiply(a: real, k: real)
    requires k != 0.0
    ensures k * (a / k) == a
  {
  }

  predicate StrictlyInside(p: Point, c: Circle) {
    DistSq(p, c.center) < c.radius * c.radius
  }

  predicate StrictlyOutside(p: Point, c: Circle) {
    DistSq(p, c.center) > c.radius * c.radius
  }

  predicate OnCircle(p: Point, c: Circle) {
    DistSq(p, c.center) == c.radius * c.radius
  }

  /** The universe rectangle [0, width] x [0, height], boundary included. */
  predicate InUniverse(p: Point, width: real, height: real) {
    0.0 <= p.x <= width && 0.0 <= p.y <= height
  }
}
