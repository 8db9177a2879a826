/**
 * `generateIntersections` (Main.java): the points where the boundaries of two
 * capture disks cross, kept only when they lie in the universe rectangle.
 *
 * With centres c1, c2 at distance d and radii r1, r2 the construction is the
 * standard one: the foot of the common chord lies at distance
 * a = (r1^2 - r2^2 + d^2) / (2d) from c1 along c1 -> c2, the chord's half
 * length is h = sqrt(r1^2 - a^2), and the two candidates lie h away from the
 * foot on either side, perpendicular to c1 -> c2.
 */
module Intersections {
  import opened Options
  import opened Geometry
  import opened CaptureDisks

  /** The distance from c1 to the foot of the common chord (the source's `d1`). */
  function Along(r1: real, r2: real, d: real): (a: real)
    requires d != 0.0
    ensures 2.0 * d * a == r1 * r1 - r2 * r2 + d * d
    ensures r1 * r1 - a * a == r2 * r2 - (d - a) * (d - a)
  {
    var n := r1 * r1 - r2 * r2 + d * d;
    DivideThenMultiply(n, 2.0 * d);
    ChordFoot(n / (2.0 * d), d, d * d, r1 * r1, r2 * r2);
    Negate(n / (2.0 * d) - d, d - n / (2.0 * d));
    n / (2.0 * d)
  }

  /**
   * The squared half length of the common chord, r1^2 - a^2; times 4 d^2 it
   * is the product of Heron's formula for the triangle c1, c2 and a common point.
   */
  function HeightSq(r1: real, r2: real, d: real): (s: real)
    requires d != 0.0
    ensures 4.0 * (d * d) * s == (d + r2 - r1) * (r1 + r2 - d) * (d + r1 - r2) * (r1 + d + r2)
  {
    var a := Along(r1, r2, d);
    var n := r1 * r1 - r2 * r2 + d * d;
    ScaledHeight(r1, r2, d, a, n);
    HeightFactors(r1, r2, d, n);
    r1 * r1 - a * a
  }

  /**
   * The two candidates (x4i, y4i) and (x4ii, y4ii) for circles `c1`, `c2`
   * whose centres are `d` apart, `h` being the half chord.
   */
  function Candidates(c1: Circle, c2: Circle, d: real, h: real): (r: (Point, Point))
    requires d != 0.0
    ensures ReachedFrom(c1, c2, d, h, r.0) && ReachedFrom(c1, c2, d, -h, r.1)
  {
    var a := Along(c1.radius, c2.radius, d);
    var dx, dy := c2.center.x - c1.center.x, c2.center.y - c1.center.y;
    var x3 := c1.center.x + (a * dx) / d;
    var y3 := c1.center.y + (a * dy) / d;
    NegateDiv(h, dx, d);
    NegateDiv(h, dy, d);
    (Point(x3 + (h * dy) / d, y3 - (h * dx) / d), Point(x3 - (h * dy) / d, y3 + (h * dx) / d))
  }

  /* ---------------------------------------------------------------------
   * Algebra of the construction
   * ------------------------------------------------------------------- */

  /** The direction c1 -> c2 divided by its length is a unit vector. */
  lemma UnitDirection(dx: real, dy: real, d: real)
    requires d != 0.0 && d * d == dx * dx + dy * dy
    ensures (dx / d) * (dx / d) + (dy / d) * (dy / d) == 1.0
  {
    var ux, uy, dd := dx / d, dy / d, d * d;
    ScaledQuotientSquare(dx, d, dd);
    ScaledQuotientSquare(dy, d, dd);
    Distribute(dd, ux * ux, uy * uy);
    SquarePositiveAt(d, dd);
    Cancel(dd, ux * ux + uy * uy, 1.0);
  }

  lemma ScaledQuotientSquare(a: real, d: real, dd: real)
    requires d != 0.0 && dd == d * d
    ensures dd * ((a / d) * (a / d)) == a * a
  {
    var u := a / d;
    DivideThenMultiply(a, d);
    ScaleSquare(d, u);
    SquareOfEqual(d * u, a);
  }

  lemma SquareOfEqual(a: real, b: real)
    requires a == b
    ensures a * a == b * b
  {
  }

  /** Coordinates along a unit vector and its perpendicular preserve length. */
  lemma RotatedNorm(ux: real, uy: real, al: real, be: real)
    requires ux * ux + uy * uy == 1.0
    ensures (al * ux + be * uy) * (al * ux + be * uy) + (al * uy - be * ux) * (al * uy - be * ux)
         == al * al + be * be
  {
    Expand(ux, uy, al, be);
    MulOne(al * al, ux * ux + uy * uy);
    MulOne(be * be, ux * ux + uy * uy);
  }

  lemma Expand(ux: real, uy: real, al: real, be: real)
    ensures (al * ux + be * uy) * (al * ux + be * uy) + (al * uy - be * ux) * (al * uy - be * ux)
         == (al * al) * (ux * ux + uy * uy) + (be * be) * (ux * ux + uy * uy)
  {
  }

  lemma MulOne(k: real, s: real)
    requires s == 1.0
    ensures k * s == k
  {
  }

  /** A point given by its coordinates along a unit vector and its perpendicular, from `o`. */
  lemma OffsetNorm(p: Point, o: Point, ux: real, uy: real, al: real, be: real)
    requires ux * ux + uy * uy == 1.0
    requires p.x - o.x == al * ux + be * uy
    requires p.y - o.y == al * uy - be * ux
    ensures DistSq(p, o) == al * al + be * be
  {
    RotatedNorm(ux, uy, al, be);
  }

  lemma DivAssoc(a: real, x: real, d: real)
    requires d != 0.0
    ensures (a * x) / d == a * (x / d)
  {
  }

  lemma SubDistribute(a: real, d: real, u: real)
    ensures (a - d) * u == a * u - d * u
  {
  }

  /** The foot of the chord makes (a - d)^2 + (r1^2 - a^2) equal to r2^2. */
  lemma ChordFoot(a: real, d: real, dd: real, r1s: real, r2s: real)
    requires dd == d * d
    requires (2.0 * d) * a == r1s - r2s + dd
    ensures (a - d) * (a - d) + (r1s - a * a) == r2s
  {
  }

  /** The squared distance between the centres, as the difference c2 - c1. */
  lemma CentreDistance(c1: Point, c2: Point)
    ensures DistSq(c1, c2) == (c2.x - c1.x) * (c2.x - c1.x) + (c2.y - c1.y) * (c2.y - c1.y)
  {
    Negate(c1.x - c2.x, c2.x - c1.x);
    Negate(c1.y - c2.y, c2.y - c1.y);
  }

  /** The unit vector from the first centre towards the second, by coordinates. */
  function UnitX(c1: Circle, c2: Circle, d: real): real
    requires d != 0.0
  {
    (c2.center.x - c1.center.x) / d
  }

  function UnitY(c1: Circle, c2: Circle, d: real): real
    requires d != 0.0
  {
    (c2.center.y - c1.center.y) / d
  }

  /**
   * `p` is reached from the first centre by `Along` in the direction of the
   * second centre and by `be` across it: the shape of both candidates.
   */
  predicate ReachedFrom(c1: Circle, c2: Circle, d: real, be: real, p: Point)
    requires d != 0.0
  {
    && p.x == c1.center.x + (Along(c1.radius, c2.radius, d) * (c2.center.x - c1.center.x)) / d
                          + (be * (c2.center.y - c1.center.y)) / d
    && p.y == c1.center.y + (Along(c1.radius, c2.radius, d) * (c2.center.y - c1.center.y)) / d
                          - (be * (c2.center.x - c1.center.x)) / d
  }

  lemma OffsetFromFirst(c1: Circle, c2: Circle, d: real, be: real, p: Point)
    requires d != 0.0 && ReachedFrom(c1, c2, d, be, p)
    ensures p.x - c1.center.x == Along(c1.radius, c2.radius, d) * UnitX(c1, c2, d) + be * UnitY(c1, c2, d)
    ensures p.y - c1.center.y == Along(c1.radius, c2.radius, d) * UnitY(c1, c2, d) - be * UnitX(c1, c2, d)
  {
    DivAssoc(Along(c1.radius, c2.radius, d), c2.center.x - c1.center.x, d);
    DivAssoc(Along(c1.radius, c2.radius, d), c2.center.y - c1.center.y, d);
    DivAssoc(be, c2.center.x - c1.center.x, d);
    DivAssoc(be, c2.center.y - c1.center.y, d);
  }

  lemma OffsetFromSecond(c1: Circle, c2: Circle, d: real, be: real, p: Point)
    requires d != 0.0 && ReachedFrom(c1, c2, d, be, p)
    ensures p.x - c2.center.x == (Along(c1.radius, c2.radius, d) - d) * UnitX(c1, c2, d) + be * UnitY(c1, c2, d)
    ensures p.y - c2.center.y == (Along(c1.radius, c2.radius, d) - d) * UnitY(c1, c2, d) - be * UnitX(c1, c2, d)
  {
    OffsetFromFirst(c1, c2, d, be, p);
    DivideThenMultiply(c2.center.x - c1.center.x, d);
    DivideThenMultiply(c2.center.y - c1.center.y, d);
    SubDistribute(Along(c1.radius, c2.radius, d), d, UnitX(c1, c2, d));
    SubDistribute(Along(c1.radius, c2.radius, d), d, UnitY(c1, c2, d));
  }

  lemma UnitLength(c1: Circle, c2: Circle, d: real)
    requires d != 0.0 && d * d == DistSq(c1.center, c2.center)
    ensures UnitX(c1, c2, d) * UnitX(c1, c2, d) + UnitY(c1, c2, d) * UnitY(c1, c2, d) == 1.0
  {
    CentreDistance(c1.center, c2.center);
    UnitDirection(c2.center.x - c1.center.x, c2.center.y - c1.center.y, d);
  }

  /** A point reached from c1 as the candidates are, with be^2 the squared half chord, is on the first circle. */
  lemma ReachedOnFirst(c1: Circle, c2: Circle, d: real, be: real, p: Point)
    requires d != 0.0 && d * d == DistSq(c1.center, c2.center)
    requires be * be == HeightSq(c1.radius, c2.radius, d)
    requires ReachedFrom(c1, c2, d, be, p)
    ensures OnCircle(p, c1)
  {
    UnitLength(c1, c2, d);
    OffsetFromFirst(c1, c2, d, be, p);
    OffsetNorm(p, c1.center, UnitX(c1, c2, d), UnitY(c1, c2, d), Along(c1.radius, c2.radius, d), be);
  }

  /** ... and on the second. */
  lemma ReachedOnSecond(c1: Circle, c2: Circle, d: real, be: real, p: Point)
    requires d != 0.0 && d * d == DistSq(c1.center, c2.center)
    requires be * be == HeightSq(c1.radius, c2.radius, d)
    requires ReachedFrom(c1, c2, d, be, p)
    ensures OnCircle(p, c2)
  {
    UnitLength(c1, c2, d);
    OffsetFromSecond(c1, c2, d, be, p);
    OffsetNorm(p, c2.center, UnitX(c1, c2, d), UnitY(c1, c2, d), Along(c1.radius, c2.radius, d) - d, be);
    DivideThenMultiply(c1.radius * c1.radius - c2.radius * c2.radius + d * d, 2.0 * d);
    ChordFoot(Along(c1.radius, c2.radius, d), d, d * d, c1.radius * c1.radius, c2.radius * c2.radius);
  }

  lemma NegateDiv(h: real, x: real, d: real)
    requires d != 0.0
    ensures ((-h) * x) / d == -((h * x) / d)
  {
  }

  /** Both candidates lie on both circles whenever d > 0 and h is the half chord. */
  lemma CandidatesOnBothCircles(c1: Circle, c2: Circle, d: real, h: real)
    requires d != 0.0 && d * d == DistSq(c1.center, c2.center)
    requires h * h == HeightSq(c1.radius, c2.radius, d)
    ensures var (p, q) := Candidates(c1, c2, d, h);
      OnCircle(p, c1) && OnCircle(p, c2) && OnCircle(q, c1) && OnCircle(q, c2)
  {
    var (p, q) := Candidates(c1, c2, d, h);
    assert ReachedFrom(c1, c2, d, h, p);
    ReachedOnFirst(c1, c2, d, h, p);
    ReachedOnSecond(c1, c2, d, h, p);
    NegateDiv(h, c2.center.x - c1.center.x, d);
    NegateDiv(h, c2.center.y - c1.center.y, d);
    assert ReachedFrom(c1, c2, d, -h, q);
    Negate(h, -h);
    ReachedOnFirst(c1, c2, d, -h, q);
    ReachedOnSecond(c1, c2, d, -h, q);
  }

  /** Tangent circles (h = 0) give the same candidate twice. */
  lemma TangentCandidatesCoincide(c1: Circle, c2: Circle, d: real)
    requires d != 0.0
    ensures Candidates(c1, c2, d, 0.0).0 == Candidates(c1, c2, d, 0.0).1
  {
  }

  /** With a non-zero half chord and distinct centres the two candidates differ. */
  lemma CandidatesDistinct(c1: Circle, c2: Circle, d: real, h: real)
    requires d != 0.0 && d * d == DistSq(c1.center, c2.center)
    requires h != 0.0
    ensures Candidates(c1, c2, d, h).0 != Candidates(c1, c2, d, h).1
  {
    var (p, q) := Candidates(c1, c2, d, h);
    if p == q {
      var dx, dy := c2.center.x - c1.center.x, c2.center.y - c1.center.y;
      assert (h * dy) / d == 0.0 && (h * dx) / d == 0.0;
      ZeroQuotient(h, dx, d);
      ZeroQuotient(h, dy, d);
      CentreDistance(c1.center, c2.center);
      SquarePositiveAt(d, DistSq(c1.center, c2.center));
      assert false;
    }
  }

  lemma ZeroQuotient(h: real, x: real, d: real)
    requires d != 0.0 && h != 0.0 && (h * x) / d == 0.0
    ensures x == 0.0
  {
    DivideThenMultiply(h * x, d);
    if x != 0.0 {
      MulNonzero(h, x);
    }
  }

  /* ---------------------------------------------------------------------
   * Completeness: every common point of the two circles is a candidate
   * ------------------------------------------------------------------- */

  /** The coordinate of `p - c1` along c1 -> c2 ... */
  function AlongOf(c1: Circle, c2: Circle, d: real, p: Point): real
    requires d != 0.0
  {
    (p.x - c1.center.x) * UnitX(c1, c2, d) + (p.y - c1.center.y) * UnitY(c1, c2, d)
  }

  /** ... and across it, in the direction the first candidate takes. */
  function AcrossOf(c1: Circle, c2: Circle, d: real, p: Point): real
    requires d != 0.0
  {
    (p.x - c1.center.x) * UnitY(c1, c2, d) - (p.y - c1.center.y) * UnitX(c1, c2, d)
  }

  /** A vector is recovered from its coordinates along a unit vector and across it. */
  lemma Reconstruct(vx: real, vy: real, ux: real, uy: real)
    requires ux * ux + uy * uy == 1.0
    ensures (vx * ux + vy * uy) * ux + (vx * uy - vy * ux) * uy == vx
    ensures (vx * ux + vy * uy) * uy - (vx * uy - vy * ux) * ux == vy
  {
    ReconstructExpand(vx, vy, ux, uy);
    MulOne(vx, ux * ux + uy * uy);
    MulOne(vy, ux * ux + uy * uy);
  }

  lemma ReconstructExpand(vx: real, vy: real, ux: real, uy: real)
    ensures (vx * ux + vy * uy) * ux + (vx * uy - vy * ux) * uy == vx * (ux * ux + uy * uy)
    ensures (vx * ux + vy * uy) * uy - (vx * uy - vy * ux) * ux == vy * (ux * ux + uy * uy)
  {
  }

  lemma DecomposeFromFirst(c1: Circle, c2: Circle, d: real, p: Point)
    requires d != 0.0 && d * d == DistSq(c1.center, c2.center)
    ensures p.x - c1.center.x
         == AlongOf(c1, c2, d, p) * UnitX(c1, c2, d) + AcrossOf(c1, c2, d, p) * UnitY(c1, c2, d)
    ensures p.y - c1.center.y
         == AlongOf(c1, c2, d, p) * UnitY(c1, c2, d) - AcrossOf(c1, c2, d, p) * UnitX(c1, c2, d)
  {
    UnitLength(c1, c2, d);
    Reconstruct(p.x - c1.center.x, p.y - c1.center.y, UnitX(c1, c2, d), UnitY(c1, c2, d));
  }

  lemma DecomposeFromSecond(c1: Circle, c2: Circle, d: real, p: Point)
    requires d != 0.0 && d * d == DistSq(c1.center, c2.center)
    ensures p.x - c2.center.x
         == (AlongOf(c1, c2, d, p) - d) * UnitX(c1, c2, d) + AcrossOf(c1, c2, d, p) * UnitY(c1, c2, d)
    ensures p.y - c2.center.y
         == (AlongOf(c1, c2, d, p) - d) * UnitY(c1, c2, d) - AcrossOf(c1, c2, d, p) * UnitX(c1, c2, d)
  {
    DecomposeFromFirst(c1, c2, d, p);
    DivideThenMultiply(c2.center.x - c1.center.x, d);
    DivideThenMultiply(c2.center.y - c1.center.y, d);
    SubDistribute(AlongOf(c1, c2, d, p), d, UnitX(c1, c2, d));
    SubDistribute(AlongOf(c1, c2, d, p), d, UnitY(c1, c2, d));
  }

  /** The squared distances of any point to the two centres, in these coordinates. */
  lemma DistanceToFirst(c1: Circle, c2: Circle, d: real, p: Point)
    requires d != 0.0 && d * d == DistSq(c1.center, c2.center)
    ensures DistSq(p, c1.center)
         == AlongOf(c1, c2, d, p) * AlongOf(c1, c2, d, p) + AcrossOf(c1, c2, d, p) * AcrossOf(c1, c2, d, p)
  {
    UnitLength(c1, c2, d);
    DecomposeFromFirst(c1, c2, d, p);
    OffsetNorm(p, c1.center, UnitX(c1, c2, d), UnitY(c1, c2, d), AlongOf(c1, c2, d, p), AcrossOf(c1, c2, d, p));
  }

  lemma DistanceToSecond(c1: Circle, c2: Circle, d: real, p: Point)
    requires d != 0.0 && d * d == DistSq(c1.center, c2.center)
    ensures DistSq(p, c2.center)
         == (AlongOf(c1, c2, d, p) - d) * (AlongOf(c1, c2, d, p) - d)
            + AcrossOf(c1, c2, d, p) * AcrossOf(c1, c2, d, p)
  {
    UnitLength(c1, c2, d);
    DecomposeFromSecond(c1, c2, d, p);
    OffsetNorm(p, c2.center, UnitX(c1, c2, d), UnitY(c1, c2, d), AlongOf(c1, c2, d, p) - d, AcrossOf(c1, c2, d, p));
  }

  /** Two squared distances that differ as the circles' do fix the coordinate along c1 -> c2. */
  lemma AlongFixed(s: real, t2: real, d: real, r1s: real, r2s: real)
    requires d != 0.0
    requires s * s + t2 == r1s
    requires (s - d) * (s - d) + t2 == r2s
    ensures s == (r1s - r2s + d * d) / (2.0 * d)
  {
    assert (2.0 * d) * s == r1s - r2s + d * d;
    DivideThenMultiply(r1s - r2s + d * d, 2.0 * d);
    Cancel(2.0 * d, s, (r1s - r2s + d * d) / (2.0 * d));
  }

  /**
   * A point on both circles sits where the construction puts its candidates:
   * its coordinate along c1 -> c2 is `Along`, the square of its coordinate
   * across is the squared half chord, and it is reached from c1 accordingly.
   */
  lemma CommonPointCoordinates(c1: Circle, c2: Circle, d: real, p: Point)
    requires d != 0.0 && d * d == DistSq(c1.center, c2.center)
    requires OnCircle(p, c1) && OnCircle(p, c2)
    ensures AlongOf(c1, c2, d, p) == Along(c1.radius, c2.radius, d)
    ensures AcrossOf(c1, c2, d, p) * AcrossOf(c1, c2, d, p) == HeightSq(c1.radius, c2.radius, d)
    ensures ReachedFrom(c1, c2, d, AcrossOf(c1, c2, d, p), p)
  {
    DistanceToFirst(c1, c2, d, p);
    DistanceToSecond(c1, c2, d, p);
    AlongFixed(AlongOf(c1, c2, d, p), AcrossOf(c1, c2, d, p) * AcrossOf(c1, c2, d, p), d,
               c1.radius * c1.radius, c2.radius * c2.radius);
    AlongReaches(c1, c2, d, p);
  }

  /** A point whose coordinate along c1 -> c2 is `Along` is reached from c1 by its coordinate across. */
  lemma AlongReaches(c1: Circle, c2: Circle, d: real, p: Point)
    requires d != 0.0 && d * d == DistSq(c1.center, c2.center)
    requires AlongOf(c1, c2, d, p) == Along(c1.radius, c2.radius, d)
    ensures ReachedFrom(c1, c2, d, AcrossOf(c1, c2, d, p), p)
  {
    DecomposeFromFirst(c1, c2, d, p);
    DivAssoc(Along(c1.radius, c2.radius, d), c2.center.x - c1.center.x, d);
    DivAssoc(Along(c1.radius, c2.radius, d), c2.center.y - c1.center.y, d);
    DivAssoc(AcrossOf(c1, c2, d, p), c2.center.x - c1.center.x, d);
    DivAssoc(AcrossOf(c1, c2, d, p), c2.center.y - c1.center.y, d);
  }

  /** Two circles with distinct centres that share a point have a real half chord. */
  lemma CommonPointGivesHeight(c1: Circle, c2: Circle, d: real, p: Point)
    requires d != 0.0 && d * d == DistSq(c1.center, c2.center)
    requires OnCircle(p, c1) && OnCircle(p, c2)
    ensures HeightSq(c1.radius, c2.radius, d) >= 0.0
  {
    CommonPointCoordinates(c1, c2, d, p);
    SquareNonnegAt(AcrossOf(c1, c2, d, p), HeightSq(c1.radius, c2.radius, d));
  }

  /** Every point on both circles is one of the two candidates. */
  lemma CommonPointIsCandidate(c1: Circle, c2: Circle, d: real, h: real, p: Point)
    requires d != 0.0 && d * d == DistSq(c1.center, c2.center)
    requires IsSqrt(h, HeightSq(c1.radius, c2.radius, d))
    requires OnCircle(p, c1) && OnCircle(p, c2)
    ensures p == Candidates(c1, c2, d, h).0 || p == Candidates(c1, c2, d, h).1
  {
    var t := AcrossOf(c1, c2, d, p);
    CommonPointCoordinates(c1, c2, d, p);
    if t >= 0.0 {
      SqrtUnique(t, h, HeightSq(c1.radius, c2.radius, d));
      assert p == Candidates(c1, c2, d, h).0;
    } else {
      Negate(t, -t);
      SqrtUnique(-t, h, HeightSq(c1.radius, c2.radius, d));
      assert ReachedFrom(c1, c2, d, -h, p);
      ReachedAcrossNegated(c1, c2, d, h, p);
    }
  }

  lemma ReachedAcrossNegated(c1: Circle, c2: Circle, d: real, h: real, p: Point)
    requires d != 0.0 && ReachedFrom(c1, c2, d, -h, p)
    ensures p == Candidates(c1, c2, d, h).1
  {
    NegateDiv(h, c2.center.x - c1.center.x, d);
    NegateDiv(h, c2.center.y - c1.center.y, d);
  }

  /* ---------------------------------------------------------------------
   * When the half chord is real
   * ------------------------------------------------------------------- */

  lemma MulNonneg(a: real, b: real)
    requires a >= 0.0 && b >= 0.0
    ensures a * b >= 0.0
  {
    if a > 0.0 && b > 0.0 { MulPositive(a, b); }
  }

  lemma MulNegative(a: real, b: real)
    requires a < 0.0 && b > 0.0
    ensures a * b < 0.0
  {
    MulPositive(-a, b);
  }

  /** Three numbers whose pairwise sums are non-negative (one positive) have a non-negative product exactly when none is negative. */
  lemma ProductOfThreeSign(a: real, b: real, c: real)
    requires a + b >= 0.0 && b + c >= 0.0 && a + c > 0.0
    ensures a * b * c >= 0.0 <==> a >= 0.0 && b >= 0.0 && c >= 0.0
  {
    if a >= 0.0 && b >= 0.0 && c >= 0.0 {
      MulNonneg(a, b);
      MulNonneg(a * b, c);
    } else if a < 0.0 {
      MulPositive(b, c);
      MulNegative(a, b * c);
      assert a * b * c == a * (b * c);
    } else if b < 0.0 {
      MulPositive(a, c);
      MulNegative(b, a * c);
      assert a * b * c == b * (a * c);
    } else {
      MulPositive(a, b);
      MulNegative(c, a * b);
    }
  }

  lemma SignThroughScale(d: real, x: real, p: real, e: real)
    requires d != 0.0
    requires e > 0.0
    requires 4.0 * (d * d) * x == p * e
    ensures x >= 0.0 <==> p >= 0.0
  {
    var k := 4.0 * (d * d);
    SquarePositiveAt(d, d * d);
    if x >= 0.0 && p < 0.0 {
      MulNonneg(k, x);
      MulNegative(p, e);
    }
    if x < 0.0 && p >= 0.0 {
      MulNegative(x, k);
      MulNonneg(p, e);
    }
  }

  /** 4 d^2 (r1^2 - a^2) = (2 d r1)^2 - (2 d a)^2 with 2 d a = r1^2 - r2^2 + d^2. */
  lemma ScaledHeight(r1: real, r2: real, d: real, a: real, n: real)
    requires d != 0.0 && n == r1 * r1 - r2 * r2 + d * d && a == n / (2.0 * d)
    ensures 4.0 * (d * d) * (r1 * r1 - a * a) == (2.0 * d * r1) * (2.0 * d * r1) - n * n
  {
    DivideThenMultiply(n, 2.0 * d);
    ScaleSquare(2.0 * d, a);
    ScaleSquare(2.0 * d, r1);
  }

  lemma HeightFactors(r1: real, r2: real, d: real, n: real)
    requires n == r1 * r1 - r2 * r2 + d * d
    ensures (2.0 * d * r1) * (2.0 * d * r1) - n * n
            == (d + r2 - r1) * (r1 + r2 - d) * (d + r1 - r2) * (r1 + d + r2)
  {
  }

  /**
   * The square root of the half chord is real exactly when the circles meet:
   * the centres are no further apart than the sum of the radii and no closer
   * than their difference.
   */
  lemma HeightSqSign(r1: real, r2: real, d: real)
    requires r1 >= 0.0 && r2 >= 0.0 && d > 0.0
    ensures HeightSq(r1, r2, d) >= 0.0 <==> r1 - r2 <= d && r2 - r1 <= d && d <= r1 + r2
  {
    var n := r1 * r1 - r2 * r2 + d * d;
    ScaledHeight(r1, r2, d, Along(r1, r2, d), n);
    HeightFactors(r1, r2, d, n);
    var p := (d + r2 - r1) * (r1 + r2 - d) * (d + r1 - r2);
    ProductOfThreeSign(d + r2 - r1, r1 + r2 - d, d + r1 - r2);
    SignThroughScale(d, HeightSq(r1, r2, d), p, r1 + d + r2);
  }

  lemma ProductOfThreePositive(a: real, b: real, c: real)
    requires a + b >= 0.0 && b + c >= 0.0 && a + c > 0.0
    ensures a * b * c > 0.0 <==> a > 0.0 && b > 0.0 && c > 0.0
  {
    if a > 0.0 && b > 0.0 && c > 0.0 {
      MulPositive(a, b);
      MulPositive(a * b, c);
    } else if a < 0.0 {
      MulPositive(b, c);
      MulNegative(a, b * c);
      assert a * b * c == a * (b * c);
    } else if b < 0.0 {
      MulPositive(a, c);
      MulNegative(b, a * c);
      assert a * b * c == b * (a * c);
    } else if c < 0.0 {
      MulPositive(a, b);
      MulNegative(c, a * b);
    } else {
      assert a == 0.0 || b == 0.0 || c == 0.0;
    }
  }

  lemma StrictSignThroughScale(d: real, x: real, p: real, e: real)
    requires d != 0.0
    requires e > 0.0
    requires 4.0 * (d * d) * x == p * e
    ensures x > 0.0 <==> p > 0.0
  {
    var k := 4.0 * (d * d);
    SquarePositiveAt(d, d * d);
    if x > 0.0 && p < 0.0 {
      MulPositive(k, x);
      MulNegative(p, e);
    }
    if x < 0.0 && p > 0.0 {
      MulNegative(x, k);
      MulPositive(p, e);
    }
    if x == 0.0 && p != 0.0 {
      MulNonzero(p, e);
    }
    if p == 0.0 && x != 0.0 {
      MulNonzero(k, x);
    }
  }

  lemma PositiveFromFactors(d: real, x: real, a: real, b: real, c: real, e: real)
    requires d != 0.0 && e > 0.0
    requires a + b >= 0.0 && b + c >= 0.0 && a + c > 0.0
    requires 4.0 * (d * d) * x == a * b * c * e
    ensures x > 0.0 <==> a > 0.0 && b > 0.0 && c > 0.0
  {
    ProductOfThreePositive(a, b, c);
    StrictSignThroughScale(d, x, a * b * c, e);
  }

  /**
   * The half chord is positive, so that the two candidates differ, exactly
   * when the circles cross: the centres are closer than the sum of the radii
   * and further apart than their difference.
   */
  lemma HeightSqPositive(r1: real, r2: real, d: real)
    requires r1 >= 0.0 && r2 >= 0.0 && d > 0.0
    ensures HeightSq(r1, r2, d) > 0.0 <==> r1 - r2 < d && r2 - r1 < d && d < r1 + r2
  {
    var n := r1 * r1 - r2 * r2 + d * d;
    ScaledHeight(r1, r2, d, Along(r1, r2, d), n);
    HeightFactors(r1, r2, d, n);
    PositiveFromFactors(d, HeightSq(r1, r2, d), d + r2 - r1, r1 + r2 - d, d + r1 - r2, r1 + d + r2);
  }

  /** Circles that cross, rather than touch, give two different candidates. */
  lemma CrossingCirclesGiveTwoPoints(c1: Circle, c2: Circle, d: real, h: real)
    requires c1.radius >= 0.0 && c2.radius >= 0.0
    requires d > 0.0 && d * d == DistSq(c1.center, c2.center)
    requires c1.radius - c2.radius < d && c2.radius - c1.radius < d && d < c1.radius + c2.radius
    requires IsSqrt(h, HeightSq(c1.radius, c2.radius, d))
    ensures Candidates(c1, c2, d, h).0 != Candidates(c1, c2, d, h).1
  {
    HeightSqPositive(c1.radius, c2.radius, d);
    assert h != 0.0;
    CandidatesDistinct(c1, c2, d, h);
  }

  /** Tangent circles: both candidates are the touching point, so it is reported twice. */
  lemma TangentPointReportedTwice(c1: Circle, c2: Circle, d: real, width: real, height: real)
    requires d != 0.0
    requires InUniverse(Candidates(c1, c2, d, 0.0).0, width, height)
    ensures Kept([Candidates(c1, c2, d, 0.0).0, Candidates(c1, c2, d, 0.0).1], width, height)
            == [Candidates(c1, c2, d, 0.0).0, Candidates(c1, c2, d, 0.0).0]
  {
    TangentCandidatesCoincide(c1, c2, d);
    var p := Candidates(c1, c2, d, 0.0).0;
    assert [p, p][1..] == [p];
  }

  /* ---------------------------------------------------------------------
   * Clipping and the operation itself
   * ------------------------------------------------------------------- */

  /** The points of `ps` inside the universe rectangle, in their order. */
  function Kept(ps: seq<Point>, width: real, height: real): (r: seq<Point>)
    ensures |r| <= |ps|
    ensures forall x :: x in r ==> x in ps && InUniverse(x, width, height)
    ensures forall x :: x in ps && InUniverse(x, width, height) ==> x in r
  {
    if ps == [] then []
    else (if InUniverse(ps[0], width, height) then [ps[0]] else []) + Kept(ps[1..], width, height)
  }

  /** Clipping keeps each point's position relative to the others: a point before another stays before it. */
  lemma {:induction false} KeptPreservesOrder(ps: seq<Point>, width: real, height: real, i: nat, j: nat)
    requires i < j < |ps|
    requires InUniverse(ps[i], width, height) && InUniverse(ps[j], width, height)
    ensures exists k, l :: 0 <= k < l < |Kept(ps, width, height)|
                           && Kept(ps, width, height)[k] == ps[i] && Kept(ps, width, height)[l] == ps[j]
  {
    var rest := Kept(ps[1..], width, height);
    if i == 0 {
      assert ps[j] in ps[1..];
      var l :| 0 <= l < |rest| && rest[l] == ps[j];
      assert Kept(ps, width, height) == [ps[0]] + rest;
      assert Kept(ps, width, height)[0] == ps[i];
      assert Kept(ps, width, height)[1 + l] == ps[j];
    } else {
      KeptPreservesOrder(ps[1..], width, height, i - 1, j - 1);
      var k, l :| 0 <= k < l < |rest| && rest[k] == ps[i] && rest[l] == ps[j];
      var head := if InUniverse(ps[0], width, height) then [ps[0]] else [];
      assert Kept(ps, width, height) == head + rest;
      assert Kept(ps, width, height)[|head| + k] == ps[i];
      assert Kept(ps, width, height)[|head| + l] == ps[j];
    }
  }

  /**
   * `generateIntersections`: the in-universe crossing points of two capture
   * disks' boundaries, or `None` when there are none to compute: the disks
   * are equal, too far apart, concentric, or one lies inside the other (the
   * source notices the last two through NaN coordinates).  `d` is the
   * distance between the centres and `h` the half chord, the source's two
   * `Math.sqrt` results, the second meaningful only when its argument is not
   * negative.
   */
  method GenerateIntersections(cd1: CaptureDisk, cd2: CaptureDisk, universeWidth: real, universeHeight: real,
                               d: real, h: real)
    returns (r: Option<seq<Point>>)
    requires IsSqrt(d, DistSq(cd1.disk.center, cd2.disk.center))
    requires d != 0.0 && HeightSq(cd1.disk.radius, cd2.disk.radius, d) >= 0.0
             ==> IsSqrt(h, HeightSq(cd1.disk.radius, cd2.disk.radius, d))
    ensures r.None? <==> || cd1.Equals(cd2)
                         || d > cd1.disk.radius + cd2.disk.radius
                         || d == 0.0
                         || HeightSq(cd1.disk.radius, cd2.disk.radius, d) < 0.0
    ensures r.Some? ==> r.value == Kept([Candidates(cd1.disk, cd2.disk, d, h).0,
                                         Candidates(cd1.disk, cd2.disk, d, h).1], universeWidth, universeHeight)
    ensures r.Some? ==> |r.value| <= 2
    ensures r.Some? ==> forall p :: p in r.value ==>
                          InUniverse(p, universeWidth, universeHeight) && OnCircle(p, cd1.disk) && OnCircle(p, cd2.disk)
    ensures r.Some? ==> forall p :: (OnCircle(p, cd1.disk) && OnCircle(p, cd2.disk)
                                     && InUniverse(p, universeWidth, universeHeight)) ==> p in r.value
  {
    if cd1.Equals(cd2) || cd1 == cd2 {
      return None;
    }
    var c1, c2 := cd1.disk, cd2.disk;
    if d > c1.radius + c2.radius {
      return None;
    }
    if d == 0.0 || HeightSq(c1.radius, c2.radius, d) < 0.0 {
      return None;
    }
    var (p, q) := Candidates(c1, c2, d, h);
    CandidatesOnBothCircles(c1, c2, d, h);
    var points: seq<Point> := [];
    if InUniverse(p, universeWidth, universeHeight) {
      points := points + [p];
    }
    if InUniverse(q, universeWidth, universeHeight) {
      points := points + [q];
    }
    assert points == Kept([p, q], universeWidth, universeHeight) by {
      assert [p, q][1..] == [q];
    }
    forall x | OnCircle(x, c1) && OnCircle(x, c2) && InUniverse(x, universeWidth, universeHeight)
      ensures x in points
    {
      CommonPointIsCandidate(c1, c2, d, h, x);
    }
    r := Some(points);
  }
}
