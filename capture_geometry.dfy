/**
 * The capture disk of an ordered transmitter pair (`generateCaptureDisk`
 * in Main.java) and what its circle means.
 *
 * For a capture ratio beta the capture disk of (t1, t2) is the Apollonius
 * circle of P1 and P2: the points X with |X - P1| = beta |X - P2| bound it.
 * Its centre is (P1 - beta^2 P2) / (1 - beta^2) and its radius
 * beta d / (1 - beta^2), where d = |P1 - P2|.
 */
module CaptureGeometry {
  import opened Options
  import opened Geometry
  import opened CaptureDisks

  /* ---------------------------------------------------------------------
   * Capture disks
   * ------------------------------------------------------------------- */

  /** The circle `generateCaptureDisk` builds for positions `p1`, `p2` (d = |p1 - p2|). */
  function CaptureCircle(p1: Point, p2: Point, beta: real, d: real): (c: Circle)
    requires beta * beta != 1.0
    requires IsSqrt(d, DistSq(p1, p2))
    ensures (1.0 - beta * beta) * c.center.x == p1.x - beta * beta * p2.x
    ensures (1.0 - beta * beta) * c.center.y == p1.y - beta * beta * p2.y
    ensures (1.0 - beta * beta) * c.radius == beta * d
  {
    var b2 := beta * beta;
    var k := 1.0 - b2;
    Circle(Point((p1.x - b2 * p2.x) / k, (p1.y - b2 * p2.y) / k), beta * d / k)
  }

  /** One coordinate of the identity behind `CaptureCircleIdentity`. */
  lemma CoordinateIdentity(q: real, p: real, s: real, b2: real, k: real)
    requires k == 1.0 - b2
    ensures (k * q - (p - b2 * s)) * (k * q - (p - b2 * s)) - b2 * ((p - s) * (p - s))
         == k * ((q - p) * (q - p) - b2 * ((q - s) * (q - s)))
  {
  }

  /** k^2 (X^2 + Y^2 - R^2) in terms of kX, kY and kR. */
  lemma ScaledPower(x: real, y: real, r: real, k: real)
    ensures k * (k * (x * x + y * y - r * r)) == (k * x) * (k * x) + (k * y) * (k * y) - (k * r) * (k * r)
  {
    ScaleSquare(k, x);
    ScaleSquare(k, y);
    ScaleSquare(k, r);
  }

  /** The power identity on coordinates, for a centre and radius known through their multiples by 1 - beta^2. */
  lemma PowerIdentity(qx: real, qy: real, p1x: real, p1y: real, p2x: real, p2y: real,
                      beta: real, d: real, cx: real, cy: real, r: real)
    requires beta * beta != 1.0
    requires d * d == (p1x - p2x) * (p1x - p2x) + (p1y - p2y) * (p1y - p2y)
    requires (1.0 - beta * beta) * cx == p1x - beta * beta * p2x
    requires (1.0 - beta * beta) * cy == p1y - beta * beta * p2y
    requires (1.0 - beta * beta) * r == beta * d
    ensures (1.0 - beta * beta) * ((qx - cx) * (qx - cx) + (qy - cy) * (qy - cy) - r * r)
         == (qx - p1x) * (qx - p1x) + (qy - p1y) * (qy - p1y)
            - beta * beta * ((qx - p2x) * (qx - p2x) + (qy - p2y) * (qy - p2y))
  {
    var b2 := beta * beta;
    var k := 1.0 - b2;
    var X, Y := qx - cx, qy - cy;
    var u := X * X + Y * Y - r * r;
    var ex, ey := k * qx - (p1x - b2 * p2x), k * qy - (p1y - b2 * p2y);
    ScaledPower(X, Y, r, k);
    assert k * X == ex;
    assert k * Y == ey;
    ScaleSquare(beta, d);
    var DX, DY := (p1x - p2x) * (p1x - p2x), (p1y - p2y) * (p1y - p2y);
    Distribute(b2, DX, DY);
    assert (k * r) * (k * r) == b2 * DX + b2 * DY;
    assert k * (k * u) == (ex * ex - b2 * DX) + (ey * ey - b2 * DY);
    CoordinateIdentity(qx, p1x, p2x, b2, k);
    CoordinateIdentity(qy, p1y, p2y, b2, k);
    var vx := (qx - p1x) * (qx - p1x) - b2 * ((qx - p2x) * (qx - p2x));
    var vy := (qy - p1y) * (qy - p1y) - b2 * ((qy - p2y) * (qy - p2y));
    assert k * (k * u) == k * vx + k * vy;
    Distribute(k, vx, vy);
    assert k * (k * u) == k * (vx + vy);
    Cancel(k, k * u, vx + vy);
    Distribute(b2, (qx - p2x) * (qx - p2x), (qy - p2y) * (qy - p2y));
  }

  /** `PowerIdentity` stated with squared distances. */
  lemma PowerIdentityOfPoints(q: Point, p1: Point, p2: Point, beta: real, d: real, c: Point, r: real)
    requires beta * beta != 1.0
    requires d * d == DistSq(p1, p2)
    requires (1.0 - beta * beta) * c.x == p1.x - beta * beta * p2.x
    requires (1.0 - beta * beta) * c.y == p1.y - beta * beta * p2.y
    requires (1.0 - beta * beta) * r == beta * d
    ensures (1.0 - beta * beta) * (DistSq(q, c) - r * r)
         == DistSq(q, p1) - beta * beta * DistSq(q, p2)
  {
    PowerIdentity(q.x, q.y, p1.x, p1.y, p2.x, p2.y, beta, d, c.x, c.y, r);
  }

  /**
   * The power of any point q with respect to the capture circle, scaled by
   * 1 - beta^2, is |q - P1|^2 - beta^2 |q - P2|^2.
   */
  lemma CaptureCircleIdentity(p1: Point, p2: Point, beta: real, d: real, q: Point)
    requires beta * beta != 1.0
    requires IsSqrt(d, DistSq(p1, p2))
    ensures var c := CaptureCircle(p1, p2, beta, d);
      (1.0 - beta * beta) * (DistSq(q, c.center) - c.radius * c.radius)
      == DistSq(q, p1) - beta * beta * DistSq(q, p2)
  {
    var c := CaptureCircle(p1, p2, beta, d);
    PowerIdentityOfPoints(q, p1, p2, beta, d, c.center, c.radius);
  }

  /** Multiplying by a positive factor keeps the sign. */
  lemma PositiveScaleKeepsSign(k: real, x: real, y: real)
    requires k > 0.0 && k * x == y
    ensures x < 0.0 <==> y < 0.0
    ensures x == 0.0 <==> y == 0.0
  {
    if x > 0.0 {
      MulPositive(k, x);
    } else if x < 0.0 {
      MulPositive(k, -x);
    }
  }

  /**
   * For 1 - beta^2 > 0 the capture circle is the Apollonius circle of P1 and
   * P2: a point is strictly inside it exactly when it is closer to P1 than
   * beta times its distance to P2, and on it exactly at equality.
   */
  lemma CaptureRegion(p1: Point, p2: Point, beta: real, d: real, q: Point)
    requires beta * beta < 1.0
    requires IsSqrt(d, DistSq(p1, p2))
    ensures var c := CaptureCircle(p1, p2, beta, d);
      && (StrictlyInside(q, c) <==> DistSq(q, p1) < beta * beta * DistSq(q, p2))
      && (OnCircle(q, c) <==> DistSq(q, p1) == beta * beta * DistSq(q, p2))
      && (StrictlyOutside(q, c) <==> DistSq(q, p1) > beta * beta * DistSq(q, p2))
  {
    var c := CaptureCircle(p1, p2, beta, d);
    CaptureCircleIdentity(p1, p2, beta, d, q);
    PositiveScaleKeepsSign(1.0 - beta * beta, DistSq(q, c.center) - c.radius * c.radius,
                           DistSq(q, p1) - beta * beta * DistSq(q, p2));
  }

  /** A capture ratio strictly between 0 and 1 has a square strictly between 0 and 1. */
  lemma RatioSquareBounds(beta: real)
    requires 0.0 < beta < 1.0
    ensures 0.0 < beta * beta < 1.0
  {
    SquareLess(beta, 1.0);
    SquarePositiveAt(beta, beta * beta);
  }

  lemma DistSqSymmetric(p: Point, q: Point)
    ensures DistSq(p, q) == DistSq(q, p)
  {
    Negate(p.x - q.x, q.x - p.x);
    Negate(p.y - q.y, q.y - p.y);
  }

  /**
   * For 0 < beta < 1 and distinct transmitters, the captured transmitter P1
   * lies strictly inside its capture disk, the colliding transmitter P2
   * strictly outside, and the radius is positive.
   */
  lemma CaptureDiskSeparatesPair(p1: Point, p2: Point, beta: real, d: real)
    requires 0.0 < beta < 1.0
    requires p1 != p2
    requires IsSqrt(d, DistSq(p1, p2))
    ensures StrictlyInside(p1, CaptureCircle(p1, p2, beta, d))
    ensures StrictlyOutside(p2, CaptureCircle(p1, p2, beta, d))
    ensures CaptureCircle(p1, p2, beta, d).radius > 0.0
  {
    var b2, dd := beta * beta, DistSq(p1, p2);
    RatioSquareBounds(beta);
    DistSqPositive(p1, p2);
    DistSqSymmetric(p1, p2);
    CaptureRegion(p1, p2, beta, d, p1);
    CaptureRegion(p1, p2, beta, d, p2);
    assert DistSq(p1, p1) == 0.0;
    assert DistSq(p2, p2) == 0.0;
    MulPositive(beta, dd);
    MulPositive(beta, beta * dd);
    assert d != 0.0;
    MulPositive(beta, d);
    DivPositive(beta * d, 1.0 - b2);
  }

  lemma DivPositive(a: real, b: real)
    requires a > 0.0 && b > 0.0
    ensures a / b > 0.0
  {
  }

  /**
   * Among disks built by `generateCaptureDisk` with one capture ratio, the
   * disk identity rules agree with the hash: equal disks have equal circles,
   * because the circle depends on the positions of the pair alone.
   */
  lemma GeneratedDisksHashConsistently(c: CaptureDisk, o: CaptureDisk, beta: real, dc: real, do: real,
                                       circleHash: Circle -> int)
    requires beta * beta != 1.0
    requires IsSqrt(dc, DistSq(Position(c.t1), Position(c.t2)))
    requires IsSqrt(do, DistSq(Position(o.t1), Position(o.t2)))
    requires c.disk == CaptureCircle(Position(c.t1), Position(c.t2), beta, dc)
    requires o.disk == CaptureCircle(Position(o.t1), Position(o.t2), beta, do)
    requires c.Equals(o)
    ensures c.disk == o.disk
    ensures c.HashCode(circleHash) == o.HashCode(circleHash)
  {
    if SameTransmitter(c.t1, o.t1) && SameTransmitter(c.t2, o.t2) {
      assert Position(c.t1) == Position(o.t1) && Position(c.t2) == Position(o.t2);
      SqrtUnique(dc, do, DistSq(Position(c.t1), Position(c.t2)));
    }
  }

  /**
   * `generateCaptureDisk`: the capture disk of `t1` (captured) against `t2`
   * (colliding), registered with `t1`.  `d` is the distance between the two,
   * the source's `Math.sqrt`.  There is no disk for a transmitter paired with
   * itself or an equal one, nor for a pair more than `2 * maxRangeMeters`
   * apart; a pair exactly that far apart still gets one.
   */
  method GenerateCaptureDisk(t1: Transmitter, t2: Transmitter, beta: real, maxRangeMeters: real, d: real)
    returns (r: Option<CaptureDisk>)
    requires beta * beta != 1.0
    requires IsSqrt(d, DistSq(Position(t1), Position(t2)))
    modifies t1
    ensures r.None? <==> SameTransmitter(t1, t2) || d > 2.0 * maxRangeMeters
    ensures r.Some? ==> && fresh(r.value)
                        && r.value.t1 == t1 && r.value.t2 == t2
                        && r.value.disk == CaptureCircle(Position(t1), Position(t2), beta, d)
                        && t1.disks == old(t1.disks) + [r.value]
    ensures r.None? ==> t1.disks == old(t1.disks)
    ensures t2.disks == old(t2.disks)
  {
    if t1 == t2 || SameTransmitter(t1, t2) {
      return None;
    }
    var b2 := beta * beta;
    var denominator := 1.0 - b2;
    var centerX := (t1.x - b2 * t2.x) / denominator;
    var centerY := (t1.y - b2 * t2.y) / denominator;
    if d > 2.0 * maxRangeMeters {
      return None;
    }
    var radius := beta * d / denominator;
    var cd := new CaptureDisk(Circle(Point(centerX, centerY), radius), t1, t2);
    t1.AddDisk(cd);
    r := Some(cd);
  }
}
