/**
 * Transmitters and capture disks (CaptureDisk.java), with the disk identity
 * rules: `equals(Object)`, `equals(CaptureDisk)` and `hashCode`.
 *
 * A transmitter's position never changes once it is placed, so it is held in
 * `const` fields; the only thing that changes is the list of capture disks in
 * which it is the captured party.  A capture disk's fields are set once, when
 * it is built, so they are `const` as well and reference identity
 * (`cd1 == cd2`) keeps its Java meaning.
 */
module CaptureDisks {
  import opened Geometry

  class Transmitter {
    const x: real
    const y: real
    /** The capture disks in which this transmitter is the captured party. */
    var disks: seq<CaptureDisk>

    constructor (x: real, y: real)
      ensures this.x == x && this.y == y && disks == []
    {
      this.x := x;
      this.y := y;
      disks := [];
    }

    /** Registers `d` as a disk in which this transmitter is captured. */
    method AddDisk(d: CaptureDisk)
      modifies this
      ensures disks == old(disks) + [d]
    {
      disks := disks + [d];
    }
  }

  function Position(t: Transmitter): Point {
    Point(t.x, t.y)
  }

  /**
   * `Transmitter.equals`: a transmitter is a two-dimensional point, and two
   * of them are equal when their coordinates are.
   */
  predicate SameTransmitter(a: Transmitter, b: Transmitter) {
    a.x == b.x && a.y == b.y
  }

  /** The receiver-side view of a Java `Object` argument to `equals(Object)`. */
  datatype Obj = DiskObject(cd: CaptureDisk) | OtherObject

  class CaptureDisk {
    /** The region in which `t1` is captured although `t2` transmits too. */
    const disk: Circle
    /** The transmitter whose packet is received. */
    const t1: Transmitter
    /** The transmitter that collides. */
    const t2: Transmitter

    constructor (disk: Circle, t1: Transmitter, t2: Transmitter)
      ensures this.disk == disk && this.t1 == t1 && this.t2 == t2
    {
      this.disk := disk;
      this.t1 := t1;
      this.t2 := t2;
    }

    /** `equals(CaptureDisk)`: the same transmitter pair, or else the same circle. */
    predicate Equals(c: CaptureDisk)
      ensures this == c ==> Equals(c)
      ensures disk == c.disk ==> Equals(c)
      ensures Equals(c) && disk != c.disk ==> Position(t1) == Position(c.t1) && Position(t2) == Position(c.t2)
    {
      (SameTransmitter(t1, c.t1) && SameTransmitter(t2, c.t2)) || disk == c.disk
    }

    /**
     * `equals(Object)`: a capture disk is compared with `Equals`; any other
     * object (or `null`) falls back to `Object` identity, which never holds
     * between a capture disk and an object of another class.
     */
    predicate EqualsObject(o: Obj)
      ensures EqualsObject(o) ==> o.DiskObject?
      ensures o.DiskObject? ==> (EqualsObject(o) <==> Equals(o.cd))
    {
      match o
      case DiskObject(c) => Equals(c)
      case OtherObject => false
    }

    /**
     * `hashCode`: the hash of the circle alone.  The circle's own hash
     * function lives in library code and is a parameter here.
     */
    function HashCode(circleHash: Circle -> int): (h: int)
      ensures h == circleHash(disk)
    {
      circleHash(disk)
    }
  }

  /** Transmitter equality is an equivalence relation. */
  lemma SameTransmitterIsEquivalence(a: Transmitter, b: Transmitter, c: Transmitter)
    ensures SameTransmitter(a, a)
    ensures SameTransmitter(a, b) ==> SameTransmitter(b, a)
    ensures SameTransmitter(a, b) && SameTransmitter(b, c) ==> SameTransmitter(a, c)
  {
  }

  /** Two disks over equal transmitter pairs are equal, whatever their circles. */
  lemma EqualByPair(c: CaptureDisk, o: CaptureDisk)
    requires SameTransmitter(c.t1, o.t1) && SameTransmitter(c.t2, o.t2)
    ensures c.Equals(o)
  {
  }

  /** When the transmitter pairs differ, equality is exactly equality of the circles. */
  lemma EqualWhenPairsDiffer(c: CaptureDisk, o: CaptureDisk)
    requires !(SameTransmitter(c.t1, o.t1) && SameTransmitter(c.t2, o.t2))
    ensures c.Equals(o) <==> c.disk == o.disk
  {
  }

  /** Every capture disk equals itself, and equality is symmetric. */
  lemma EqualsReflexiveSymmetric(c: CaptureDisk, o: CaptureDisk)
    ensures c.Equals(c)
    ensures c.Equals(o) <==> o.Equals(c)
  {
  }

  /** `equals(Object)` delegates to `equals(CaptureDisk)` and is false for anything else. */
  lemma EqualsObjectDelegates(c: CaptureDisk, o: Obj)
    ensures o.DiskObject? ==> (c.EqualsObject(o) <==> c.Equals(o.cd))
    ensures o.OtherObject? ==> !c.EqualsObject(o)
  {
  }

  /** Equal circles give equal hash codes. */
  lemma HashFollowsGeometry(c: CaptureDisk, o: CaptureDisk, circleHash: Circle -> int)
    requires c.disk == o.disk
    ensures c.HashCode(circleHash) == o.HashCode(circleHash)
  {
  }

  /**
   * Equality does not imply equal hash codes: two disks over the same pair but
   * with circles the hash tells apart are equal and hash differently.
   */
  method HashDisagreesWithEquals(circleHash: Circle -> int, g1: Circle, g2: Circle)
    returns (c: CaptureDisk, o: CaptureDisk)
    requires circleHash(g1) != circleHash(g2)
    ensures c.Equals(o)
    ensures c.HashCode(circleHash) != o.HashCode(circleHash)
  {
    var a := new Transmitter(0.0, 0.0);
    var b := new Transmitter(1.0, 0.0);
    c := new CaptureDisk(g1, a, b);
    o := new CaptureDisk(g2, a, b);
  }

  /**
   * Equality is not transitive: the first two disks share a pair, the last
   * two share a circle, and the first and last share neither.
   */
  method EqualsNotTransitive() returns (c: CaptureDisk, m: CaptureDisk, o: CaptureDisk)
    ensures c.Equals(m) && m.Equals(o)
    ensures !c.Equals(o)
  {
    var a := new Transmitter(0.0, 0.0);
    var b := new Transmitter(1.0, 0.0);
    var e := new Transmitter(5.0, 5.0);
    c := new CaptureDisk(Circle(Point(0.0, 0.0), 1.0), a, b);
    m := new CaptureDisk(Circle(Point(2.0, 2.0), 1.0), a, b);
    o := new CaptureDisk(Circle(Point(2.0, 2.0), 1.0), e, b);
  }
}
