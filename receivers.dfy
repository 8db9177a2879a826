/**
 * A receiver and the per-receiver contention count of `Receiver.draw`: the
 * covering disks are tallied by their captured transmitter, the number of
 * distinct captured transmitters is the receiver's coverage count, and the
 * receiver is labelled "R<disks>/<coverage>".
 *
 * The tally is a `HashMap<Transmitter, Integer>`; transmitters are equal
 * when their coordinates are (`SameTransmitter`), so the map is keyed by
 * position here.
 */
module Receivers {
  import opened Geometry
  import opened CaptureDisks
  import opened JavaStrings

  class Receiver {
    const x: real
    const y: real
    /** The capture disks that overlap this receiver's position. */
    var coveringDisks: seq<CaptureDisk>

    constructor (x: real, y: real)
      ensures this.x == x && this.y == y && coveringDisks == []
    {
      this.x := x;
      this.y := y;
      coveringDisks := [];
    }

    /**
     * The counting loop of `draw`: for each covering disk, one more for its
     * captured transmitter.  Returns the tally and the number of its keys.
     */
    method CoverageCounts() returns (counts: map<Point, nat>, coverageCount: nat)
      ensures counts.Keys == Captured(coveringDisks)
      ensures forall p :: p in counts ==> counts[p] == CountOf(coveringDisks, p) >= 1
      ensures SumAt(counts, Distinct(coveringDisks)) == |coveringDisks|
      ensures coverageCount == |counts| <= |coveringDisks|
      ensures coverageCount == 0 <==> coveringDisks == []
    {
      counts := map[];
      for i := 0 to |coveringDisks|
        invariant counts.Keys == Captured(coveringDisks[..i])
        invariant forall p :: p in counts ==> counts[p] == CountOf(coveringDisks[..i], p)
      {
        var key := Position(coveringDisks[i].t1);
        var count := if key in counts then counts[key] else 0;
        ghost var old_counts := counts;
        counts := counts[key := count + 1];
        TallyStep(coveringDisks, i, old_counts, counts);
      }
      assert coveringDisks[..|coveringDisks|] == coveringDisks;
      coverageCount := |counts|;
      TallyFacts(coveringDisks, counts);
    }

    /** The text `draw` writes beside the receiver. */
    method DrawnLabel() returns (text: string)
      ensures text == Label(|coveringDisks|, |Captured(coveringDisks)|)
    {
      var _, coverageCount := CoverageCounts();
      text := Label(|coveringDisks|, coverageCount);
    }
  }

  /* ---------------------------------------------------------------------
   * The tally, as functions of the disk sequence
   * ------------------------------------------------------------------- */

  /** Counting the disk at index `i` extends the tally of the first `i` disks to the first `i + 1`. */
  lemma TallyStep(ds: seq<CaptureDisk>, i: nat, before: map<Point, nat>, after: map<Point, nat>)
    requires i < |ds|
    requires before.Keys == Captured(ds[..i])
    requires forall p :: p in before ==> before[p] == CountOf(ds[..i], p)
    requires after == before[Position(ds[i].t1) := (if Position(ds[i].t1) in before then before[Position(ds[i].t1)] else 0) + 1]
    ensures after.Keys == Captured(ds[..i + 1])
    ensures forall p :: p in after ==> after[p] == CountOf(ds[..i + 1], p)
  {
    assert ds[..i + 1][..i] == ds[..i];
    CountPositive(ds[..i], Position(ds[i].t1));
  }

  /** What the finished tally says about the disks. */
  lemma TallyFacts(ds: seq<CaptureDisk>, counts: map<Point, nat>)
    requires counts.Keys == Captured(ds)
    requires forall p :: p in counts ==> counts[p] == CountOf(ds, p)
    ensures forall p :: p in counts ==> counts[p] >= 1
    ensures SumAt(counts, Distinct(ds)) == |ds|
    ensures |counts| <= |ds|
    ensures |counts| == 0 <==> ds == []
  {
    forall p | p in counts ensures counts[p] >= 1 {
      CountPositive(ds, p);
    }
    DistinctLists(ds);
    SumMatchesCounts(ds, counts, Distinct(ds));
    CountsSumToSize(ds);
    CapturedBound(ds);
    CapturedEmpty(ds);
  }

  /** The positions of the transmitters captured in `ds`. */
  function Captured(ds: seq<CaptureDisk>): set<Point> {
    if ds == [] then {} else Captured(ds[..|ds| - 1]) + {Position(ds[|ds| - 1].t1)}
  }

  /** How many disks of `ds` capture the transmitter at `p`. */
  function CountOf(ds: seq<CaptureDisk>, p: Point): nat {
    if ds == [] then 0
    else CountOf(ds[..|ds| - 1], p) + (if Position(ds[|ds| - 1].t1) == p then 1 else 0)
  }

  /** The captured positions in order of first capture, each once. */
  function Distinct(ds: seq<CaptureDisk>): seq<Point> {
    if ds == [] then []
    else
      var pre := ds[..|ds| - 1];
      var p := Position(ds[|ds| - 1].t1);
      Distinct(pre) + (if p in Captured(pre) then [] else [p])
  }

  predicate NoDuplicates(keys: seq<Point>) {
    forall i, j :: 0 <= i < j < |keys| ==> keys[i] != keys[j]
  }

  /** The sum of the counts over `keys`. */
  function SumCounts(ds: seq<CaptureDisk>, keys: seq<Point>): nat {
    if keys == [] then 0 else SumCounts(ds, keys[..|keys| - 1]) + CountOf(ds, keys[|keys| - 1])
  }

  /** The sum of a map's values over `keys`. */
  function SumAt(m: map<Point, nat>, keys: seq<Point>): nat {
    if keys == [] then 0
    else SumAt(m, keys[..|keys| - 1]) + (if keys[|keys| - 1] in m then m[keys[|keys| - 1]] else 0)
  }

  function Occurrences(keys: seq<Point>, p: Point): nat {
    if keys == [] then 0
    else Occurrences(keys[..|keys| - 1], p) + (if keys[|keys| - 1] == p then 1 else 0)
  }

  /** A transmitter has a positive count exactly when it is captured. */
  lemma {:induction false} CountPositive(ds: seq<CaptureDisk>, p: Point)
    ensures CountOf(ds, p) >= 1 <==> p in Captured(ds)
  {
    if ds != [] {
      CountPositive(ds[..|ds| - 1], p);
    }
  }

  /** There are no more captured transmitters than disks. */
  lemma {:induction false} CapturedBound(ds: seq<CaptureDisk>)
    ensures |Captured(ds)| <= |ds|
  {
    if ds != [] {
      CapturedBound(ds[..|ds| - 1]);
    }
  }

  /** No transmitter is captured exactly when there are no disks. */
  lemma CapturedEmpty(ds: seq<CaptureDisk>)
    ensures |Captured(ds)| == 0 <==> ds == []
  {
    if ds != [] {
      assert Position(ds[|ds| - 1].t1) in Captured(ds);
    }
  }

  /** `Distinct` lists exactly the captured positions, each once. */
  lemma {:induction false} DistinctLists(ds: seq<CaptureDisk>)
    ensures forall p :: p in Distinct(ds) <==> p in Captured(ds)
    ensures NoDuplicates(Distinct(ds))
  {
    if ds != [] {
      DistinctLists(ds[..|ds| - 1]);
    }
  }

  lemma {:induction false} OccurrencesWithoutDuplicates(keys: seq<Point>, p: Point)
    requires NoDuplicates(keys)
    ensures Occurrences(keys, p) == if p in keys then 1 else 0
  {
    if keys != [] {
      var pre := keys[..|keys| - 1];
      OccurrencesWithoutDuplicates(pre, p);
      assert keys == pre + [keys[|keys| - 1]];
    }
  }

  /** One more disk adds one to the sum over `keys` for each time its transmitter is listed. */
  lemma {:induction false} SumCountsStep(ds: seq<CaptureDisk>, d: CaptureDisk, keys: seq<Point>)
    ensures SumCounts(ds + [d], keys) == SumCounts(ds, keys) + Occurrences(keys, Position(d.t1))
  {
    if keys != [] {
      SumCountsStep(ds, d, keys[..|keys| - 1]);
      assert (ds + [d])[..|ds|] == ds;
    }
  }

  /** The counts of all captured transmitters add up to the number of disks. */
  lemma {:induction false} CountsSumToSize(ds: seq<CaptureDisk>)
    ensures SumCounts(ds, Distinct(ds)) == |ds|
  {
    if ds != [] {
      var pre, d := ds[..|ds| - 1], ds[|ds| - 1];
      var p := Position(d.t1);
      assert ds == pre + [d];
      CountsSumToSize(pre);
      DistinctLists(pre);
      SumCountsStep(pre, d, Distinct(pre));
      OccurrencesWithoutDuplicates(Distinct(pre), p);
      if p !in Captured(pre) {
        CountPositive(pre, p);
        assert CountOf(ds, p) == 1;
        assert Distinct(ds) == Distinct(pre) + [p];
        assert (Distinct(pre) + [p])[..|Distinct(pre)|] == Distinct(pre);
        assert SumCounts(ds, Distinct(ds)) == SumCounts(ds, Distinct(pre)) + CountOf(ds, p);
      } else {
        assert Distinct(ds) == Distinct(pre);
      }
    }
  }

  /** A map holding the counts sums to the same total. */
  lemma {:induction false} SumMatchesCounts(ds: seq<CaptureDisk>, m: map<Point, nat>, keys: seq<Point>)
    requires forall k :: k in keys ==> k in m && m[k] == CountOf(ds, k)
    ensures SumAt(m, keys) == SumCounts(ds, keys)
  {
    if keys != [] {
      SumMatchesCounts(ds, m, keys[..|keys| - 1]);
    }
  }

  /* ---------------------------------------------------------------------
   * The label
   * ------------------------------------------------------------------- */

  /** "R" followed by the disk count, a slash and the coverage count. */
  function Label(diskCount: nat, coverageCount: nat): (s: string)
    ensures |s| >= 4 && s[0] == 'R'
  {
    "R" + NatToString(diskCount) + "/" + NatToString(coverageCount)
  }

  /** The length of the run of digits `s` starts with. */
  function DigitRun(s: string): nat {
    if s == [] || !IsDigit(s[0]) then 0 else 1 + DigitRun(s[1..])
  }

  lemma {:induction false} DigitRunOf(digits: string, rest: string)
    requires AllDigits(digits) && (rest == [] || !IsDigit(rest[0]))
    ensures DigitRun(digits + rest) == |digits|
  {
    if digits != [] {
      assert (digits + rest)[1..] == digits[1..] + rest;
      DigitRunOf(digits[1..], rest);
    }
  }

  /** The label determines both counts. */
  lemma LabelInjective(a: nat, b: nat, c: nat, d: nat)
    requires Label(a, b) == Label(c, d)
    ensures a == c && b == d
  {
    var s := Label(a, b);
    var sa, sb, sc, sd := NatToString(a), NatToString(b), NatToString(c), NatToString(d);
    assert s == "R" + sa + "/" + sb == "R" + sc + "/" + sd;
    assert s[1..] == sa + ("/" + sb) == sc + ("/" + sd);
    DigitRunOf(sa, "/" + sb);
    DigitRunOf(sc, "/" + sd);
    assert sa == s[1..1 + |sa|] == sc;
    assert sb == s[2 + |sa|..] == sd;
    RenderInjective(a, c);
    RenderInjective(b, d);
  }
}
