// Beacon exclusion zone (src/day15.rs): each sensor covers the diamond of
// points no farther (in Manhattan distance) than its closest beacon; part 1
// counts covered positions on one row, part 2 looks for the single uncovered
// point of a square just outside the diamonds' rims.
module Day15 {
  import opened Common

  datatype Point = Point(x: int, y: int)

  datatype Sensor = Sensor(loc: Point, beacon: Point)

  function Abs(v: int): (a: nat)
    ensures a == v || a == -v
  {
    if v < 0 then -v else v
  }

  function Manhattan(p: Point, q: Point): (d: nat)
    ensures d == 0 <==> p == q
  {
    Abs(p.x - q.x) + Abs(p.y - q.y)
  }

  lemma ManhattanSymmetric(p: Point, q: Point)
    ensures Manhattan(p, q) == Manhattan(q, p)
  {
  }

  /** Distance from the sensor to its closest beacon. */
  function Radius(s: Sensor): nat
  {
    Manhattan(s.loc, s.beacon)
  }

  /** The sensor's point p is covered: no beacon other than the closest one can be there. */
  predicate Hides(s: Sensor, p: Point)
  {
    Manhattan(s.loc, p) <= Radius(s)
  }

  /** The closest beacon lies inside its own sensor's diamond. */
  lemma HidesOwnBeacon(s: Sensor)
    ensures Hides(s, s.beacon)
  {
  }

  /**
   * The covered x positions on a row, as the half-open interval [lo, hi)
   * centred on the sensor, or None when the row misses the diamond.
   */
  function CoveredAt(s: Sensor, line: int): (r: Option<(int, int)>)
    ensures r.None? <==> Abs(line - s.loc.y) > Radius(s)
    ensures r.Some? ==> r.value.1 - r.value.0 == 2 * (Radius(s) - Abs(line - s.loc.y)) + 1
    ensures r.Some? ==> r.value.0 + r.value.1 == 2 * s.loc.x + 1
  {
    var perpendicular := Abs(line - s.loc.y);
    if perpendicular <= Radius(s) then
      var spread := Radius(s) - perpendicular;
      Some((s.loc.x - spread, s.loc.x + spread + 1))
    else None
  }

  predicate InCovered(s: Sensor, line: int, x: int)
  {
    CoveredAt(s, line).Some? && CoveredAt(s, line).value.0 <= x < CoveredAt(s, line).value.1
  }

  /** The interval holds exactly the hidden points of the row. */
  lemma CoveredAtIsHidden(s: Sensor, line: int, x: int)
    ensures InCovered(s, line, x) <==> Hides(s, Point(x, line))
  {
  }

  /** The values the source's tests expect for a sensor at (8,7) whose beacon is at (2,10). */
  lemma CoveredAtExamples()
    ensures CoveredAt(Sensor(Point(8, 7), Point(2, 10)), 20) == None
    ensures CoveredAt(Sensor(Point(8, 7), Point(2, 10)), 17) == None
    ensures CoveredAt(Sensor(Point(8, 7), Point(2, 10)), 16) == Some((8, 9))
    ensures CoveredAt(Sensor(Point(8, 7), Point(2, 10)), 15) == Some((7, 10))
  {
  }

  // ---------------------------------------------------------------------------
  // The rim just outside a sensor's diamond

  /**
   * Corner q (0 to 3) of the rim at offset d: (x + d, y + (R - d)),
   * (x + d, y - (R - d)), (x - d, y - (R - d)), (x - d, y + (R - d)); the
   * first corner's row is measured from firstY.
   */
  function Corner(c: Point, firstY: int, R: int, d: int, q: int): Point
  {
    if q == 0 then Point(c.x + d, firstY + (R - d))
    else if q == 1 then Point(c.x + d, c.y - (R - d))
    else if q == 2 then Point(c.x - d, c.y - (R - d))
    else Point(c.x - d, c.y + (R - d))
  }

  function Rim(s: Sensor, firstY: int): set<Point>
  {
    var R := Radius(s) + 1;
    set d, q | 0 <= d <= R && 0 <= q < 4 :: Corner(s.loc, firstY, R, d, q)
  }

  /**
   * The rim as the source builds it: for d in 0..=R, where R is the radius
   * plus one, the four corners. In the first corner the sensor's x
   * coordinate is used where its y coordinate is meant.
   */
  function JustNotCoveredAsWritten(s: Sensor): set<Point>
  {
    Rim(s, s.loc.x)
  }

  /** The rim with the first corner measured from the sensor's y coordinate. */
  function JustNotCovered(s: Sensor): set<Point>
  {
    Rim(s, s.loc.y)
  }

  /** The corrected rim is exactly the points one step beyond the radius. */
  lemma JustNotCoveredIsRing(s: Sensor, p: Point)
    ensures p in JustNotCovered(s) <==> Manhattan(s.loc, p) == Radius(s) + 1
  {
    var R := Radius(s) + 1;
    var c := s.loc;
    if Manhattan(c, p) == R {
      var d := Abs(p.x - c.x);
      if p.x >= c.x && p.y >= c.y {
        assert p == Corner(c, c.y, R, d, 0);
      } else if p.x >= c.x {
        assert p == Corner(c, c.y, R, d, 1);
      } else if p.y < c.y {
        assert p == Corner(c, c.y, R, d, 2);
      } else {
        assert p == Corner(c, c.y, R, d, 3);
      }
    }
  }

  /** No point of the rim is hidden by its own sensor. */
  lemma JustNotCoveredNotHidden(s: Sensor, p: Point)
    requires p in JustNotCovered(s)
    ensures !Hides(s, p)
  {
    JustNotCoveredIsRing(s, p);
  }

  /** The written rim agrees with the intended one when the sensor sits on the diagonal. */
  lemma AsWrittenOnDiagonal(s: Sensor)
    requires s.loc.x == s.loc.y
    ensures JustNotCoveredAsWritten(s) == JustNotCovered(s)
  {
  }

  /** A sensor off the diagonal gets a rim point at the wrong distance. */
  lemma AsWrittenOffRing()
    ensures Point(1, 3) in JustNotCoveredAsWritten(Sensor(Point(1, 0), Point(1, 1)))
    ensures Manhattan(Point(1, 0), Point(1, 3)) != Radius(Sensor(Point(1, 0), Point(1, 1))) + 1
  {
    var s := Sensor(Point(1, 0), Point(1, 1));
    assert Radius(s) == 1;
    CornerInRim(s, s.loc.x, 0, 0);
  }

  lemma CornerInRim(s: Sensor, firstY: int, d: int, q: int)
    requires 0 <= d <= Radius(s) + 1 && 0 <= q < 4
    ensures Corner(s.loc, firstY, Radius(s) + 1, d, q) in Rim(s, firstY)
  {
  }

  /** The points at distance two from the origin. */
  lemma DistanceTwoFromOrigin(p: Point)
    ensures Manhattan(Point(0, 0), p) == 2 <==>
      p in {Point(2, 0), Point(-2, 0), Point(0, 2), Point(0, -2),
            Point(1, 1), Point(-1, 1), Point(1, -1), Point(-1, -1)}
  {
  }

  /** The source's test: a sensor at the origin with radius 1 has exactly these eight rim points. */
  lemma JustNotCoveredExample()
    ensures JustNotCovered(Sensor(Point(0, 0), Point(0, 1))) ==
      {Point(2, 0), Point(-2, 0), Point(0, 2), Point(0, -2),
       Point(1, 1), Point(-1, 1), Point(1, -1), Point(-1, -1)}
    ensures JustNotCoveredAsWritten(Sensor(Point(0, 0), Point(0, 1))) == JustNotCovered(Sensor(Point(0, 0), Point(0, 1)))
  {
    var s := Sensor(Point(0, 0), Point(0, 1));
    var eight := {Point(2, 0), Point(-2, 0), Point(0, 2), Point(0, -2),
                  Point(1, 1), Point(-1, 1), Point(1, -1), Point(-1, -1)};
    assert Radius(s) == 1;
    forall p | p in JustNotCovered(s) ensures p in eight {
      JustNotCoveredIsRing(s, p);
      DistanceTwoFromOrigin(p);
    }
    forall p | p in eight ensures p in JustNotCovered(s) {
      JustNotCoveredIsRing(s, p);
      DistanceTwoFromOrigin(p);
    }
    AsWrittenOnDiagonal(s);
  }

  // ---------------------------------------------------------------------------
  // Part 1

  /** The integers of the half-open range [lo, hi). */
  function Interval(lo: int, hi: int): (r: set<int>)
    ensures forall x :: x in r <==> lo <= x < hi
    decreases hi - lo
  {
    if lo >= hi then {} else {lo} + Interval(lo + 1, hi)
  }

  /** x positions of the row inside some sensor's interval. */
  function CoveredSet(sensors: seq<Sensor>, line: int): set<int>
  {
    if sensors == [] then {}
    else
      (match CoveredAt(sensors[0], line)
       case Some((lo, hi)) => Interval(lo, hi)
       case None => {})
      + CoveredSet(sensors[1..], line)
  }

  /** x positions of the beacons that sit on the row. */
  function BeaconSet(sensors: seq<Sensor>, line: int): set<int>
  {
    set i | 0 <= i < |sensors| && sensors[i].beacon.y == line :: sensors[i].beacon.x
  }

  function Part1(sensors: seq<Sensor>, line: int): int
  {
    |CoveredSet(sensors, line)| - |BeaconSet(sensors, line)|
  }

  /** A row position is covered exactly when some sensor hides it. */
  lemma {:induction false} CoveredSetIsHidden(sensors: seq<Sensor>, line: int, x: int)
    ensures x in CoveredSet(sensors, line) <==> exists i :: 0 <= i < |sensors| && Hides(sensors[i], Point(x, line))
  {
    if sensors != [] {
      CoveredSetIsHidden(sensors[1..], line, x);
      CoveredAtIsHidden(sensors[0], line, x);
      if exists i :: 0 <= i < |sensors| && Hides(sensors[i], Point(x, line)) {
        var i :| 0 <= i < |sensors| && Hides(sensors[i], Point(x, line));
        if i > 0 {
          assert sensors[1..][i - 1] == sensors[i];
        }
      }
      if exists i :: 0 <= i < |sensors[1..]| && Hides(sensors[1..][i], Point(x, line)) {
        var i :| 0 <= i < |sensors[1..]| && Hides(sensors[1..][i], Point(x, line));
        assert sensors[i + 1] == sensors[1..][i];
      }
    }
  }

  /**
   * Every beacon on the row lies in the covered set (its own sensor hides it),
   * so the subtraction never goes below zero and the answer counts the covered
   * positions where no beacon sits.
   */
  lemma Part1CountsBeaconFree(sensors: seq<Sensor>, line: int)
    ensures BeaconSet(sensors, line) <= CoveredSet(sensors, line)
    ensures Part1(sensors, line) == |CoveredSet(sensors, line) - BeaconSet(sensors, line)|
    ensures Part1(sensors, line) >= 0
  {
    var covered := CoveredSet(sensors, line);
    var beacons := BeaconSet(sensors, line);
    forall x | x in beacons ensures x in covered {
      var i :| 0 <= i < |sensors| && sensors[i].beacon.y == line && sensors[i].beacon.x == x;
      HidesOwnBeacon(sensors[i]);
      assert sensors[i].beacon == Point(x, line);
      CoveredSetIsHidden(sensors, line, x);
    }
    SubsetCardinality(beacons, covered);
  }

  lemma SubsetCardinality(a: set<int>, b: set<int>)
    requires a <= b
    ensures |b - a| == |b| - |a|
  {
    assert b == (b - a) + a;
    assert (b - a) * a == {};
  }

  // ---------------------------------------------------------------------------
  // Part 2

  /** Number of sensors whose rim passes through p. */
  function RimCount(sensors: seq<Sensor>, p: Point): nat
  {
    if sensors == [] then 0
    else (if p in JustNotCovered(sensors[0]) then 1 else 0) + RimCount(sensors[1..], p)
  }

  function AllRims(sensors: seq<Sensor>): set<Point>
  {
    if sensors == [] then {} else JustNotCovered(sensors[0]) + AllRims(sensors[1..])
  }

  lemma {:induction false} RimCountPositive(sensors: seq<Sensor>, p: Point)
    ensures p in AllRims(sensors) <==> RimCount(sensors, p) >= 1
  {
    if sensors != [] {
      RimCountPositive(sensors[1..], p);
    }
  }

  predicate InSquare(p: Point, max: int)
  {
    0 <= p.x <= max && 0 <= p.y <= max
  }

  predicate HiddenByNone(sensors: seq<Sensor>, p: Point)
  {
    forall i :: 0 <= i < |sensors| ==> !Hides(sensors[i], p)
  }

  /** Rim points inside the square that lie on at least two rims and are hidden by no sensor. */
  function Candidates(sensors: seq<Sensor>, max: int): set<Point>
  {
    set p | p in AllRims(sensors) && InSquare(p, max) && RimCount(sensors, p) != 1 && HiddenByNone(sensors, p)
  }

  function TuningFrequency(p: Point): int
  {
    p.x * 4000000 + p.y
  }

  /**
   * The answer is the tuning frequency of one of the candidates (the source
   * takes the first in hash-map order, so any may be chosen), or None where
   * the source indexes an empty result and panics.
   */
  method Part2(sensors: seq<Sensor>, max: int) returns (r: Option<int>)
    ensures r.None? <==> Candidates(sensors, max) == {}
    ensures r.Some? ==> exists p :: p in Candidates(sensors, max) && r.value == TuningFrequency(p)
  {
    var cands := Candidates(sensors, max);
    if cands == {} {
      return None;
    }
    var p :| p in cands;
    return Some(TuningFrequency(p));
  }

  /**
   * A candidate is a point of the square that no sensor covers, lying just
   * outside at least two diamonds: a place where the distress beacon can be.
   */
  lemma CandidateIsUncovered(sensors: seq<Sensor>, max: int, p: Point)
    requires p in Candidates(sensors, max)
    ensures InSquare(p, max)
    ensures forall i :: 0 <= i < |sensors| ==> Manhattan(sensors[i].loc, p) > Radius(sensors[i])
    ensures RimCount(sensors, p) >= 2
    ensures TuningFrequency(p) >= 0
  {
    RimCountPositive(sensors, p);
  }
}
