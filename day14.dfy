// Regolith reservoir (src/day14.rs): rock paths become horizontal and
// vertical segments, and grains of sand fall from (500, 0) one at a time,
// each trying down, down-left and down-right, until it rests or passes the
// lowest rock.
module Day14 {
  import opened Common

  datatype Point = Point(x: int, y: int)

  /** HLine(x, y1, y2) is the column x from row y1 to y2; VLine(x1, x2, y) the row y from x1 to x2. */
  datatype Line = HLine(x: int, y1: int, y2: int) | VLine(x1: int, x2: int, y: int)

  function Min(a: int, b: int): int { if a <= b then a else b }
  function Max(a: int, b: int): int { if a <= b then b else a }

  predicate OnLine(l: Line, p: Point)
  {
    match l
    case HLine(x, y1, y2) => p.x == x && y1 <= p.y <= y2
    case VLine(x1, x2, y) => p.y == y && x1 <= p.x <= x2
  }

  /** The points of a segment in increasing order, empty when its bounds are reversed. */
  function Points(l: Line): (r: seq<Point>)
    ensures l.HLine? ==> |r| == Max(0, l.y2 - l.y1 + 1) && forall i :: 0 <= i < |r| ==> r[i] == Point(l.x, l.y1 + i)
    ensures l.VLine? ==> |r| == Max(0, l.x2 - l.x1 + 1) && forall i :: 0 <= i < |r| ==> r[i] == Point(l.x1 + i, l.y)
  {
    match l
    case HLine(x, y1, y2) => seq(Max(0, y2 - y1 + 1), i => Point(x, y1 + i))
    case VLine(x1, x2, y) => seq(Max(0, x2 - x1 + 1), i => Point(x1 + i, y))
  }

  /** The listed points are exactly the points on the segment. */
  lemma PointsAreOnLine(l: Line, p: Point)
    ensures p in Points(l) <==> OnLine(l, p)
  {
    if OnLine(l, p) {
      var r := Points(l);
      if l.HLine? {
        assert r[p.y - l.y1] == p;
      } else {
        assert r[p.x - l.x1] == p;
      }
    }
  }

  /**
   * Consecutive points joined into segments: equal x gives a column, anything
   * else a row at the first point's y.
   */
  function PointsToLines(pts: seq<Point>): (r: seq<Line>)
    ensures |r| == Max(0, |pts| - 1)
    ensures forall i :: 0 <= i < |r| ==>
      (r[i].HLine? ==> r[i].y1 <= r[i].y2) && (r[i].VLine? ==> r[i].x1 <= r[i].x2)
    ensures forall i :: 0 <= i < |r| ==> OnLine(r[i], pts[i])
    ensures forall i :: 0 <= i < |r| && (pts[i].x == pts[i + 1].x || pts[i].y == pts[i + 1].y) ==> OnLine(r[i], pts[i + 1])
  {
    if |pts| < 2 then []
    else
      var a := pts[0];
      var b := pts[1];
      var seg := if a.x == b.x then HLine(a.x, Min(a.y, b.y), Max(a.y, b.y)) else VLine(Min(a.x, b.x), Max(a.x, b.x), a.y);
      [seg] + PointsToLines(pts[1..])
  }

  /** Every point of every segment of every path. */
  function RockSet(paths: seq<seq<Line>>): (r: set<Point>)
    ensures forall p :: p in r <==> exists k, i :: 0 <= k < |paths| && 0 <= i < |paths[k]| && OnLine(paths[k][i], p)
  {
    if paths == [] then {}
    else
      var here := SegmentsSet(paths[0]);
      var rest := RockSet(paths[1..]);
      assert forall p :: p in rest <==> exists k, i :: 1 <= k < |paths| && 0 <= i < |paths[k]| && OnLine(paths[k][i], p) by {
        forall p | p in rest ensures exists k, i :: 1 <= k < |paths| && 0 <= i < |paths[k]| && OnLine(paths[k][i], p) {
          var k, i :| 0 <= k < |paths[1..]| && 0 <= i < |paths[1..][k]| && OnLine(paths[1..][k][i], p);
          assert paths[k + 1] == paths[1..][k];
        }
        forall p | exists k, i :: 1 <= k < |paths| && 0 <= i < |paths[k]| && OnLine(paths[k][i], p) ensures p in rest {
          var k, i :| 1 <= k < |paths| && 0 <= i < |paths[k]| && OnLine(paths[k][i], p);
          assert paths[1..][k - 1] == paths[k];
        }
      }
      here + rest
  }

  function SegmentsSet(lines: seq<Line>): (r: set<Point>)
    ensures forall p :: p in r <==> exists i :: 0 <= i < |lines| && OnLine(lines[i], p)
  {
    if lines == [] then {}
    else
      var pts := Points(lines[0]);
      var here := set j | 0 <= j < |pts| :: pts[j];
      assert forall p :: p in here <==> OnLine(lines[0], p) by {
        forall p ensures p in here <==> OnLine(lines[0], p) {
          PointsAreOnLine(lines[0], p);
        }
      }
      var rest := SegmentsSet(lines[1..]);
      assert forall p :: p in rest <==> exists i :: 1 <= i < |lines| && OnLine(lines[i], p) by {
        forall p | p in rest ensures exists i :: 1 <= i < |lines| && OnLine(lines[i], p) {
          var i :| 0 <= i < |lines[1..]| && OnLine(lines[1..][i], p);
          assert lines[i + 1] == lines[1..][i];
        }
      }
      here + rest
  }

  // ---------------------------------------------------------------------------
  // One grain

  const Start: Point := Point(500, 0)

  /** All three cells below (x, y) are taken. */
  predicate Blocked(occ: set<Point>, p: Point)
  {
    Point(p.x - 1, p.y + 1) in occ && Point(p.x, p.y + 1) in occ && Point(p.x + 1, p.y + 1) in occ
  }

  /**
   * One move of a falling grain: straight down if free, else down-left if
   * free, else down-right if free, else it stops where it is.
   */
  function Fall(occ: set<Point>, p: Point): (r: (Point, bool))
    ensures r.1 <==> Blocked(occ, p)
    ensures r.1 ==> r.0 == p
    ensures !r.1 ==> r.0.y == p.y + 1 && r.0 !in occ && p.x - 1 <= r.0.x <= p.x + 1
    ensures !r.1 && r.0.x != p.x ==> Point(p.x, p.y + 1) in occ
    ensures !r.1 && r.0.x == p.x + 1 ==> Point(p.x - 1, p.y + 1) in occ
  {
    var left := Point(p.x - 1, p.y + 1) in occ;
    var down := Point(p.x, p.y + 1) in occ;
    var right := Point(p.x + 1, p.y + 1) in occ;
    if !down then (Point(p.x, p.y + 1), false)
    else if !left then (Point(p.x - 1, p.y + 1), false)
    else if !right then (Point(p.x + 1, p.y + 1), false)
    else (p, true)
  }

  /** Where a grain at p ends up: it falls until it is blocked or reaches row floor. */
  function Settle(occ: set<Point>, p: Point, floor: int): (r: Point)
    ensures p.y <= r.y && (p.y <= floor ==> r.y <= floor)
    ensures Abs(r.x - p.x) <= r.y - p.y
    ensures r.y < floor ==> Blocked(occ, r)
    ensures r in occ ==> r == p
    decreases floor - p.y
  {
    if p.y >= floor then p
    else
      var (q, stopped) := Fall(occ, p);
      if stopped then p else Settle(occ, q, floor)
  }

  function Abs(v: int): nat { if v < 0 then -v else v }

  /** The inner loop of both parts: one grain dropped from the start. */
  method DropGrain(occ: set<Point>, floor: int) returns (x: int, y: int)
    requires floor >= 0
    ensures Point(x, y) == Settle(occ, Start, floor)
  {
    x, y := Start.x, Start.y;
    var stopped := false;
    while !stopped && y < floor
      invariant 0 <= y <= floor
      invariant stopped ==> Point(x, y) == Settle(occ, Start, floor)
      invariant !stopped ==> Settle(occ, Point(x, y), floor) == Settle(occ, Start, floor)
      decreases floor - y, if stopped then 0 else 1
    {
      var left := Point(x - 1, y + 1) in occ;
      var down := Point(x, y + 1) in occ;
      var right := Point(x + 1, y + 1) in occ;
      if !down {
        y := y + 1;
      } else if !left {
        x, y := x - 1, y + 1;
      } else if !right {
        x, y := x + 1, y + 1;
      } else {
        stopped := true;
      }
    }
  }

  // ---------------------------------------------------------------------------
  // Pouring

  /** Cells a grain from the start can reach without going below row floor. */
  ghost function Cone(floor: int): set<Point>
  {
    set x, y | 0 <= y <= floor && 500 - y <= x <= 500 + y :: Point(x, y)
  }

  lemma SettleInCone(occ: set<Point>, floor: int)
    requires floor >= 0
    ensures Settle(occ, Start, floor) in Cone(floor)
  {
    var r := Settle(occ, Start, floor);
    assert 0 <= r.y <= floor && 500 - r.y <= r.x <= 500 + r.y;
  }

  lemma FreeShrinks(occ: set<Point>, floor: int, p: Point)
    requires p in Cone(floor) && p !in occ
    ensures |Cone(floor) - (occ + {p})| < |Cone(floor) - occ|
  {
    assert Cone(floor) - (occ + {p}) == (Cone(floor) - occ) - {p};
  }

  datatype Outcome = Count(n: nat) | Forever

  /**
   * Part 1 over a sand state: grains come to rest until one reaches row floor
   * (the row below the lowest rock). A grain that rests on an occupied cell
   * (only the start cell can be) changes nothing, and every later grain
   * repeats it: the source then never stops.
   */
  ghost function Pour1(occ: set<Point>, floor: int): Outcome
    requires floor >= 0
    decreases |Cone(floor) - occ|
  {
    var p := Settle(occ, Start, floor);
    if p.y == floor then Count(0)
    else if p in occ then Forever
    else
      SettleInCone(occ, floor);
      FreeShrinks(occ, floor, p);
      match Pour1(occ + {p}, floor)
      case Count(n) => Count(n + 1)
      case Forever => Forever
  }

  /** Part 2 over a sand state: grains rest on the floor row at the latest, until the start is taken. */
  ghost function Pour2(occ: set<Point>, floor: int): nat
    requires floor >= 0
    decreases |Cone(floor) - occ|
  {
    if Start in occ then 0
    else
      var p := Settle(occ, Start, floor);
      SettleInCone(occ, floor);
      FreeShrinks(occ, floor, p);
      1 + Pour2(occ + {p}, floor)
  }

  /** Largest row among the rock points. */
  method MaxRow(rocks: set<Point>) returns (m: int)
    requires rocks != {}
    ensures exists p :: p in rocks && p.y == m
    ensures forall p :: p in rocks ==> p.y <= m
  {
    var p0 :| p0 in rocks;
    m := p0.y;
    var todo := rocks - {p0};
    while todo != {}
      invariant todo <= rocks
      invariant exists p :: p in rocks && p.y == m
      invariant forall p :: p in rocks - todo ==> p.y <= m
      decreases |todo|
    {
      var p :| p in todo;
      if p.y > m {
        m := p.y;
      }
      todo := todo - {p};
    }
  }

  /**
   * The outer loop of part 1. Count(n): n grains came to rest, the state grew
   * by exactly those n cells, and the next grain falls to the floor row.
   */
  method PourPart1(rocks: set<Point>, floor: int) returns (r: Outcome, populated: set<Point>)
    requires floor >= 0
    ensures r == Pour1(rocks, floor)
    ensures rocks <= populated
    ensures r.Count? ==> |populated| == |rocks| + r.n && Settle(populated, Start, floor).y == floor
  {
    populated := rocks;
    var sand: nat := 0;
    var done := false;
    while !done
      invariant rocks <= populated && |populated| == |rocks| + sand
      invariant !done ==> Pour1(rocks, floor) == Add(Pour1(populated, floor), sand)
      invariant done ==> Pour1(rocks, floor) == Count(sand) && Settle(populated, Start, floor).y == floor
      decreases if done then 0 else 1, |Cone(floor) - populated|
    {
      var p;
      p, done := NextGrain1(populated, floor);
      if !done {
        if p in populated {
          return Forever, populated;
        }
        sand := sand + 1;
        populated := populated + {p};
      }
    }
    r := Count(sand);
  }

  /** Drops one grain of part 1 and says what it does to the answer. */
  method NextGrain1(populated: set<Point>, floor: int) returns (p: Point, done: bool)
    requires floor >= 0
    ensures p == Settle(populated, Start, floor)
    ensures done <==> p.y == floor
    ensures done ==> Pour1(populated, floor) == Count(0)
    ensures !done && p in populated ==> Pour1(populated, floor) == Forever
    ensures !done && p !in populated ==>
      Pour1(populated, floor) == Add(Pour1(populated + {p}, floor), 1)
      && |Cone(floor) - (populated + {p})| < |Cone(floor) - populated|
      && |populated + {p}| == |populated| + 1
  {
    var x, y := DropGrain(populated, floor);
    p := Point(x, y);
    Pour1Step(populated, floor);
    done := y == floor;
    if !done && p !in populated {
      SettleInCone(populated, floor);
      FreeShrinks(populated, floor, p);
    }
  }

  /** One grain of part 1: it falls to the floor row, rests on an occupied cell, or rests on a new one. */
  lemma Pour1Step(occ: set<Point>, floor: int)
    requires floor >= 0
    ensures Settle(occ, Start, floor).y == floor ==> Pour1(occ, floor) == Count(0)
    ensures Settle(occ, Start, floor).y != floor && Settle(occ, Start, floor) in occ ==> Pour1(occ, floor) == Forever
    ensures Settle(occ, Start, floor).y != floor && Settle(occ, Start, floor) !in occ ==>
      Pour1(occ, floor) == Add(Pour1(occ + {Settle(occ, Start, floor)}, floor), 1)
  {
  }

  function Add(o: Outcome, k: nat): Outcome
  {
    match o
    case Count(n) => Count(n + k)
    case Forever => Forever
  }

  /**
   * The outer loop of part 2: the grains that came to rest before the start
   * cell was taken, each adding one cell; at the end the start is taken.
   */
  method PourPart2(rocks: set<Point>, floor: int) returns (sand: nat, populated: set<Point>)
    requires floor >= 0
    ensures sand == Pour2(rocks, floor)
    ensures rocks <= populated && |populated| == |rocks| + sand
    ensures Start in populated
  {
    populated := rocks;
    sand := 0;
    var done := false;
    while !done
      invariant rocks <= populated && |populated| == |rocks| + sand
      invariant !done ==> Pour2(rocks, floor) == Pour2(populated, floor) + sand
      invariant done ==> Pour2(rocks, floor) == sand && Start in populated
      decreases if done then 0 else 1, |Cone(floor) - populated|
    {
      var x, y := DropGrain(populated, floor);
      done := Start in populated;
      if !done {
        SettleInCone(populated, floor);
        FreeShrinks(populated, floor, Point(x, y));
        sand := sand + 1;
        populated := populated + {Point(x, y)};
      }
    }
  }

  /** The rock paths, given as their points, turned into the occupied set. */
  function Rocks(paths: seq<seq<Point>>): set<Point>
  {
    RockSet(seq(|paths|, k requires 0 <= k < |paths| => PointsToLines(paths[k])))
  }

  /** Parsed coordinates are digit strings, so no row is negative. */
  predicate RowsNonNegative(paths: seq<seq<Point>>)
  {
    forall k, i :: 0 <= k < |paths| && 0 <= i < |paths[k]| ==> paths[k][i].y >= 0
  }

  lemma {:induction false} SegmentRowsNonNegative(pts: seq<Point>, i: int, p: Point)
    requires forall j :: 0 <= j < |pts| ==> pts[j].y >= 0
    requires 0 <= i < |PointsToLines(pts)| && OnLine(PointsToLines(pts)[i], p)
    ensures p.y >= 0
  {
    if i > 0 {
      SegmentRowsNonNegative(pts[1..], i - 1, p);
    }
  }

  lemma RocksRowsNonNegative(paths: seq<seq<Point>>, p: Point)
    requires RowsNonNegative(paths)
    requires p in Rocks(paths)
    ensures p.y >= 0
  {
    var lines := seq(|paths|, k requires 0 <= k < |paths| => PointsToLines(paths[k]));
    var k, i :| 0 <= k < |lines| && 0 <= i < |lines[k]| && OnLine(lines[k][i], p);
    SegmentRowsNonNegative(paths[k], i, p);
  }

  /** floor is one below the lowest rock. */
  ghost predicate IsFloor(rocks: set<Point>, floor: int)
  {
    (exists p :: p in rocks && p.y == floor - 1) && forall p :: p in rocks ==> p.y < floor
  }

  method Floor(paths: seq<seq<Point>>) returns (floor: int)
    requires Rocks(paths) != {} && RowsNonNegative(paths)
    ensures floor >= 1 && IsFloor(Rocks(paths), floor)
  {
    var rocks := Rocks(paths);
    var lowest := MaxRow(rocks);
    var p :| p in rocks && p.y == lowest;
    RocksRowsNonNegative(paths, p);
    floor := lowest + 1;
  }

  /** Part 1: the grains that rest before one falls past the lowest rock. */
  method Part1(paths: seq<seq<Point>>) returns (r: Outcome)
    requires Rocks(paths) != {} && RowsNonNegative(paths)
    ensures exists floor :: floor >= 0 && IsFloor(Rocks(paths), floor) && r == Pour1(Rocks(paths), floor)
  {
    var floor := Floor(paths);
    var populated;
    r, populated := PourPart1(Rocks(paths), floor);
  }

  /** Part 2: the grains that rest, on the row below the lowest rock at the latest, until the start is covered. */
  method Part2(paths: seq<seq<Point>>) returns (sand: nat)
    requires Rocks(paths) != {} && RowsNonNegative(paths)
    ensures exists floor :: floor >= 0 && IsFloor(Rocks(paths), floor) && sand == Pour2(Rocks(paths), floor)
  {
    var floor := Floor(paths);
    var populated;
    sand, populated := PourPart2(Rocks(paths), floor);
  }
}
