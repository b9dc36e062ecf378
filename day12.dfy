// Hill climbing on an elevation grid (src/day12.rs): a label-correcting search
// from one start cell (part 1) or from every lowest cell (part 2) to the
// cell marked 'E'. The frontier is the priority queue of the source, keyed by
// cell; which entry it pops is left open, so everything proved here holds for
// every pop order, the source's lowest-estimate-first order included.
module Day12 {
  import opened Common

  type Grid = seq<seq<char>>

  datatype Cell = Cell(x: int, y: int)

  /** A step count of the table; Unreached plays the role of the i32::MAX sentinel. */
  datatype Cost = Finite(n: nat) | Unreached

  predicate Less(a: Cost, b: Cost)
  {
    a.Finite? && (b.Unreached? || a.n < b.n)
  }

  predicate Le(a: Cost, b: Cost)
  {
    !Less(b, a)
  }

  // ---------------------------------------------------------------------------
  // Elevations and moves

  /** 'S' sits at the height of 'a' and 'E' one level above 'z'. */
  function Altitude(ch: char): (h: int)
    ensures 'a' <= ch <= 'z' ==> h == ch as int - 'a' as int
    ensures ch == 'S' ==> h == 'a' as int - 'a' as int
    ensures ch == 'E' ==> h == 'z' as int - 'a' as int + 1
  {
    match ch
    case 'S' => 0
    case 'E' => 26
    case _ => ch as int - 'a' as int
  }

  function ManhattanDistance(a: Cell, b: Cell): (d: int)
    ensures d >= 0
    ensures d == 0 <==> a == b
  {
    (if a.x >= b.x then a.x - b.x else b.x - a.x) + (if a.y >= b.y then a.y - b.y else b.y - a.y)
  }

  /** The distance does not depend on which cell comes first. */
  lemma ManhattanDistanceSymmetric(a: Cell, b: Cell)
    ensures ManhattanDistance(a, b) == ManhattanDistance(b, a)
  {
  }

  /** The four candidate moves, in the order the source tries them. */
  function Neighbours(c: Cell): (ns: seq<Cell>)
    ensures |ns| == 4
    ensures forall i :: 0 <= i < 4 ==> ManhattanDistance(c, ns[i]) == 1
  {
    [Cell(c.x - 1, c.y), Cell(c.x + 1, c.y), Cell(c.x, c.y - 1), Cell(c.x, c.y + 1)]
  }

  /** The four candidates are all the cells at distance one. */
  lemma AdjacentIsNeighbour(c: Cell, n: Cell)
    requires ManhattanDistance(c, n) == 1
    ensures n in Neighbours(c)
  {
  }

  /** Bounds are checked against the row the cell lies in, so rows may be ragged. */
  predicate InBounds(g: Grid, c: Cell)
  {
    0 <= c.y < |g| && 0 <= c.x < |g[c.y]|
  }

  function At(g: Grid, c: Cell): char
    requires InBounds(g, c)
  {
    g[c.y][c.x]
  }

  /** One legal move: to an orthogonal neighbour inside the grid, climbing at most one level. */
  predicate Step(g: Grid, a: Cell, b: Cell)
  {
    InBounds(g, a) && InBounds(g, b) && ManhattanDistance(a, b) == 1
    && Altitude(At(g, a)) + 1 >= Altitude(At(g, b))
  }

  ghost predicate IsPath(g: Grid, p: seq<Cell>)
  {
    |p| > 0
    && (forall i :: 0 <= i < |p| ==> InBounds(g, p[i]))
    && (forall i :: 0 <= i < |p| - 1 ==> Step(g, p[i], p[i + 1]))
  }

  function Last(p: seq<Cell>): Cell
    requires |p| > 0
  {
    p[|p| - 1]
  }

  ghost predicate Distinct(p: seq<Cell>)
  {
    forall i, j :: 0 <= i < j < |p| ==> p[i] != p[j]
  }

  // ---------------------------------------------------------------------------
  // What the search computes

  /**
   * A path the search can discover. Z is the set of cells the table starts at 0,
   * seeds the cells first pushed on the frontier. A zero cell that was never
   * pushed is never expanded and can never be improved, so a path of positive
   * length starts at a seed and never passes through a zero cell again.
   */
  ghost predicate SearchPath(g: Grid, z: set<Cell>, seeds: set<Cell>, p: seq<Cell>)
  {
    IsPath(g, p) && p[0] in z && (|p| > 1 ==> p[0] in seeds)
    && forall i :: 1 <= i < |p| ==> p[i] !in z
  }

  /** r is the length of a shortest search path to the goal, Unreached when there is none. */
  ghost predicate IsShortestResult(g: Grid, z: set<Cell>, seeds: set<Cell>, goal: Cell, r: Cost)
  {
    (r.Finite? ==> exists p :: SearchPath(g, z, seeds, p) && Last(p) == goal && |p| - 1 == r.n)
    && (forall p :: SearchPath(g, z, seeds, p) && Last(p) == goal ==> Le(r, Finite(|p| - 1)))
  }

  /** The textbook statement: r is the least number of moves from some source to the goal. */
  ghost predicate IsShortestFrom(g: Grid, sources: set<Cell>, goal: Cell, r: Cost)
  {
    (r.Finite? ==> exists p :: IsPath(g, p) && p[0] in sources && Last(p) == goal && |p| - 1 == r.n)
    && (forall p :: IsPath(g, p) && p[0] in sources && Last(p) == goal ==> Le(r, Finite(|p| - 1)))
  }

  lemma {:induction false} SuffixIsPath(g: Grid, p: seq<Cell>, i: nat)
    requires IsPath(g, p) && i < |p|
    ensures IsPath(g, p[i..]) && Last(p[i..]) == Last(p) && p[i..][0] == p[i]
  {
    forall j | 0 <= j < |p[i..]| - 1 ensures Step(g, p[i..][j], p[i..][j + 1]) {
      assert p[i..][j] == p[i + j] && p[i..][j + 1] == p[i + j + 1];
    }
  }

  /**
   * Any path from a zero cell to the goal can be cut at its last zero cell; when
   * every zero cell is a seed, what remains is a search path that is no longer.
   */
  lemma {:induction false} CutAtLastZero(g: Grid, z: set<Cell>, p: seq<Cell>) returns (q: seq<Cell>)
    requires IsPath(g, p) && p[0] in z
    ensures SearchPath(g, z, z, q) && Last(q) == Last(p) && |q| <= |p|
  {
    var i := |p| - 1;
    while p[i] !in z
      invariant 0 <= i < |p|
      invariant forall j :: i < j < |p| ==> p[j] !in z
      decreases i
    {
      i := i - 1;
    }
    SuffixIsPath(g, p, i);
    q := p[i..];
    forall j | 1 <= j < |q| ensures q[j] !in z {
      assert q[j] == p[i + j];
    }
  }

  /** When every zero cell is a seed, the search answer is the plain multi-source distance. */
  lemma AllZerosSeededIsShortestFrom(g: Grid, z: set<Cell>, goal: Cell, r: Cost)
    requires IsShortestResult(g, z, z, goal, r)
    ensures IsShortestFrom(g, z, goal, r)
  {
    if r.Finite? {
      var p :| SearchPath(g, z, z, p) && Last(p) == goal && |p| - 1 == r.n;
      assert IsPath(g, p) && p[0] in z;
    }
    forall p | IsPath(g, p) && p[0] in z && Last(p) == goal ensures Le(r, Finite(|p| - 1)) {
      var q := CutAtLastZero(g, z, p);
    }
  }

  /** Adding sources can only shorten the answer: part 2 never exceeds part 1. */
  lemma MoreSourcesNoWorse(g: Grid, z1: set<Cell>, seeds1: set<Cell>, z2: set<Cell>, goal: Cell, r1: Cost, r2: Cost)
    requires z1 <= z2
    requires IsShortestResult(g, z1, seeds1, goal, r1)
    requires IsShortestFrom(g, z2, goal, r2)
    ensures Le(r2, r1)
  {
    if r1.Finite? {
      var p :| SearchPath(g, z1, seeds1, p) && Last(p) == goal && |p| - 1 == r1.n;
      assert IsPath(g, p) && p[0] in z2;
    }
  }

  predicate IsElevation(ch: char)
  {
    'a' <= ch <= 'z' || ch == 'S' || ch == 'E'
  }

  /** On a grid of elevation letters, every path into 'E' enters it from a 'z' cell. */
  lemma {:induction false} EndEnteredFromTop(g: Grid, p: seq<Cell>) returns (i: nat)
    requires IsPath(g, p) && At(g, p[0]) != 'E' && At(g, Last(p)) == 'E'
    requires forall k :: 0 <= k < |p| ==> IsElevation(At(g, p[k]))
    ensures i + 1 < |p| && At(g, p[i]) == 'z' && At(g, p[i + 1]) == 'E'
  {
    i := 0;
    while At(g, p[i + 1]) != 'E'
      invariant i + 1 < |p| && At(g, p[i]) != 'E'
      decreases |p| - i
    {
      i := i + 1;
    }
    assert Step(g, p[i], p[i + 1]);
  }

  /** Every 'S' cell is also a seed cell of part 2. */
  lemma StartCellsAmongLowest(g: Grid)
    ensures ZeroCells(g, {'S'}) <= ZeroCells(g, {'S', 'a'})
  {
  }

  /** Part 2 never answers more than part 1 on the same grid. */
  lemma Part2NoWorseThanPart1(g: Grid, goal: Cell, r1: Cost, r2: Cost)
    requires IsShortestResult(g, ZeroCells(g, {'S'}), {MarkerCell(g, {'S'})}, goal, r1)
    requires IsShortestFrom(g, ZeroCells(g, {'S', 'a'}), goal, r2)
    ensures Le(r2, r1)
  {
    StartCellsAmongLowest(g);
    MoreSourcesNoWorse(g, ZeroCells(g, {'S'}), {MarkerCell(g, {'S'})}, ZeroCells(g, {'S', 'a'}), goal, r1, r2);
  }

  /** With a single 'S', part 1 answers the plain shortest distance from it. */
  lemma Part1SingleStart(g: Grid, goal: Cell, r: Cost)
    requires ZeroCells(g, {'S'}) == {MarkerCell(g, {'S'})}
    requires IsShortestResult(g, ZeroCells(g, {'S'}), {MarkerCell(g, {'S'})}, goal, r)
    ensures IsShortestFrom(g, {MarkerCell(g, {'S'})}, goal, r)
  {
    AllZerosSeededIsShortestFrom(g, ZeroCells(g, {'S'}), goal, r);
  }

  // ---------------------------------------------------------------------------
  // The step table

  predicate Shaped(g: Grid, steps: seq<seq<Cost>>)
  {
    |steps| == |g| && forall y :: 0 <= y < |g| ==> |steps[y]| == |g[y]|
  }

  function Get(steps: seq<seq<Cost>>, c: Cell): Cost
    requires 0 <= c.y < |steps| && 0 <= c.x < |steps[c.y]|
  {
    steps[c.y][c.x]
  }

  function Put(steps: seq<seq<Cost>>, c: Cell, v: Cost): (r: seq<seq<Cost>>)
    requires 0 <= c.y < |steps| && 0 <= c.x < |steps[c.y]|
    ensures |r| == |steps| && forall y :: 0 <= y < |r| ==> |r[y]| == |steps[y]|
    ensures Get(r, c) == v
    ensures forall d: Cell {:trigger Get(r, d)} :: 0 <= d.y < |r| && 0 <= d.x < |r[d.y]| && d != c ==> Get(r, d) == Get(steps, d)
  {
    steps[c.y := steps[c.y][c.x := v]]
  }

  /** Cells the table starts at 0: those whose character is one of the start characters. */
  ghost function ZeroCells(g: Grid, starts: set<char>): set<Cell>
  {
    set y, x | 0 <= y < |g| && 0 <= x < |g[y]| && g[y][x] in starts :: Cell(x, y)
  }

  ghost function AllCells(g: Grid): set<Cell>
  {
    set y, x | 0 <= y < |g| && 0 <= x < |g[y]| :: Cell(x, y)
  }

  lemma InAllCells(g: Grid, c: Cell)
    requires InBounds(g, c)
    ensures c in AllCells(g)
  {
  }

  /** A path without repeated cells is no longer than the grid has cells. */
  lemma {:induction false} DistinctPathBound(g: Grid, p: seq<Cell>)
    requires Distinct(p) && forall i :: 0 <= i < |p| ==> InBounds(g, p[i])
    ensures |p| <= |AllCells(g)|
  {
    var s := set i | 0 <= i < |p| :: p[i];
    assert s <= AllCells(g) by {
      forall c | c in s ensures c in AllCells(g) {
        var i :| 0 <= i < |p| && p[i] == c;
        InAllCells(g, p[i]);
      }
    }
    DistinctCard(p);
    assert |s| <= |AllCells(g)| by { SubsetCard(s, AllCells(g)); }
  }

  lemma {:induction false} DistinctCard(p: seq<Cell>)
    requires Distinct(p)
    ensures |set i | 0 <= i < |p| :: p[i]| == |p|
  {
    if p != [] {
      var rest := p[..|p| - 1];
      DistinctCard(rest);
      var s := set i | 0 <= i < |p| :: p[i];
      var s' := set i | 0 <= i < |rest| :: rest[i];
      assert s == s' + {Last(p)};
      assert Last(p) !in s';
    }
  }

  lemma SubsetCard(a: set<Cell>, b: set<Cell>)
    requires a <= b
    ensures |a| <= |b|
  {
    assert b == a + (b - a);
  }

  // Potential of the table, used only to show that the search terminates: an
  // unreached cell is worth `bound` (more than any reachable step count), a
  // reached cell its count.

  function CostPotential(c: Cost, bound: nat): nat
  {
    if c.Finite? then c.n else bound
  }

  function RowPotential(row: seq<Cost>, bound: nat): nat
  {
    if row == [] then 0 else CostPotential(row[0], bound) + RowPotential(row[1..], bound)
  }

  function TablePotential(steps: seq<seq<Cost>>, bound: nat): nat
  {
    if steps == [] then 0 else RowPotential(steps[0], bound) + TablePotential(steps[1..], bound)
  }

  lemma {:induction false} RowPotentialUpdate(row: seq<Cost>, x: nat, v: Cost, bound: nat)
    requires x < |row|
    ensures RowPotential(row[x := v], bound)
      == RowPotential(row, bound) - CostPotential(row[x], bound) + CostPotential(v, bound)
  {
    if x > 0 {
      assert row[x := v][1..] == row[1..][x - 1 := v];
      RowPotentialUpdate(row[1..], x - 1, v, bound);
    }
  }

  lemma {:induction false} TablePotentialUpdate(steps: seq<seq<Cost>>, c: Cell, v: Cost, bound: nat)
    requires 0 <= c.y < |steps| && 0 <= c.x < |steps[c.y]|
    ensures TablePotential(Put(steps, c, v), bound)
      == TablePotential(steps, bound) - CostPotential(Get(steps, c), bound) + CostPotential(v, bound)
  {
    if c.y == 0 {
      RowPotentialUpdate(steps[0], c.x, v, bound);
      assert Put(steps, c, v)[1..] == steps[1..];
    } else {
      assert Put(steps, c, v)[1..] == Put(steps[1..], Cell(c.x, c.y - 1), v);
      TablePotentialUpdate(steps[1..], Cell(c.x, c.y - 1), v, bound);
    }
  }

  // ---------------------------------------------------------------------------
  // Search invariants

  /** Every recorded count is 0 exactly on a zero cell. */
  ghost predicate ZerosFixed(g: Grid, steps: seq<seq<Cost>>, z: set<Cell>)
    requires Shaped(g, steps)
  {
    forall c :: c in z ==> InBounds(g, c) && Get(steps, c) == Finite(0)
  }

  /** Each cell of the witness path is already recorded with at most its position. */
  ghost predicate Ranked(g: Grid, steps: seq<seq<Cost>>, p: seq<Cell>)
    requires Shaped(g, steps)
  {
    forall i :: 0 <= i < |p| ==> InBounds(g, p[i]) && Le(Get(steps, p[i]), Finite(i))
  }

  ghost predicate GoodWitness(g: Grid, steps: seq<seq<Cost>>, z: set<Cell>, seeds: set<Cell>, p: seq<Cell>, c: Cell)
    requires Shaped(g, steps) && InBounds(g, c)
  {
    SearchPath(g, z, seeds, p) && Last(p) == c && Get(steps, c).Finite?
    && |p| == Get(steps, c).n + 1 && Distinct(p) && Ranked(g, steps, p)
  }

  ghost predicate HasWitness(g: Grid, steps: seq<seq<Cost>>, z: set<Cell>, seeds: set<Cell>, wit: map<Cell, seq<Cell>>, c: Cell)
    requires Shaped(g, steps) && InBounds(g, c)
  {
    c in wit && GoodWitness(g, steps, z, seeds, wit[c], c)
  }

  /** Every recorded count is the length of a simple search path to its cell. */
  ghost predicate Witnessed(g: Grid, steps: seq<seq<Cost>>, z: set<Cell>, seeds: set<Cell>, wit: map<Cell, seq<Cell>>)
    requires Shaped(g, steps)
  {
    forall c {:trigger HasWitness(g, steps, z, seeds, wit, c)} ::
      InBounds(g, c) && Get(steps, c).Finite? ==> HasWitness(g, steps, z, seeds, wit, c)
  }

  /**
   * A cell that is off the frontier, recorded strictly below the goal's count,
   * and expandable (a seed or not a zero cell) has had all its moves relaxed.
   */
  ghost predicate Settled(g: Grid, steps: seq<seq<Cost>>, frontier: map<Cell, int>, z: set<Cell>, seeds: set<Cell>, goal: Cell, c: Cell)
    requires Shaped(g, steps) && InBounds(g, goal) && InBounds(g, c)
  {
    c !in frontier && Less(Get(steps, c), Get(steps, goal)) && (c in seeds || c !in z)
    ==> forall n :: Step(g, c, n) ==> Le(Get(steps, n), Finite(Get(steps, c).n + 1))
  }

  ghost predicate Closed(g: Grid, steps: seq<seq<Cost>>, frontier: map<Cell, int>, z: set<Cell>, seeds: set<Cell>, goal: Cell, except: set<Cell>)
    requires Shaped(g, steps) && InBounds(g, goal)
  {
    forall c {:trigger Settled(g, steps, frontier, z, seeds, goal, c)} :: InBounds(g, c) && c !in except ==> Settled(g, steps, frontier, z, seeds, goal, c)
  }

  ghost predicate FrontierOk(g: Grid, frontier: map<Cell, int>, z: set<Cell>, seeds: set<Cell>)
  {
    forall c :: c in frontier ==> InBounds(g, c) && (c in seeds || c !in z)
  }

  /** With an empty frontier and every cell settled, no search path beats the goal's count. */
  lemma ClosedIsOptimal(g: Grid, steps: seq<seq<Cost>>, z: set<Cell>, seeds: set<Cell>, goal: Cell, q: seq<Cell>)
    requires Shaped(g, steps) && InBounds(g, goal) && ZerosFixed(g, steps, z)
    requires Closed(g, steps, map[], z, seeds, goal, {})
    requires SearchPath(g, z, seeds, q) && Last(q) == goal
    ensures Le(Get(steps, goal), Finite(|q| - 1))
  {
    if Less(Finite(|q| - 1), Get(steps, goal)) {
      var i := 0;
      while i < |q| - 1
        invariant 0 <= i < |q|
        invariant Le(Get(steps, q[i]), Finite(i))
      {
        assert Settled(g, steps, map[], z, seeds, goal, q[i]);
        assert Step(g, q[i], q[i + 1]);
        i := i + 1;
      }
      assert false;
    }
  }

  // ---------------------------------------------------------------------------
  // The search loop

  /** Every count of the new table is at most the old one. */
  ghost predicate NoWorse(g: Grid, steps': seq<seq<Cost>>, steps: seq<seq<Cost>>)
    requires Shaped(g, steps') && Shaped(g, steps)
  {
    forall c {:trigger Get(steps', c)} :: InBounds(g, c) ==> Le(Get(steps', c), Get(steps, c))
  }

  /** Extending cur's witness by an improving move gives a witness for the target. */
  lemma ExtendWitness(g: Grid, steps: seq<seq<Cost>>, z: set<Cell>, seeds: set<Cell>, w: seq<Cell>, cur: Cell, p: Cell)
    requires Shaped(g, steps) && InBounds(g, cur) && GoodWitness(g, steps, z, seeds, w, cur)
    requires ZerosFixed(g, steps, z)
    requires cur in seeds || cur !in z
    requires Step(g, cur, p) && Less(Finite(Get(steps, cur).n + 1), Get(steps, p))
    ensures p !in z
    ensures GoodWitness(g, Put(steps, p, Finite(Get(steps, cur).n + 1)), z, seeds, w + [p], p)
    ensures Get(steps, cur).n + 1 < |AllCells(g)|
  {
    var my := Get(steps, cur).n;
    var steps' := Put(steps, p, Finite(my + 1));
    var wp := w + [p];
    // p is not yet on the witness: every cell there is recorded at most my.
    forall i | 0 <= i < |w| ensures w[i] != p {
      assert Le(Get(steps, w[i]), Finite(i));
    }
    assert IsPath(g, wp) by {
      forall i | 0 <= i < |wp| - 1 ensures Step(g, wp[i], wp[i + 1]) {
        if i < |w| - 1 {
          assert wp[i] == w[i] && wp[i + 1] == w[i + 1];
        }
      }
    }
    assert SearchPath(g, z, seeds, wp) by {
      if |w| == 1 {
        assert w[0] == cur;
      }
      assert p !in z;
      forall i | 1 <= i < |wp| ensures wp[i] !in z {
        if i < |w| { assert wp[i] == w[i]; }
      }
    }
    assert Ranked(g, steps', wp) by {
      forall i | 0 <= i < |wp| ensures InBounds(g, wp[i]) && Le(Get(steps', wp[i]), Finite(i)) {
        if i < |w| {
          assert wp[i] == w[i];
        }
      }
    }
    DistinctPathBound(g, wp);
  }

  /** A witness stays good when its own count is unchanged and no count grew. */
  lemma KeepWitness(g: Grid, steps: seq<seq<Cost>>, steps': seq<seq<Cost>>, z: set<Cell>, seeds: set<Cell>, w: seq<Cell>, c: Cell)
    requires Shaped(g, steps) && Shaped(g, steps') && InBounds(g, c)
    requires GoodWitness(g, steps, z, seeds, w, c)
    requires NoWorse(g, steps', steps) && Get(steps', c) == Get(steps, c)
    ensures GoodWitness(g, steps', z, seeds, w, c)
  {
    forall i | 0 <= i < |w| ensures InBounds(g, w[i]) && Le(Get(steps', w[i]), Finite(i)) {
      assert Le(Get(steps, w[i]), Finite(i));
    }
  }

  /** Lowering the count of a cell that is not a zero cell keeps the zero cells and lowers the table. */
  lemma PutLowers(g: Grid, steps: seq<seq<Cost>>, z: set<Cell>, p: Cell, v: Cost)
    requires Shaped(g, steps) && InBounds(g, p) && ZerosFixed(g, steps, z)
    requires Less(v, Get(steps, p)) && p !in z
    ensures ZerosFixed(g, Put(steps, p, v), z)
    ensures NoWorse(g, Put(steps, p, v), steps)
  {
  }

  /** An improving relaxation keeps the witnesses. */
  lemma RelaxKeepsWitnessed(g: Grid, steps: seq<seq<Cost>>, z: set<Cell>, seeds: set<Cell>,
                            wit: map<Cell, seq<Cell>>, cur: Cell, p: Cell)
    requires Shaped(g, steps) && InBounds(g, cur) && Get(steps, cur).Finite?
    requires ZerosFixed(g, steps, z) && Witnessed(g, steps, z, seeds, wit)
    requires cur in seeds || cur !in z
    requires cur in wit
    requires Step(g, cur, p) && Less(Finite(Get(steps, cur).n + 1), Get(steps, p))
    ensures p != cur && p !in z
    ensures Witnessed(g, Put(steps, p, Finite(Get(steps, cur).n + 1)), z, seeds, wit[p := wit[cur] + [p]])
    ensures Get(steps, cur).n + 1 < |AllCells(g)|
  {
    var steps' := Put(steps, p, Finite(Get(steps, cur).n + 1));
    assert HasWitness(g, steps, z, seeds, wit, cur);
    var wit' := wit[p := wit[cur] + [p]];
    ExtendWitness(g, steps, z, seeds, wit[cur], cur, p);
    PutLowers(g, steps, z, p, Finite(Get(steps, cur).n + 1));
    forall c | InBounds(g, c) && Get(steps', c).Finite?
      ensures HasWitness(g, steps', z, seeds, wit', c)
    {
      if c != p {
        assert HasWitness(g, steps, z, seeds, wit, c);
        KeepWitness(g, steps, steps', z, seeds, wit[c], c);
      }
    }
  }

  /**
   * Settledness survives any change that only lowers counts and puts every
   * changed cell on the frontier.
   */
  lemma ClosedAfterLowering(g: Grid, steps: seq<seq<Cost>>, frontier: map<Cell, int>,
                            steps': seq<seq<Cost>>, frontier': map<Cell, int>,
                            z: set<Cell>, seeds: set<Cell>, goal: Cell, except: set<Cell>)
    requires Shaped(g, steps) && Shaped(g, steps') && InBounds(g, goal)
    requires Closed(g, steps, frontier, z, seeds, goal, except)
    requires NoWorse(g, steps', steps)
    requires forall c {:trigger Get(steps', c)} :: InBounds(g, c) && Get(steps', c) != Get(steps, c) ==> c in frontier'
    requires frontier.Keys <= frontier'.Keys
    ensures Closed(g, steps', frontier', z, seeds, goal, except)
  {
    forall c | InBounds(g, c) && c !in except ensures Settled(g, steps', frontier', z, seeds, goal, c) {
      if c !in frontier' && Less(Get(steps', c), Get(steps', goal)) && (c in seeds || c !in z) {
        assert Settled(g, steps, frontier, z, seeds, goal, c);
        assert Le(Get(steps', goal), Get(steps, goal));
        forall n | Step(g, c, n) ensures Le(Get(steps', n), Finite(Get(steps', c).n + 1)) {
          assert Le(Get(steps', n), Get(steps, n));
        }
      }
    }
  }

  /** The measure drops with every improvement: two per unit of potential, at most one new entry. */
  lemma MeasureDrops(g: Grid, steps: seq<seq<Cost>>, frontier: map<Cell, int>, p: Cell, v: nat, prio: int, bound: nat)
    requires Shaped(g, steps) && InBounds(g, p) && Less(Finite(v), Get(steps, p)) && v < bound
    ensures 2 * TablePotential(Put(steps, p, Finite(v)), bound) + |frontier[p := prio]|
      < 2 * TablePotential(steps, bound) + |frontier|
  {
    TablePotentialUpdate(steps, p, Finite(v), bound);
    assert frontier[p := prio].Keys == frontier.Keys + {p};
    assert |frontier[p := prio].Keys| <= |frontier.Keys| + 1;
  }

  /**
   * Relaxation of one candidate move from cur to p: a count is only ever
   * replaced by a strictly smaller one, exactly one more than cur's, and the
   * cell whose count changed is pushed with its new estimate.
   */
  method RelaxMove(g: Grid, steps: seq<seq<Cost>>, frontier: map<Cell, int>, cur: Cell, p: Cell, goal: Cell,
                   ghost z: set<Cell>, ghost seeds: set<Cell>, ghost wit: map<Cell, seq<Cell>>)
    returns (steps': seq<seq<Cost>>, frontier': map<Cell, int>, ghost wit': map<Cell, seq<Cell>>)
    requires Shaped(g, steps) && InBounds(g, goal) && InBounds(g, cur) && Get(steps, cur).Finite?
    requires ManhattanDistance(cur, p) == 1
    requires ZerosFixed(g, steps, z) && Witnessed(g, steps, z, seeds, wit)
    requires FrontierOk(g, frontier, z, seeds) && cur !in frontier
    requires cur in seeds || cur !in z
    ensures Shaped(g, steps') && ZerosFixed(g, steps', z) && Witnessed(g, steps', z, seeds, wit')
    ensures FrontierOk(g, frontier', z, seeds) && cur !in frontier'
    ensures Get(steps', cur) == Get(steps, cur) && NoWorse(g, steps', steps)
    ensures forall c {:trigger Get(steps', c)} :: InBounds(g, c) && Get(steps', c) != Get(steps, c) ==>
      c == p && Get(steps', c) == Finite(Get(steps, cur).n + 1) && c in frontier'
    ensures frontier.Keys <= frontier'.Keys
    ensures Step(g, cur, p) ==> Le(Get(steps', p), Finite(Get(steps, cur).n + 1))
    ensures 2 * TablePotential(steps', |AllCells(g)|) + |frontier'| <= 2 * TablePotential(steps, |AllCells(g)|) + |frontier|
  {
    steps', frontier', wit' := steps, frontier, wit;
    var mySteps := Get(steps, cur).n;
    if 0 <= p.y < |g| {
      var row := g[p.y];
      if 0 <= p.x < |row| {
        if Altitude(At(g, cur)) + 1 >= Altitude(row[p.x]) && Less(Finite(mySteps + 1), Get(steps, p)) {
          assert HasWitness(g, steps, z, seeds, wit, cur);
          RelaxKeepsWitnessed(g, steps, z, seeds, wit, cur, p);
          PutLowers(g, steps, z, p, Finite(mySteps + 1));
          MeasureDrops(g, steps, frontier, p, mySteps + 1, mySteps + 1 + ManhattanDistance(p, goal), |AllCells(g)|);
          steps' := Put(steps, p, Finite(mySteps + 1));
          frontier' := frontier[p := mySteps + 1 + ManhattanDistance(p, goal)];
          wit' := wit[p := wit[cur] + [p]];
        }
      }
    }
  }

  /**
   * Expansion of a popped cell (the loop over its four moves): afterwards the
   * cell is settled, every invariant still holds and the measure did not grow.
   */
  method Expand(g: Grid, steps: seq<seq<Cost>>, frontier: map<Cell, int>, cur: Cell, goal: Cell,
                ghost z: set<Cell>, ghost seeds: set<Cell>, ghost wit: map<Cell, seq<Cell>>)
    returns (steps': seq<seq<Cost>>, frontier': map<Cell, int>, ghost wit': map<Cell, seq<Cell>>)
    requires Shaped(g, steps) && InBounds(g, goal) && InBounds(g, cur) && Get(steps, cur).Finite?
    requires ZerosFixed(g, steps, z) && Witnessed(g, steps, z, seeds, wit)
    requires FrontierOk(g, frontier, z, seeds) && cur !in frontier
    requires Closed(g, steps, frontier, z, seeds, goal, {cur})
    requires cur in seeds || cur !in z
    ensures Shaped(g, steps') && ZerosFixed(g, steps', z) && Witnessed(g, steps', z, seeds, wit')
    ensures FrontierOk(g, frontier', z, seeds)
    ensures Get(steps', cur) == Get(steps, cur)
    ensures Closed(g, steps', frontier', z, seeds, goal, {cur})
    ensures forall n :: Step(g, cur, n) ==> Le(Get(steps', n), Finite(Get(steps', cur).n + 1))
    ensures 2 * TablePotential(steps', |AllCells(g)|) + |frontier'| <= 2 * TablePotential(steps, |AllCells(g)|) + |frontier|
  {
    ghost var bound := |AllCells(g)|;
    var my := Get(steps, cur).n;
    var nbrs := Neighbours(cur);
    steps', frontier', wit' := steps, frontier, wit;
    var k := 0;
    while k < 4
      invariant 0 <= k <= 4
      invariant Shaped(g, steps') && Get(steps', cur) == Get(steps, cur)
      invariant ZerosFixed(g, steps', z) && Witnessed(g, steps', z, seeds, wit')
      invariant FrontierOk(g, frontier', z, seeds) && cur !in frontier'
      invariant Closed(g, steps', frontier', z, seeds, goal, {cur})
      invariant forall j :: 0 <= j < k && Step(g, cur, nbrs[j]) ==> Le(Get(steps', nbrs[j]), Finite(my + 1))
      invariant 2 * TablePotential(steps', bound) + |frontier'| <= 2 * TablePotential(steps, bound) + |frontier|
    {
      ghost var before := steps';
      ghost var frontierBefore := frontier';
      steps', frontier', wit' := RelaxMove(g, steps', frontier', cur, nbrs[k], goal, z, seeds, wit');
      ClosedAfterLowering(g, before, frontierBefore, steps', frontier', z, seeds, goal, {cur});
      NeighbourBoundsKept(g, before, steps', cur, nbrs, k, my + 1);
      k := k + 1;
    }
    NeighboursCovered(g, steps', cur, my + 1);
  }

  /** Lowering counts keeps the bound on the neighbours already relaxed, and adds the one just relaxed. */
  lemma NeighbourBoundsKept(g: Grid, before: seq<seq<Cost>>, steps: seq<seq<Cost>>, cur: Cell, nbrs: seq<Cell>, k: nat, b: nat)
    requires Shaped(g, before) && Shaped(g, steps) && NoWorse(g, steps, before) && k < |nbrs|
    requires forall j :: 0 <= j < k && Step(g, cur, nbrs[j]) ==> Le(Get(before, nbrs[j]), Finite(b))
    requires Step(g, cur, nbrs[k]) ==> Le(Get(steps, nbrs[k]), Finite(b))
    ensures forall j :: 0 <= j < k + 1 && Step(g, cur, nbrs[j]) ==> Le(Get(steps, nbrs[j]), Finite(b))
  {
    forall j | 0 <= j < k + 1 && Step(g, cur, nbrs[j]) ensures Le(Get(steps, nbrs[j]), Finite(b)) {
      if j < k {
        assert Le(Get(before, nbrs[j]), Finite(b));
        assert Le(Get(steps, nbrs[j]), Get(before, nbrs[j]));
      }
    }
  }

  /** A bound on the four listed neighbours is a bound on every cell one step away. */
  lemma NeighboursCovered(g: Grid, steps: seq<seq<Cost>>, cur: Cell, b: nat)
    requires Shaped(g, steps)
    requires forall j :: 0 <= j < 4 && Step(g, cur, Neighbours(cur)[j]) ==> Le(Get(steps, Neighbours(cur)[j]), Finite(b))
    ensures forall n :: Step(g, cur, n) ==> Le(Get(steps, n), Finite(b))
  {
    forall n | Step(g, cur, n) ensures Le(Get(steps, n), Finite(b)) {
      AdjacentIsNeighbour(cur, n);
      var j :| 0 <= j < 4 && Neighbours(cur)[j] == n;
    }
  }

  /** At the start only the zero cells are reached, each by the path made of itself. */
  lemma InitiallyWitnessed(g: Grid, steps: seq<seq<Cost>>, z: set<Cell>, seeds: set<Cell>)
    requires Shaped(g, steps)
    requires forall c :: InBounds(g, c) ==> Get(steps, c) == if c in z then Finite(0) else Unreached
    ensures Witnessed(g, steps, z, seeds, map c | c in z :: [c])
  {
    var wit := map c | c in z :: [c];
    forall c | InBounds(g, c) && Get(steps, c).Finite?
      ensures HasWitness(g, steps, z, seeds, wit, c)
    {
      assert Ranked(g, steps, [c]);
    }
  }

  /** At the start the only cells off the frontier are unreached or zero cells that are not seeds. */
  lemma InitiallyClosed(g: Grid, steps: seq<seq<Cost>>, frontier: map<Cell, int>, z: set<Cell>, goal: Cell)
    requires Shaped(g, steps) && InBounds(g, goal)
    requires forall c :: InBounds(g, c) ==> Get(steps, c) == if c in z then Finite(0) else Unreached
    ensures Closed(g, steps, frontier, z, frontier.Keys, goal, {})
  {
  }

  /** Once the frontier is empty, the goal's count is the shortest search path length. */
  lemma FinallyShortest(g: Grid, steps: seq<seq<Cost>>, z: set<Cell>, seeds: set<Cell>, wit: map<Cell, seq<Cell>>, goal: Cell)
    requires Shaped(g, steps) && InBounds(g, goal)
    requires ZerosFixed(g, steps, z) && Witnessed(g, steps, z, seeds, wit)
    requires Closed(g, steps, map[], z, seeds, goal, {})
    ensures IsShortestResult(g, z, seeds, goal, Get(steps, goal))
  {
    if Get(steps, goal).Finite? {
      assert HasWitness(g, steps, z, seeds, wit, goal);
    }
    forall q | SearchPath(g, z, seeds, q) && Last(q) == goal ensures Le(Get(steps, goal), Finite(|q| - 1)) {
      ClosedIsOptimal(g, steps, z, seeds, goal, q);
    }
  }

  lemma PopKeepsClosed(g: Grid, steps: seq<seq<Cost>>, frontier: map<Cell, int>, z: set<Cell>, seeds: set<Cell>, goal: Cell, cur: Cell)
    requires Shaped(g, steps) && InBounds(g, goal)
    requires Closed(g, steps, frontier, z, seeds, goal, {})
    ensures Closed(g, steps, frontier - {cur}, z, seeds, goal, {cur})
  {
    forall c | InBounds(g, c) && c !in {cur} ensures Settled(g, steps, frontier - {cur}, z, seeds, goal, c) {
      assert Settled(g, steps, frontier, z, seeds, goal, c);
    }
  }

  /** Popping a cell leaves one cell fewer queued, all still valid, and the popped cell inside the grid. */
  lemma PopShrinks(g: Grid, frontier: map<Cell, int>, z: set<Cell>, seeds: set<Cell>, cur: Cell)
    requires FrontierOk(g, frontier, z, seeds) && cur in frontier
    ensures FrontierOk(g, frontier - {cur}, z, seeds) && InBounds(g, cur) && (cur in seeds || cur !in z)
    ensures |frontier - {cur}| == |frontier| - 1
  {
    assert (frontier - {cur}).Keys == frontier.Keys - {cur};
  }

  /** A popped cell is settled once all its moves are relaxed... */
  lemma SettleExpanded(g: Grid, steps: seq<seq<Cost>>, frontier: map<Cell, int>, z: set<Cell>, seeds: set<Cell>, goal: Cell, cur: Cell)
    requires Shaped(g, steps) && InBounds(g, goal) && InBounds(g, cur) && Get(steps, cur).Finite?
    requires Closed(g, steps, frontier, z, seeds, goal, {cur})
    requires forall n :: Step(g, cur, n) ==> Le(Get(steps, n), Finite(Get(steps, cur).n + 1))
    ensures Closed(g, steps, frontier, z, seeds, goal, {})
  {
    assert Settled(g, steps, frontier, z, seeds, goal, cur);
  }

  /** ... or when its count is not below the goal's, as then it is pruned. */
  lemma SettlePruned(g: Grid, steps: seq<seq<Cost>>, frontier: map<Cell, int>, z: set<Cell>, seeds: set<Cell>, goal: Cell, cur: Cell)
    requires Shaped(g, steps) && InBounds(g, goal) && InBounds(g, cur)
    requires Closed(g, steps, frontier, z, seeds, goal, {cur})
    requires !Less(Get(steps, cur), Get(steps, goal))
    ensures Closed(g, steps, frontier, z, seeds, goal, {})
  {
    assert Settled(g, steps, frontier, z, seeds, goal, cur);
  }

  /**
   * The search loop shared by both parts: pop any frontier cell, and expand it
   * only while its count is below the goal's. steps0 holds 0 on the zero cells
   * and Unreached elsewhere; frontier0 holds the seeds. The loop always ends,
   * and the goal's final count is the length of a shortest search path.
   */
  method Search(g: Grid, steps0: seq<seq<Cost>>, frontier0: map<Cell, int>, goal: Cell, ghost z: set<Cell>)
    returns (r: Cost)
    requires Shaped(g, steps0) && InBounds(g, goal)
    requires forall c :: c in frontier0 ==> InBounds(g, c)
    requires forall c :: InBounds(g, c) ==> Get(steps0, c) == if c in z then Finite(0) else Unreached
    requires forall c :: c in z ==> InBounds(g, c)
    ensures IsShortestResult(g, z, frontier0.Keys, goal, r)
  {
    ghost var seeds := frontier0.Keys;
    ghost var bound := |AllCells(g)|;
    var steps := steps0;
    var frontier := frontier0;
    ghost var wit: map<Cell, seq<Cell>> := map c | c in z :: [c];
    InitiallyWitnessed(g, steps, z, seeds);
    InitiallyClosed(g, steps, frontier, z, goal);
    while |frontier| > 0
      invariant Shaped(g, steps)
      invariant ZerosFixed(g, steps, z)
      invariant Witnessed(g, steps, z, seeds, wit)
      invariant FrontierOk(g, frontier, z, seeds)
      invariant Closed(g, steps, frontier, z, seeds, goal, {})
      decreases 2 * TablePotential(steps, bound) + |frontier|
    {
      var cur :| cur in frontier;
      PopShrinks(g, frontier, z, seeds, cur);
      PopKeepsClosed(g, steps, frontier, z, seeds, goal, cur);
      frontier := frontier - {cur};
      if Less(Get(steps, cur), Get(steps, goal)) {
        steps, frontier, wit := Expand(g, steps, frontier, cur, goal, z, seeds, wit);
        SettleExpanded(g, steps, frontier, z, seeds, goal, cur);
      } else {
        SettlePruned(g, steps, frontier, z, seeds, goal, cur);
      }
    }
    assert frontier == map[];
    FinallyShortest(g, steps, z, seeds, wit, goal);
    r := Get(steps, goal);
  }

  // ---------------------------------------------------------------------------
  // Locating the markers and seeding the search

  /** c comes before d in row-major order. */
  predicate RowMajorLess(c: Cell, d: Cell)
  {
    c.y < d.y || (c.y == d.y && c.x < d.x)
  }

  /** The last cell strictly before column x of row y, in row-major order, whose character is in chars. */
  function LastBefore(g: Grid, chars: set<char>, y: nat, x: nat): Option<Cell>
    requires y <= |g| && (y < |g| ==> x <= |g[y]|) && (y == |g| ==> x == 0)
    decreases y, x
  {
    if x > 0 then
      if g[y][x - 1] in chars then Some(Cell(x - 1, y)) else LastBefore(g, chars, y, x - 1)
    else if y == 0 then None
    else LastBefore(g, chars, y - 1, |g[y - 1]|)
  }

  lemma {:induction false} LastBeforeIsLast(g: Grid, chars: set<char>, y: nat, x: nat)
    requires y <= |g| && (y < |g| ==> x <= |g[y]|) && (y == |g| ==> x == 0)
    ensures LastBefore(g, chars, y, x).Some? ==>
      var c := LastBefore(g, chars, y, x).value;
      InBounds(g, c) && At(g, c) in chars && RowMajorLess(c, Cell(x, y))
      && forall d :: InBounds(g, d) && RowMajorLess(c, d) && RowMajorLess(d, Cell(x, y)) ==> At(g, d) !in chars
    ensures LastBefore(g, chars, y, x).None? ==>
      forall d :: InBounds(g, d) && RowMajorLess(d, Cell(x, y)) ==> At(g, d) !in chars
    decreases y, x
  {
    if x > 0 {
      if g[y][x - 1] !in chars {
        LastBeforeIsLast(g, chars, y, x - 1);
      }
    } else if y > 0 {
      LastBeforeIsLast(g, chars, y - 1, |g[y - 1]|);
    }
  }

  /** The cell a marker scan settles on: the last match, or (0, 0) when there is none. */
  function MarkerCell(g: Grid, chars: set<char>): Cell
  {
    match LastBefore(g, chars, |g|, 0)
    case Some(c) => c
    case None => Cell(0, 0)
  }

  /** The marker cell is the last matching cell in row-major order, or (0, 0) if none matches. */
  lemma MarkerCellIsLastMatch(g: Grid, chars: set<char>)
    ensures (exists d :: InBounds(g, d) && At(g, d) in chars) ==>
      var c := MarkerCell(g, chars);
      InBounds(g, c) && At(g, c) in chars
      && forall d :: InBounds(g, d) && RowMajorLess(c, d) ==> At(g, d) !in chars
    ensures (forall d :: InBounds(g, d) ==> At(g, d) !in chars) ==> MarkerCell(g, chars) == Cell(0, 0)
  {
    LastBeforeIsLast(g, chars, |g|, 0);
  }

  lemma ZeroCellsMembers(g: Grid, chars: set<char>)
    ensures forall c :: c in ZeroCells(g, chars) <==> InBounds(g, c) && At(g, c) in chars
  {
    forall c | InBounds(g, c) && At(g, c) in chars ensures c in ZeroCells(g, chars) {
      assert c == Cell(c.x, c.y);
    }
  }

  /** The inner loop of the scan: one row, left to right. */
  method ScanRow(g: Grid, chars: set<char>, y: nat, steps: seq<seq<Cost>>, zeros: seq<Cell>,
                 lastSeen: Option<Cell>, goalSeen: Option<Cell>)
    returns (steps': seq<seq<Cost>>, zeros': seq<Cell>, lastSeen': Option<Cell>, goalSeen': Option<Cell>)
    requires y < |g| && Shaped(g, steps)
    requires forall c :: InBounds(g, c) ==>
      Get(steps, c) == if c.y < y && At(g, c) in chars then Finite(0) else Unreached
    requires forall c :: c in zeros <==> InBounds(g, c) && c.y < y && At(g, c) in chars
    requires lastSeen == LastBefore(g, chars, y, 0) && goalSeen == LastBefore(g, {'E'}, y, 0)
    ensures Shaped(g, steps')
    ensures forall c :: InBounds(g, c) ==>
      Get(steps', c) == if c.y <= y && At(g, c) in chars then Finite(0) else Unreached
    ensures forall c :: c in zeros' <==> InBounds(g, c) && c.y <= y && At(g, c) in chars
    ensures lastSeen' == LastBefore(g, chars, y, |g[y]|) && goalSeen' == LastBefore(g, {'E'}, y, |g[y]|)
  {
    steps', zeros', lastSeen', goalSeen' := steps, zeros, lastSeen, goalSeen;
    var row := g[y];
    var x := 0;
    while x < |row|
      invariant 0 <= x <= |row| && Shaped(g, steps')
      invariant forall c :: InBounds(g, c) ==>
        Get(steps', c) == if RowMajorLess(c, Cell(x, y)) && At(g, c) in chars then Finite(0) else Unreached
      invariant forall c :: c in zeros' <==> InBounds(g, c) && RowMajorLess(c, Cell(x, y)) && At(g, c) in chars
      invariant lastSeen' == LastBefore(g, chars, y, x) && goalSeen' == LastBefore(g, {'E'}, y, x)
    {
      if row[x] in chars {
        lastSeen' := Some(Cell(x, y));
        zeros' := zeros' + [Cell(x, y)];
        steps' := Put(steps', Cell(x, y), Finite(0));
      }
      if row[x] == 'E' {
        goalSeen' := Some(Cell(x, y));
      }
      x := x + 1;
    }
  }

  /**
   * The nested scan over the grid: every cell whose character is in chars gets
   * count 0 and is collected in row-major order, and the last such cell and the
   * last 'E' are remembered; every other cell stays Unreached.
   */
  method ScanGrid(g: Grid, chars: set<char>) returns (steps: seq<seq<Cost>>, zeros: seq<Cell>, last: Cell, goal: Cell)
    ensures Shaped(g, steps)
    ensures forall c :: InBounds(g, c) ==> Get(steps, c) == if At(g, c) in chars then Finite(0) else Unreached
    ensures forall c :: c in zeros <==> InBounds(g, c) && At(g, c) in chars
    ensures last == MarkerCell(g, chars) && goal == MarkerCell(g, {'E'})
  {
    steps := seq(|g|, y requires 0 <= y < |g| => seq(|g[y]|, _ => Unreached));
    zeros := [];
    var lastSeen: Option<Cell> := None;
    var goalSeen: Option<Cell> := None;
    var y := 0;
    while y < |g|
      invariant 0 <= y <= |g| && Shaped(g, steps)
      invariant forall c :: InBounds(g, c) ==>
        Get(steps, c) == if c.y < y && At(g, c) in chars then Finite(0) else Unreached
      invariant forall c :: c in zeros <==> InBounds(g, c) && c.y < y && At(g, c) in chars
      invariant lastSeen == LastBefore(g, chars, y, 0) && goalSeen == LastBefore(g, {'E'}, y, 0)
    {
      steps, zeros, lastSeen, goalSeen := ScanRow(g, chars, y, steps, zeros, lastSeen, goalSeen);
      assert LastBefore(g, chars, y + 1, 0) == LastBefore(g, chars, y, |g[y]|);
      assert LastBefore(g, {'E'}, y + 1, 0) == LastBefore(g, {'E'}, y, |g[y]|);
      y := y + 1;
    }
    last := if lastSeen.Some? then lastSeen.value else Cell(0, 0);
    goal := if goalSeen.Some? then goalSeen.value else Cell(0, 0);
  }

  /**
   * Part 1: the search from the last 'S' cell. A start or goal outside the
   * grid makes the source index out of range; the model answers None there.
   */
  method Part1(g: Grid) returns (r: Option<Cost>)
    ensures r.None? <==> !InBounds(g, MarkerCell(g, {'S'})) || !InBounds(g, MarkerCell(g, {'E'}))
    ensures r.Some? ==> IsShortestResult(g, ZeroCells(g, {'S'}), {MarkerCell(g, {'S'})}, MarkerCell(g, {'E'}), r.value)
  {
    var steps, zeros, start, goal := ScanGrid(g, {'S'});
    if !InBounds(g, start) || !InBounds(g, goal) {
      return None;
    }
    ZeroCellsMembers(g, {'S'});
    var frontier := map[start := ManhattanDistance(start, goal)];
    assert frontier.Keys == {start};
    var n := Search(g, steps, frontier, goal, ZeroCells(g, {'S'}));
    r := Some(n);
  }

  /**
   * Part 2: the search seeded with every 'S' and 'a' cell. Only a goal outside
   * the grid makes the source index out of range; the model answers None there.
   */
  method Part2(g: Grid) returns (r: Option<Cost>)
    ensures r.None? <==> !InBounds(g, MarkerCell(g, {'E'}))
    ensures r.Some? ==> IsShortestFrom(g, ZeroCells(g, {'S', 'a'}), MarkerCell(g, {'E'}), r.value)
  {
    var steps, starts, _, goal := ScanGrid(g, {'S', 'a'});
    if !InBounds(g, goal) {
      return None;
    }
    ZeroCellsMembers(g, {'S', 'a'});
    var frontier: map<Cell, int> := map[];
    var i := 0;
    while i < |starts|
      invariant 0 <= i <= |starts|
      invariant frontier.Keys == set j | 0 <= j < i :: starts[j]
    {
      frontier := frontier[starts[i] := ManhattanDistance(starts[i], goal)];
      i := i + 1;
    }
    assert frontier.Keys == ZeroCells(g, {'S', 'a'});
    var n := Search(g, steps, frontier, goal, ZeroCells(g, {'S', 'a'}));
    AllZerosSeededIsShortestFrom(g, ZeroCells(g, {'S', 'a'}), goal, n);
    r := Some(n);
  }
}
