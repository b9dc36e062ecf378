// Treetop tree house (src/day08.rs): a rectangular grid of tree heights
// 0..9. Part 1 counts the trees visible from outside the grid; part 2 finds
// the best scenic score, the product of the four viewing distances.
module Day08 {
  import opened Common

  type Grid = seq<seq<int>>

  /** The height of a digit character. */
  function Digit(c: char): (h: int)
    requires IsDigit(c)
    ensures 0 <= h <= 9
  {
    c as int - '0' as int
  }

  /** Every row has the width of the first and every height is a digit's. */
  predicate WellFormed(grid: Grid, width: nat)
  {
    forall y :: 0 <= y < |grid| ==> |grid[y]| == width && forall x :: 0 <= x < width ==> 0 <= grid[y][x] <= 9
  }

  predicate Heights(s: seq<int>)
  {
    forall i :: 0 <= i < |s| ==> 0 <= s[i] <= 9
  }

  function Column(grid: Grid, x: nat, width: nat): (c: seq<int>)
    requires WellFormed(grid, width) && x < width
    ensures |c| == |grid| && Heights(c)
    ensures forall y :: 0 <= y < |grid| ==> c[y] == grid[y][x]
  {
    seq(|grid|, y requires 0 <= y < |grid| => grid[y][x])
  }

  // ---------------------------------------------------------------------------
  // Visibility

  /** Every tree before position j is shorter. */
  ghost predicate VisibleFromStart(s: seq<int>, j: int)
    requires 0 <= j < |s|
  {
    forall k :: 0 <= k < j ==> s[k] < s[j]
  }

  /** Every tree after position j is shorter. */
  ghost predicate VisibleFromEnd(s: seq<int>, j: int)
    requires 0 <= j < |s|
  {
    forall k :: j < k < |s| ==> s[k] < s[j]
  }

  ghost predicate VisibleInLine(s: seq<int>, j: int)
    requires 0 <= j < |s|
  {
    VisibleFromStart(s, j) || VisibleFromEnd(s, j)
  }

  /** Visible from the left, the right, the top or the bottom. */
  ghost predicate Visible(grid: Grid, width: nat, y: int, x: int)
    requires WellFormed(grid, width) && 0 <= y < |grid| && 0 <= x < width
  {
    VisibleInLine(grid[y], x) || VisibleInLine(Column(grid, x, width), y)
  }

  /** The tallest of s[..j], or -1 when there is none. */
  function MaxBefore(s: seq<int>, j: int): int
    requires 0 <= j <= |s|
  {
    if j == 0 then -1 else Max(MaxBefore(s, j - 1), s[j - 1])
  }

  /** The tallest of s[j..], or -1 when there is none. */
  function MaxFrom(s: seq<int>, j: int): int
    requires 0 <= j <= |s|
    decreases |s| - j
  {
    if j == |s| then -1 else Max(s[j], MaxFrom(s, j + 1))
  }

  function Max(a: int, b: int): int { if a < b then b else a }

  /** Beating the running maximum is being taller than every earlier tree. */
  lemma {:induction false} AboveMaxBefore(s: seq<int>, j: int)
    requires Heights(s) && 0 <= j < |s|
    ensures s[j] > MaxBefore(s, j) <==> VisibleFromStart(s, j)
  {
    MaxBeforeBound(s, j, s[j]);
  }

  lemma {:induction false} MaxBeforeBound(s: seq<int>, j: int, h: int)
    requires 0 <= j <= |s| && h >= 0
    ensures MaxBefore(s, j) < h <==> forall k :: 0 <= k < j ==> s[k] < h
  {
    if j > 0 {
      MaxBeforeBound(s, j - 1, h);
    }
  }

  lemma {:induction false} MaxFromBound(s: seq<int>, j: int, h: int)
    requires 0 <= j <= |s| && h >= 0
    ensures MaxFrom(s, j) < h <==> forall k :: j <= k < |s| ==> s[k] < h
    decreases |s| - j
  {
    if j < |s| {
      MaxFromBound(s, j + 1, h);
    }
  }

  lemma AboveMaxFrom(s: seq<int>, j: int)
    requires Heights(s) && 0 <= j < |s|
    ensures s[j] > MaxFrom(s, j + 1) <==> VisibleFromEnd(s, j)
  {
    MaxFromBound(s, j + 1, s[j]);
  }

  /** Trees on the border are always visible. */
  lemma BorderVisible(grid: Grid, width: nat, y: int, x: int)
    requires WellFormed(grid, width) && 0 <= y < |grid| && 0 <= x < width
    requires x == 0 || x == width - 1 || y == 0 || y == |grid| - 1
    ensures Visible(grid, width, y, x)
  {
    var c := Column(grid, x, width);
    if x == 0 {
      assert VisibleFromStart(grid[y], x);
    } else if x == width - 1 {
      assert VisibleFromEnd(grid[y], x);
    } else if y == 0 {
      assert VisibleFromStart(c, y);
    } else {
      assert VisibleFromEnd(c, y);
    }
  }

  /**
   * Marks the trees of row y visible from the left or the right, scanning
   * from both ends at once with the tallest tree seen so far on each side.
   */
  method CheckVisibleRow(row: seq<int>, width: nat, visible: array2<bool>, y: nat)
    requires |row| == width == visible.Length1 && y < visible.Length0 && Heights(row)
    modifies visible
    ensures forall i, j :: 0 <= i < visible.Length0 && 0 <= j < visible.Length1 ==>
      visible[i, j] == (old(visible[i, j]) || (i == y && VisibleInLine(row, j)))
  {
    var tallestLeft := -1;
    var tallestRight := -1;
    for x := 0 to width
      invariant tallestLeft == MaxBefore(row, x)
      invariant tallestRight == MaxFrom(row, width - x)
      invariant forall i, j :: 0 <= i < visible.Length0 && 0 <= j < visible.Length1 ==>
        visible[i, j] == (old(visible[i, j]) || (i == y && Marked(row, x, j)))
    {
      AboveMaxBefore(row, x);
      if row[x] > tallestLeft {
        tallestLeft := row[x];
        visible[y, x] := true;
      }
      var r := width - x - 1;
      AboveMaxFrom(row, r);
      if row[r] > tallestRight {
        tallestRight := row[r];
        visible[y, r] := true;
      }
    }
  }

  /** After x steps of the two-ended scan, j is marked if a finished side sees it. */
  ghost predicate Marked(s: seq<int>, x: int, j: int)
    requires 0 <= j < |s|
  {
    (j < x && VisibleFromStart(s, j)) || (j >= |s| - x && VisibleFromEnd(s, j))
  }

  /** The same two-ended scan down and up column x. */
  method CheckVisibleCol(grid: Grid, x: nat, height: nat, width: nat, visible: array2<bool>)
    requires WellFormed(grid, width) && height == |grid| == visible.Length0 && x < width == visible.Length1
    modifies visible
    ensures forall i, j :: 0 <= i < visible.Length0 && 0 <= j < visible.Length1 ==>
      visible[i, j] == (old(visible[i, j]) || (j == x && VisibleInLine(Column(grid, x, width), i)))
  {
    MarkColumn(Column(grid, x, width), visible, x);
  }

  /** The scan of column x, whose heights are col. */
  method MarkColumn(col: seq<int>, visible: array2<bool>, x: nat)
    requires Heights(col) && |col| == visible.Length0 && x < visible.Length1
    modifies visible
    ensures forall i, j :: 0 <= i < visible.Length0 && 0 <= j < visible.Length1 ==>
      visible[i, j] == (old(visible[i, j]) || (j == x && VisibleInLine(col, i)))
  {
    var height := |col|;
    var tallestTop := -1;
    var tallestBottom := -1;
    for y := 0 to height
      invariant tallestTop == MaxBefore(col, y)
      invariant tallestBottom == MaxFrom(col, height - y)
      invariant forall i, j :: 0 <= i < visible.Length0 && 0 <= j < visible.Length1 ==>
        visible[i, j] == (old(visible[i, j]) || (j == x && Marked(col, y, i)))
    {
      AboveMaxBefore(col, y);
      if col[y] > tallestTop {
        tallestTop := col[y];
        visible[y, x] := true;
      }
      var r := height - y - 1;
      AboveMaxFrom(col, r);
      if col[r] > tallestBottom {
        tallestBottom := col[r];
        visible[r, x] := true;
      }
    }
  }

  /** Number of visible trees in row y among its first n. */
  ghost function VisibleInRow(grid: Grid, width: nat, y: int, n: int): nat
    requires WellFormed(grid, width) && 0 <= y < |grid| && 0 <= n <= width
  {
    if n == 0 then 0 else VisibleInRow(grid, width, y, n - 1) + (if Visible(grid, width, y, n - 1) then 1 else 0)
  }

  /** Number of visible trees in the first m rows. */
  ghost function VisibleCount(grid: Grid, width: nat, m: int): nat
    requires WellFormed(grid, width) && 0 <= m <= |grid|
  {
    if m == 0 then 0 else VisibleCount(grid, width, m - 1) + VisibleInRow(grid, width, m - 1, width)
  }

  /** Every border tree counts: at least the two end trees of every row. */
  lemma {:induction false} VisibleInRowAtLeastEnds(grid: Grid, width: nat, y: int, n: int)
    requires WellFormed(grid, width) && 0 <= y < |grid| && 0 <= n <= width
    ensures VisibleInRow(grid, width, y, n) >= (if n == 0 then 0 else if n == 1 || width == 1 then 1 else if n < width then 1 else 2)
  {
    if n > 0 {
      VisibleInRowAtLeastEnds(grid, width, y, n - 1);
      if n - 1 == 0 || n - 1 == width - 1 {
        BorderVisible(grid, width, y, n - 1);
      }
    }
  }

  /** Part 1: the number of trees visible from outside the grid. */
  method Part1(grid: Grid) returns (count: nat)
    requires |grid| > 0 && WellFormed(grid, |grid[0]|)
    ensures count == VisibleCount(grid, |grid[0]|, |grid|)
  {
    var height := |grid|;
    var width := |grid[0]|;
    var visible := new bool[height, width]((_, _) => false);
    for y := 0 to height
      invariant forall i, j :: 0 <= i < height && 0 <= j < width ==> visible[i, j] == (i < y && VisibleInLine(grid[i], j))
    {
      CheckVisibleRow(grid[y], width, visible, y);
    }
    for x := 0 to width
      invariant forall i, j :: 0 <= i < height && 0 <= j < width ==>
        visible[i, j] == (VisibleInLine(grid[i], j) || (j < x && VisibleInLine(Column(grid, j, width), i)))
    {
      CheckVisibleCol(grid, x, height, width, visible);
    }
    count := CountVisible(grid, width, visible);
  }

  /** Counts the marked cells, row by row. */
  method CountVisible(grid: Grid, width: nat, visible: array2<bool>) returns (count: nat)
    requires WellFormed(grid, width) && visible.Length0 == |grid| && visible.Length1 == width
    requires forall i, j :: 0 <= i < |grid| && 0 <= j < width ==> visible[i, j] == Visible(grid, width, i, j)
    ensures count == VisibleCount(grid, width, |grid|)
  {
    count := 0;
    for y := 0 to |grid|
      invariant count == VisibleCount(grid, width, y)
    {
      var inRow := 0;
      for x := 0 to width
        invariant inRow == VisibleInRow(grid, width, y, x)
      {
        if visible[y, x] {
          inRow := inRow + 1;
        }
      }
      count := count + inRow;
    }
  }

  // ---------------------------------------------------------------------------
  // Scenic scores

  /**
   * Viewing distance from position k toward the start for a tree of height
   * h: up to and including the first tree at least as tall, or to the edge.
   */
  function ViewBack(s: seq<int>, k: int, h: int): (d: nat)
    requires 0 <= k < |s| || (k == |s| && k >= 0)
    ensures d <= k
    ensures forall j :: k - d < j < k ==> s[j] < h
    ensures d < k ==> d >= 1 && s[k - d] >= h
  {
    if k == 0 then 0 else if s[k - 1] >= h then 1 else 1 + ViewBack(s, k - 1, h)
  }

  /** Viewing distance from position k toward the end for a tree of height h. */
  function ViewOn(s: seq<int>, k: int, h: int): (d: nat)
    requires -1 <= k < |s|
    ensures d <= |s| - 1 - k
    ensures forall j :: k < j < k + d ==> s[j] < h
    ensures d < |s| - 1 - k ==> d >= 1 && s[k + d] >= h
    decreases |s| - k
  {
    if k == |s| - 1 then 0 else if s[k + 1] >= h then 1 else 1 + ViewOn(s, k + 1, h)
  }

  /** Trees on an edge see nothing in that direction. */
  lemma EdgeSeesNothing(s: seq<int>, h: int)
    requires |s| > 0
    ensures ViewBack(s, 0, h) == 0 && ViewOn(s, |s| - 1, h) == 0
  {
  }

  /** Scenic score: (up * down) * (left * right) viewing distances of the tree at (x, y). */
  function Score(grid: Grid, width: nat, y: int, x: int): int
    requires WellFormed(grid, width) && 0 <= y < |grid| && 0 <= x < width
  {
    LineFactor(Column(grid, x, width), y) * LineFactor(grid[y], x)
  }

  /** The counters of one scan direction: for every height 0..9, how far a tree of that height would see. */
  ghost predicate CountsBack(c: map<int, nat>, s: seq<int>, k: int)
    requires 0 <= k <= |s|
  {
    HeightKeys(c) && forall h :: 0 <= h < 10 ==> c[h] == ViewBack(s, k, h)
  }

  ghost predicate CountsOn(c: map<int, nat>, s: seq<int>, k: int)
    requires -1 <= k < |s|
  {
    HeightKeys(c) && forall h :: 0 <= h < 10 ==> c[h] == ViewOn(s, k, h)
  }

  /** The counters are keyed by the heights 0..9. */
  ghost predicate HeightKeys(c: map<int, nat>)
  {
    forall h :: h in c <==> 0 <= h < 10
  }

  /** Counters for the edge of the grid: nothing seen yet. */
  method CountSetup() returns (c: map<int, nat>)
    ensures HeightKeys(c) && forall h :: 0 <= h < 10 ==> c[h] == 0
  {
    c := map[];
    for i := 0 to 10
      invariant forall h :: h in c <==> 0 <= h < i
      invariant forall h :: 0 <= h < i ==> c[h] == 0
    {
      c := c[i := 0];
    }
  }

  /**
   * Moves the counters past a tree of height t: heights up to t are now
   * blocked by it at distance 1, taller ones see one tree further.
   */
  method UpdateCounts(c: map<int, nat>, t: int) returns (c': map<int, nat>)
    requires HeightKeys(c)
    ensures HeightKeys(c')
    ensures forall h :: 0 <= h < 10 ==> c'[h] == if h <= t then 1 else c[h] + 1
  {
    c' := c;
    for i := 0 to 10
      invariant HeightKeys(c')
      invariant forall h :: 0 <= h < 10 ==> c'[h] == if h < i then (if h <= t then 1 else c[h] + 1) else c[h]
    {
      var current := c'[i];
      if i <= t {
        c' := c'[i := 1];
      } else {
        c' := c'[i := current + 1];
      }
    }
  }

  /** Passing the tree at k turns the counters for k into the counters for k + 1. */
  lemma StepBack(c: map<int, nat>, c': map<int, nat>, s: seq<int>, k: int)
    requires 0 <= k < |s| && CountsBack(c, s, k)
    requires HeightKeys(c') && forall h :: 0 <= h < 10 ==> c'[h] == if h <= s[k] then 1 else c[h] + 1
    ensures CountsBack(c', s, k + 1)
  {
  }

  lemma StepOn(c: map<int, nat>, c': map<int, nat>, s: seq<int>, k: int)
    requires 0 <= k < |s| && CountsOn(c, s, k)
    requires HeightKeys(c') && forall h :: 0 <= h < 10 ==> c'[h] == if h <= s[k] then 1 else c[h] + 1
    ensures CountsOn(c', s, k - 1)
  {
  }

  /** Step k of a two-ended scan: the counters pass the k-th tree from either end. */
  method Advance(back: map<int, nat>, on: map<int, nat>, s: seq<int>, k: nat) returns (back': map<int, nat>, on': map<int, nat>)
    requires k < |s| && CountsBack(back, s, k) && CountsOn(on, s, |s| - 1 - k)
    ensures CountsBack(back', s, k + 1) && CountsOn(on', s, |s| - 2 - k)
  {
    var j := |s| - 1 - k;
    back' := UpdateCounts(back, s[k]);
    StepBack(back, back', s, k);
    on' := UpdateCounts(on, s[j]);
    StepOn(on, on', s, j);
    assert j - 1 == |s| - 2 - k;
  }

  /** Both viewing-distance factors of a cell of s. */
  function LineFactor(s: seq<int>, j: int): int
    requires 0 <= j < |s|
  {
    ViewBack(s, j, s[j]) * ViewOn(s, j, s[j])
  }

  /**
   * The value of cell j of a line after x steps of the two-ended scan (plus
   * the forward half of step x when half holds), starting from v: the
   * backward distance is multiplied in at step j, the forward one at step
   * |s| - 1 - j, in that order.
   */
  ghost function Applied(v: int, s: seq<int>, x: int, j: int, half: bool): int
    requires 0 <= j < |s|
  {
    var b := j < x || (half && j == x);
    var o := j >= |s| - x;
    var back := ViewBack(s, j, s[j]);
    var on := ViewOn(s, j, s[j]);
    if b && o then (if j <= |s| - 1 - j then v * back * on else v * on * back)
    else if b then v * back
    else if o then v * on
    else v
  }

  lemma Regroup(v: int, a: int, b: int)
    ensures v * a * b == v * (a * b) && v * b * a == v * (a * b)
  {
  }

  lemma AppliedDone(v: int, s: seq<int>, j: int)
    requires 0 <= j < |s|
    ensures Applied(v, s, |s|, j, false) == v * LineFactor(s, j)
  {
    Regroup(v, ViewBack(s, j, s[j]), ViewOn(s, j, s[j]));
  }

  /** One step of the two-ended scan, in terms of Applied. */
  lemma ScanStep(v: int, s: seq<int>, x: int, j: int)
    requires 0 <= x < |s| && 0 <= j < |s|
    ensures var r := |s| - 1 - x;
      var a := Applied(v, s, x, j, false);
      var m := if j == x then a * ViewBack(s, x, s[x]) else a;
      (if j == r then m * ViewOn(s, r, s[r]) else m) == Applied(v, s, x + 1, j, false)
  {
  }

  /**
   * Multiplies every tree of row y by its viewing distances to the left and to
   * the right, from both ends at once.
   */
  method CalcScenicCol(grid: Grid, y: nat, width: nat, scenic: array2<int>)
    requires WellFormed(grid, width) && |grid| == scenic.Length0 && y < |grid| && width == scenic.Length1
    modifies scenic
    ensures forall i, j :: 0 <= i < scenic.Length0 && 0 <= j < scenic.Length1 ==>
      scenic[i, j] == if i == y then old(scenic[i, j]) * LineFactor(grid[y], j) else old(scenic[i, j])
  {
    ScanRow(scenic, y, grid[y]);
  }

  /** The two-ended scan of row y, whose heights are row. */
  method ScanRow(scenic: array2<int>, y: nat, row: seq<int>)
    requires Heights(row) && y < scenic.Length0 && |row| == scenic.Length1
    modifies scenic
    ensures forall i, j :: 0 <= i < scenic.Length0 && 0 <= j < scenic.Length1 ==>
      scenic[i, j] == if i == y then old(scenic[i, j]) * LineFactor(row, j) else old(scenic[i, j])
  {
    var width := |row|;
    ghost var orig := seq(width, j requires 0 <= j < width reads scenic => scenic[y, j]);
    var back := CountSetup();
    var on := CountSetup();
    for x := 0 to width
      invariant CountsBack(back, row, x)
      invariant CountsOn(on, row, width - 1 - x)
      invariant forall i, j :: 0 <= i < scenic.Length0 && 0 <= j < scenic.Length1 && i != y ==>
        scenic[i, j] == old(scenic[i, j])
      invariant forall j :: 0 <= j < width ==> scenic[y, j] == Applied(orig[j], row, x, j, false)
    {
      var r := width - x - 1;
      ScanRowCells(scenic, y, row, x, back[row[x]], on[row[r]], orig);
      back, on := Advance(back, on, row, x);
    }
    forall i, j | 0 <= i < scenic.Length0 && 0 <= j < scenic.Length1
      ensures scenic[i, j] == if i == y then old(scenic[i, j]) * LineFactor(row, j) else old(scenic[i, j])
    {
      if i == y {
        AppliedDone(orig[j], row, j);
      }
    }
  }

  /** Step x of the scan of row y: the cell x from the left and the cell x from the right. */
  method ScanRowCells(scenic: array2<int>, y: nat, row: seq<int>, x: nat, fb: int, fo: int, ghost orig: seq<int>)
    requires y < scenic.Length0 && |row| == scenic.Length1 == |orig| && x < |row|
    requires fb == ViewBack(row, x, row[x]) && fo == ViewOn(row, |row| - 1 - x, row[|row| - 1 - x])
    requires forall j :: 0 <= j < |row| ==> scenic[y, j] == Applied(orig[j], row, x, j, false)
    modifies scenic
    ensures forall i, j :: 0 <= i < scenic.Length0 && 0 <= j < scenic.Length1 && i != y ==>
      scenic[i, j] == old(scenic[i, j])
    ensures forall j :: 0 <= j < |row| ==> scenic[y, j] == Applied(orig[j], row, x + 1, j, false)
  {
    var r := |row| - 1 - x;
    scenic[y, x] := scenic[y, x] * fb;
    label Half:
    scenic[y, r] := scenic[y, r] * fo;
    forall j | 0 <= j < |row|
      ensures scenic[y, j] == Applied(orig[j], row, x + 1, j, false)
    {
      var a := old(scenic[y, j]);
      var m := if j == x then a * fb else a;
      assert old@Half(scenic[y, j]) == m;
      assert scenic[y, j] == if j == r then m * fo else m;
      ScanStep(orig[j], row, x, j);
    }
  }

  /** Multiplies every tree of column x by its viewing distances up and down. */
  method CalcScenicRow(grid: Grid, x: nat, height: nat, width: nat, scenic: array2<int>)
    requires WellFormed(grid, width) && height == |grid| == scenic.Length0 && x < width == scenic.Length1
    modifies scenic
    ensures forall i, j :: 0 <= i < scenic.Length0 && 0 <= j < scenic.Length1 ==>
      scenic[i, j] == if j == x then old(scenic[i, j]) * LineFactor(Column(grid, x, width), i) else old(scenic[i, j])
  {
    ScanColumn(scenic, x, Column(grid, x, width));
  }

  /** The two-ended scan of column x, whose heights are col. */
  method ScanColumn(scenic: array2<int>, x: nat, col: seq<int>)
    requires Heights(col) && |col| == scenic.Length0 && x < scenic.Length1
    modifies scenic
    ensures forall i, j :: 0 <= i < scenic.Length0 && 0 <= j < scenic.Length1 ==>
      scenic[i, j] == if j == x then old(scenic[i, j]) * LineFactor(col, i) else old(scenic[i, j])
  {
    var height := |col|;
    ghost var orig := seq(height, i requires 0 <= i < height reads scenic => scenic[i, x]);
    var back := CountSetup();
    var on := CountSetup();
    for y := 0 to height
      invariant CountsBack(back, col, y)
      invariant CountsOn(on, col, height - 1 - y)
      invariant forall i, j :: 0 <= i < scenic.Length0 && 0 <= j < scenic.Length1 && j != x ==>
        scenic[i, j] == old(scenic[i, j])
      invariant forall i :: 0 <= i < height ==> scenic[i, x] == Applied(orig[i], col, y, i, false)
    {
      var r := height - y - 1;
      ScanColCells(scenic, x, col, y, back[col[y]], on[col[r]], orig);
      back, on := Advance(back, on, col, y);
    }
    forall i, j | 0 <= i < scenic.Length0 && 0 <= j < scenic.Length1
      ensures scenic[i, j] == if j == x then old(scenic[i, j]) * LineFactor(col, i) else old(scenic[i, j])
    {
      if j == x {
        AppliedDone(orig[i], col, i);
      }
    }
  }

  /** Step y of the scan of column x: the cell y from the top and the cell y from the bottom. */
  method ScanColCells(scenic: array2<int>, x: nat, col: seq<int>, y: nat, fb: int, fo: int, ghost orig: seq<int>)
    requires x < scenic.Length1 && |col| == scenic.Length0 == |orig| && y < |col|
    requires fb == ViewBack(col, y, col[y]) && fo == ViewOn(col, |col| - 1 - y, col[|col| - 1 - y])
    requires forall i :: 0 <= i < |col| ==> scenic[i, x] == Applied(orig[i], col, y, i, false)
    modifies scenic
    ensures forall i, j :: 0 <= i < scenic.Length0 && 0 <= j < scenic.Length1 && j != x ==>
      scenic[i, j] == old(scenic[i, j])
    ensures forall i :: 0 <= i < |col| ==> scenic[i, x] == Applied(orig[i], col, y + 1, i, false)
  {
    var r := |col| - 1 - y;
    scenic[y, x] := scenic[y, x] * fb;
    label Half:
    scenic[r, x] := scenic[r, x] * fo;
    forall i | 0 <= i < |col|
      ensures scenic[i, x] == Applied(orig[i], col, y + 1, i, false)
    {
      var a := old(scenic[i, x]);
      var m := if i == y then a * fb else a;
      assert old@Half(scenic[i, x]) == m;
      assert scenic[i, x] == if i == r then m * fo else m;
      ScanStep(orig[i], col, y, i);
    }
  }

  /**
   * Part 2: the highest scenic score. The source scans column y for each row
   * index y below the height and row x for each column index x below the
   * width, passing the width and height the other way round, so the scans
   * cover the grid only when it is square.
   */
  method Part2(grid: Grid) returns (best: int)
    requires |grid| > 0 && |grid[0]| > 0 && WellFormed(grid, |grid[0]|)
    requires |grid| == |grid[0]|
    ensures exists y, x :: 0 <= y < |grid| && 0 <= x < |grid[0]| && best == Score(grid, |grid[0]|, y, x)
    ensures forall y, x :: 0 <= y < |grid| && 0 <= x < |grid[0]| ==> Score(grid, |grid[0]|, y, x) <= best
  {
    var height := |grid|;
    var width := |grid[0]|;
    var scenic := new int[height, width]((_, _) => 1);
    for y := 0 to height
      invariant forall i, j :: 0 <= i < height && 0 <= j < width ==>
        scenic[i, j] == if j < y then LineFactor(Column(grid, j, width), i) else 1
    {
      CalcScenicRow(grid, y, width, width, scenic);
    }
    for x := 0 to width
      invariant forall i, j :: 0 <= i < height && 0 <= j < width ==>
        scenic[i, j] == if i < x then Score(grid, width, i, j) else LineFactor(Column(grid, j, width), i)
    {
      CalcScenicCol(grid, x, height, scenic);
    }
    best := BestScore(scenic);
  }

  /** The largest entry, row maximum by row maximum. */
  method BestScore(scenic: array2<int>) returns (best: int)
    requires scenic.Length0 > 0 && scenic.Length1 > 0
    ensures exists y, x :: 0 <= y < scenic.Length0 && 0 <= x < scenic.Length1 && best == scenic[y, x]
    ensures forall y, x :: 0 <= y < scenic.Length0 && 0 <= x < scenic.Length1 ==> scenic[y, x] <= best
  {
    best := scenic[0, 0];
    ghost var bestY, bestX := 0, 0;
    for y := 0 to scenic.Length0
      invariant 0 <= bestY < scenic.Length0 && 0 <= bestX < scenic.Length1 && best == scenic[bestY, bestX]
      invariant forall i, j :: 0 <= i < y && 0 <= j < scenic.Length1 ==> scenic[i, j] <= best
    {
      var rowBest := scenic[y, 0];
      ghost var rx := 0;
      for x := 0 to scenic.Length1
        invariant 0 <= rx < scenic.Length1 && rowBest == scenic[y, rx]
        invariant forall j :: 0 <= j < x ==> scenic[y, j] <= rowBest
      {
        if scenic[y, x] > rowBest {
          rowBest := scenic[y, x];
          rx := x;
        }
      }
      if y == 0 || rowBest > best {
        best := rowBest;
        bestY, bestX := y, rx;
      }
    }
  }

  /** A tree on the border scores 0. */
  lemma BorderScoresZero(grid: Grid, width: nat, y: int, x: int)
    requires WellFormed(grid, width) && 0 <= y < |grid| && 0 <= x < width
    requires x == 0 || x == width - 1 || y == 0 || y == |grid| - 1
    ensures Score(grid, width, y, x) == 0
  {
    var col := Column(grid, x, width);
    assert LineFactor(col, y) == 0 || LineFactor(grid[y], x) == 0;
  }
}
