// Rucksack reorganization (src/day03.rs): every item letter has a priority;
// part 1 sums the priority of the item found in both halves of each line,
// part 2 the priority of the badge shared by each group of three lines.
module Day03 {
  import opened Common

  predicate IsLower(c: char) { 'a' <= c <= 'z' }

  predicate IsUpper(c: char) { 'A' <= c <= 'Z' }

  /**
   * Lower-case letters count from 1, anything else from 'A' = 27; a
   * character below 'A' that is not lower case underflows in the program.
   */
  function Priority(c: char): (p: nat)
    requires c >= 'A'
    ensures IsLower(c) ==> 1 <= p <= 26
    ensures IsUpper(c) ==> 27 <= p <= 52
  {
    if IsLower(c) then c as int - 'a' as int + 1 else c as int - 'A' as int + 27
  }

  /** Different characters have different priorities, so items are compared by priority safely. */
  lemma PriorityInjective(c: char, d: char)
    requires c >= 'A' && d >= 'A' && c != d
    ensures Priority(c) != Priority(d)
  {
  }

  /** Letters get exactly the priorities 1 .. 52, each from exactly one letter. */
  lemma PrioritiesOfLetters(p: int)
    requires 1 <= p <= 52
    ensures exists c: char :: (IsLower(c) || IsUpper(c)) && Priority(c) == p
  {
    if p <= 26 {
      var c := ('a' as int + p - 1) as char;
      assert Priority(c) == p;
    } else {
      var c := ('A' as int + p - 27) as char;
      assert Priority(c) == p;
    }
  }

  predicate Items(line: string)
  {
    forall i :: 0 <= i < |line| ==> line[i] >= 'A'
  }

  function ItemPriorities(line: string): (ps: seq<nat>)
    requires Items(line)
    ensures |ps| == |line| && forall i :: 0 <= i < |line| ==> ps[i] == Priority(line[i])
  {
    seq(|line|, i requires 0 <= i < |line| => Priority(line[i]))
  }

  /** The first element of xs that also occurs in ys. */
  function FirstCommon(xs: seq<nat>, ys: seq<nat>): (r: Option<nat>)
    ensures r.None? <==> forall i :: 0 <= i < |xs| ==> xs[i] !in ys
    ensures r.Some? ==>
      exists i :: 0 <= i < |xs| && xs[i] == r.value && r.value in ys &&
        forall j :: 0 <= j < i ==> xs[j] !in ys
  {
    if xs == [] then None
    else if xs[0] in ys then
      Some(xs[0])
    else
      var r := FirstCommon(xs[1..], ys);
      assert forall i :: 1 <= i < |xs| ==> xs[i] == xs[1..][i - 1];
      if r.Some? then
        var i :| 0 <= i < |xs[1..]| && xs[1..][i] == r.value && r.value in ys &&
          forall j :: 0 <= j < i ==> xs[1..][j] !in ys;
        assert xs[i + 1] == r.value && forall j :: 0 <= j < i + 1 ==> xs[j] !in ys;
        r
      else r
  }

  /**
   * The priority of the item in both halves of the line (the first in front
   * order); None where the program panics because there is none.
   */
  function MisplacedItemPriority(line: string): (r: Option<nat>)
    requires Items(line)
    ensures var ps := ItemPriorities(line); var l := |line| / 2;
      r.Some? ==> r.value in ps[..l] && r.value in ps[l..]
  {
    var ps := ItemPriorities(line);
    var l := |line| / 2;
    FirstCommon(ps[..l], ps[l..])
  }

  /**
   * There is no misplaced item exactly when no character of the front half
   * occurs in the back half; otherwise it is the priority of such a
   * character, the first one in front order.
   */
  lemma MisplacedItemSpec(line: string)
    requires Items(line)
    ensures MisplacedItemPriority(line).None? <==> forall i, j :: 0 <= i < |line| / 2 <= j < |line| ==> line[i] != line[j]
    ensures MisplacedItemPriority(line).Some? ==>
      exists i, j :: 0 <= i < |line| / 2 <= j < |line| && line[i] == line[j] &&
        MisplacedItemPriority(line).value == Priority(line[i]) &&
        forall i', j' :: 0 <= i' < i && |line| / 2 <= j' < |line| ==> line[i'] != line[j']
  {
    var ps := ItemPriorities(line);
    var l := |line| / 2;
    var r := MisplacedItemPriority(line);
    if r.None? {
      forall i, j | 0 <= i < l <= j < |line| ensures line[i] != line[j] {
        assert ps[..l][i] == ps[i] && ps[l..][j - l] == ps[j];
      }
    } else {
      var i :| 0 <= i < l && ps[..l][i] == r.value && r.value in ps[l..] && forall j :: 0 <= j < i ==> ps[..l][j] !in ps[l..];
      var j :| 0 <= j < |ps[l..]| && ps[l..][j] == r.value;
      MisplacedAt(line, i, l + j);
    }
  }

  lemma MisplacedAt(line: string, i: nat, j: nat)
    requires Items(line) && i < |line| / 2 <= j < |line|
    requires var ps := ItemPriorities(line); var l := |line| / 2;
      ps[i] == ps[j] && forall k :: 0 <= k < i ==> ps[..l][k] !in ps[l..]
    ensures line[i] == line[j]
    ensures forall i', j' :: 0 <= i' < i && |line| / 2 <= j' < |line| ==> line[i'] != line[j']
  {
    var ps := ItemPriorities(line);
    var l := |line| / 2;
    PriorityInjective2(line[i], line[j]);
    forall i', j' | 0 <= i' < i && l <= j' < |line| ensures line[i'] != line[j'] {
      assert ps[..l][i'] == ps[i'] && ps[l..][j' - l] == ps[j'];
    }
  }

  lemma PriorityInjective2(c: char, d: char)
    requires c >= 'A' && d >= 'A' && Priority(c) == Priority(d)
    ensures c == d
  {
  }

  /** The elements of xs that also occur in ys, in order. */
  function Filter(xs: seq<nat>, ys: seq<nat>): (r: seq<nat>)
    ensures forall x :: x in r <==> x in xs && x in ys
  {
    if xs == [] then []
    else if xs[0] in ys then [xs[0]] + Filter(xs[1..], ys)
    else Filter(xs[1..], ys)
  }

  /** The first element of a in order that also occurs in b and in c. */
  function FirstInAll(a: seq<nat>, b: seq<nat>, c: seq<nat>): Option<nat>
  {
    if a == [] then None
    else if a[0] in b && a[0] in c then Some(a[0])
    else FirstInAll(a[1..], b, c)
  }

  /** Filtering by the second row and then searching the third finds the first item common to all three. */
  lemma {:induction false} FilterThenFind(a: seq<nat>, b: seq<nat>, c: seq<nat>)
    ensures FirstCommon(Filter(a, b), c) == FirstInAll(a, b, c)
  {
    if a != [] {
      FilterThenFind(a[1..], b, c);
      if a[0] in b {
        assert Filter(a, b) == [a[0]] + Filter(a[1..], b);
        assert (Filter(a, b))[1..] == Filter(a[1..], b);
      }
    }
  }

  lemma {:induction false} FirstInAllSpec(a: seq<nat>, b: seq<nat>, c: seq<nat>)
    ensures FirstInAll(a, b, c).None? <==> forall i :: 0 <= i < |a| ==> a[i] !in b || a[i] !in c
    ensures FirstInAll(a, b, c).Some? ==>
      exists i :: 0 <= i < |a| && a[i] == FirstInAll(a, b, c).value && a[i] in b && a[i] in c &&
        forall j :: 0 <= j < i ==> a[j] !in b || a[j] !in c
  {
    if a != [] {
      FirstInAllSpec(a[1..], b, c);
      assert forall i :: 1 <= i < |a| ==> a[i] == a[1..][i - 1];
      if !(a[0] in b && a[0] in c) && FirstInAll(a, b, c).Some? {
        var r := FirstInAll(a, b, c).value;
        var i :| 0 <= i < |a[1..]| && a[1..][i] == r && r in b && r in c &&
          forall j :: 0 <= j < i ==> a[1..][j] !in b || a[1..][j] !in c;
        assert a[i + 1] == r && forall j :: 0 <= j < i + 1 ==> a[j] !in b || a[j] !in c;
      }
    }
  }

  /**
   * The badge of a group of three lines: the first item of the first line
   * carried by the other two as well; None where the program panics.
   */
  function BadgeForGroup(g: seq<string>): (r: Option<nat>)
    requires |g| == 3 && forall k :: 0 <= k < 3 ==> Items(g[k])
    ensures r == FirstInAll(ItemPriorities(g[0]), ItemPriorities(g[1]), ItemPriorities(g[2]))
  {
    var rows := seq(3, k requires 0 <= k < 3 => ItemPriorities(g[k]));
    var first := Filter(rows[0], rows[1]);
    FilterThenFind(rows[0], rows[1], rows[2]);
    FirstCommon(first, rows[2])
  }

  /** The badge occurs in all three rows, and it is the first such item of the first row. */
  lemma BadgeInAllThree(g: seq<string>)
    requires |g| == 3 && forall k :: 0 <= k < 3 ==> Items(g[k])
    ensures var r := BadgeForGroup(g); var a := ItemPriorities(g[0]);
      r.Some? ==>
        exists i :: 0 <= i < |a| && a[i] == r.value && r.value in ItemPriorities(g[1]) && r.value in ItemPriorities(g[2]) &&
          forall j :: 0 <= j < i ==> a[j] !in ItemPriorities(g[1]) || a[j] !in ItemPriorities(g[2])
    ensures BadgeForGroup(g).None? <==> forall i :: 0 <= i < |g[0]| ==> Priority(g[0][i]) !in ItemPriorities(g[1]) || Priority(g[0][i]) !in ItemPriorities(g[2])
  {
    FirstInAllSpec(ItemPriorities(g[0]), ItemPriorities(g[1]), ItemPriorities(g[2]));
  }

  predicate Letters(line: string)
  {
    forall i :: 0 <= i < |line| ==> IsLower(line[i]) || IsUpper(line[i])
  }

  predicate AllItems(lines: seq<string>)
  {
    forall k :: 0 <= k < |lines| ==> Items(lines[k])
  }

  /** A line's part 1 score: the misplaced item's priority, 0 where there is none. */
  function MisplacedScore(line: string): nat
    requires Items(line)
  {
    match MisplacedItemPriority(line)
    case None => 0
    case Some(p) => p
  }

  /** A line of letters scores at most 52. */
  lemma MisplacedScoreBound(line: string)
    requires Items(line)
    ensures Letters(line) ==> MisplacedScore(line) <= 52
  {
    if Letters(line) && MisplacedItemPriority(line).Some? {
      var p := MisplacedItemPriority(line).value;
      var ps := ItemPriorities(line);
      assert p in ps[..|line| / 2];
      var i :| 0 <= i < |ps[..|line| / 2]| && ps[..|line| / 2][i] == p;
      assert p == Priority(line[i]);
    }
  }

  /** The part 1 score of each line, in order. */
  function MisplacedScores(lines: seq<string>): (s: seq<nat>)
    requires AllItems(lines)
    ensures |s| == |lines|
  {
    seq(|lines|, k requires 0 <= k < |lines| => MisplacedScore(lines[k]))
  }

  /** Dropping the first line drops the first line's score. */
  lemma MisplacedScoresOfTail(lines: seq<string>)
    requires AllItems(lines) && lines != []
    ensures AllItems(lines[1..])
    ensures MisplacedScores(lines)[1..] == MisplacedScores(lines[1..])
    ensures Sum(MisplacedScores(lines)) == MisplacedScore(lines[0]) + Sum(MisplacedScores(lines[1..]))
  {
    assert forall k :: 1 <= k < |lines| ==> lines[k] == lines[1..][k - 1];
    assert AllItems(lines[1..]);
  }

  /** Some line lacks a misplaced item exactly when the first or a later one does. */
  lemma MissingInTail(lines: seq<string>)
    requires AllItems(lines) && lines != []
    ensures AllItems(lines[1..])
    ensures (exists k :: 0 <= k < |lines| && MisplacedItemPriority(lines[k]).None?) <==>
      MisplacedItemPriority(lines[0]).None? || exists k :: 0 <= k < |lines[1..]| && MisplacedItemPriority(lines[1..][k]).None?
  {
    assert forall k :: 1 <= k < |lines| ==> lines[k] == lines[1..][k - 1];
  }

  /** Part 1: the sum over lines of the misplaced item's priority. */
  function Part1(lines: seq<string>): (r: Option<nat>)
    requires AllItems(lines)
    ensures r.None? <==> exists k :: 0 <= k < |lines| && MisplacedItemPriority(lines[k]).None?
    ensures r.Some? ==> r.value == Sum(MisplacedScores(lines))
    ensures r.Some? && (forall k :: 0 <= k < |lines| ==> Letters(lines[k])) ==> r.value <= 52 * |lines|
  {
    if lines == [] then Some(0)
    else
      MisplacedScoresOfTail(lines);
      MisplacedScoreBound(lines[0]);
      MissingInTail(lines);
      var rest := Part1(lines[1..]);
      assert (forall k :: 0 <= k < |lines| ==> Letters(lines[k])) ==> forall k :: 0 <= k < |lines[1..]| ==> Letters(lines[1..][k]);
      match MisplacedItemPriority(lines[0])
      case None => None
      case Some(p) =>
        if rest.None? then None
        else
          Some(p + rest.value)
  }

  /** Lines 3k, 3k+1 and 3k+2: the k-th group. */
  function Group(lines: seq<string>, k: nat): (g: seq<string>)
    requires 3 * k + 3 <= |lines|
    ensures |g| == 3 && forall i :: 0 <= i < 3 ==> g[i] == lines[3 * k + i]
  {
    lines[3 * k..3 * k + 3]
  }

  /** A group's part 2 score: its badge, 0 where there is none. */
  function BadgeScore(g: seq<string>): nat
    requires |g| == 3 && forall k :: 0 <= k < 3 ==> Items(g[k])
  {
    match BadgeForGroup(g)
    case None => 0
    case Some(b) => b
  }

  /** The part 2 score of each whole group of three lines, in order. */
  function GroupScores(lines: seq<string>): (s: seq<nat>)
    requires AllItems(lines)
    ensures |s| == |lines| / 3
  {
    seq(|lines| / 3, k requires 0 <= k < |lines| / 3 => BadgeScore(Group(lines, k)))
  }

  /** Dropping the first group drops the first group's score. */
  lemma GroupScoresOfTail(lines: seq<string>)
    requires AllItems(lines) && |lines| >= 3
    ensures AllItems(lines[3..])
    ensures GroupScores(lines)[1..] == GroupScores(lines[3..])
  {
    var tail := lines[3..];
    assert AllItems(tail);
    forall k | 0 <= k < |tail| / 3
      ensures GroupScores(lines)[1..][k] == GroupScores(tail)[k]
    {
      GroupOfTail(lines, k);
    }
  }

  /** Part 2: the sum of the badges of consecutive groups of three lines. */
  function Part2(lines: seq<string>): (r: Option<nat>)
    requires AllItems(lines)
    ensures |lines| % 3 != 0 ==> r.None?
    ensures r.Some? ==> r.value == Sum(GroupScores(lines))
  {
    if lines == [] then Some(0)
    else if |lines| < 3 then None
    else
      GroupScoresOfTail(lines);
      var rest := Part2(lines[3..]);
      match BadgeForGroup(Group(lines, 0))
      case None => None
      case Some(b) => if rest.None? then None else Some(b + rest.value)
  }

  lemma GroupOfTail(lines: seq<string>, k: nat)
    requires 3 * k + 6 <= |lines|
    ensures Group(lines, k + 1) == Group(lines[3..], k)
  {
    assert forall i :: 0 <= i < 3 ==> Group(lines, k + 1)[i] == Group(lines[3..], k)[i];
  }

  ghost predicate AllBadges(lines: seq<string>)
    requires AllItems(lines)
  {
    forall k :: 0 <= k < |lines| / 3 ==> BadgeForGroup(Group(lines, k)).Some?
  }

  /**
   * Part 2 has a value exactly when the lines split into whole groups and
   * every group has a badge; a short last group makes the program panic.
   */
  lemma Part2Defined(lines: seq<string>)
    requires AllItems(lines)
    ensures Part2(lines).Some? <==> |lines| % 3 == 0 && AllBadges(lines)
  {
    if Part2(lines).Some? {
      Part2HasBadges(lines);
    } else if |lines| % 3 == 0 && AllBadges(lines) {
      BadgesMakePart2(lines);
    }
  }

  lemma {:induction false} Part2HasBadges(lines: seq<string>)
    requires AllItems(lines) && Part2(lines).Some?
    ensures AllBadges(lines)
  {
    if |lines| >= 3 {
      var tail := lines[3..];
      assert AllItems(tail);
      Part2HasBadges(tail);
      forall k | 0 <= k < |lines| / 3 ensures BadgeForGroup(Group(lines, k)).Some? {
        if k > 0 {
          GroupOfTail(lines, k - 1);
        }
      }
    }
  }

  lemma {:induction false} BadgesMakePart2(lines: seq<string>)
    requires AllItems(lines) && |lines| % 3 == 0 && AllBadges(lines)
    ensures Part2(lines).Some?
  {
    if |lines| >= 3 {
      var tail := lines[3..];
      assert AllItems(tail);
      forall k | 0 <= k < |tail| / 3 ensures BadgeForGroup(Group(tail, k)).Some? {
        GroupOfTail(lines, k);
      }
      BadgesMakePart2(tail);
    }
  }
}
