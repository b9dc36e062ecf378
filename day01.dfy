// Calorie counting (src/day01.rs): the input lines hold one number each, an
// empty line closes an elf's group; part 1 is the largest group total, part 2
// the sum of the three largest.
module Day01 {
  import opened Common

  /** What one call of the group reader sees: no line left, an unparsable line, or a group. */
  datatype Batch = Exhausted | Panic | Group(total: int, used: nat)

  /**
   * Reads one group from the front of lines: an empty line ends it (and is
   * consumed), so does the end of the input; every other line must be a
   * 32-bit integer.
   */
  function SumGroup(lines: seq<string>): (b: Batch)
    ensures b.Exhausted? <==> lines == []
    ensures b.Group? ==> 1 <= b.used <= |lines|
  {
    if lines == [] then Exhausted
    else if lines[0] == "" then Group(0, 1)
    else
      match ParseI32(lines[0])
      case None => Panic
      case Some(v) =>
        match SumGroup(lines[1..])
        case Exhausted => Group(v, 1)
        case Panic => Panic
        case Group(s, u) => Group(v + s, u + 1)
  }

  /** The position of the first empty line, or the length when there is none. */
  function FirstBlank(lines: seq<string>): (k: nat)
    ensures k <= |lines|
    ensures forall i :: 0 <= i < k ==> lines[i] != ""
    ensures k < |lines| ==> lines[k] == ""
  {
    if lines == [] || lines[0] == "" then 0 else 1 + FirstBlank(lines[1..])
  }

  /** Every line read as a 32-bit integer; None when one is not. */
  function ParseAll(lines: seq<string>): (r: Option<seq<int>>)
    ensures r.Some? ==> |r.value| == |lines|
    ensures r.None? <==> exists i :: 0 <= i < |lines| && ParseI32(lines[i]).None?
  {
    if lines == [] then Some([])
    else
      var rest := ParseAll(lines[1..]);
      assert forall i :: 1 <= i < |lines| ==> lines[1..][i - 1] == lines[i];
      match ParseI32(lines[0])
      case None => None
      case Some(v) => if rest.None? then None else Some([v] + rest.value)
  }

  /**
   * A group is the lines up to the first empty one: their values' sum, with
   * the empty line itself consumed when there is one; a line in it that is
   * not a number is a panic.
   */
  lemma {:induction false} SumGroupSpec(lines: seq<string>)
    requires lines != []
    ensures var k := FirstBlank(lines);
      SumGroup(lines) ==
        match ParseAll(lines[..k])
        case None => Panic
        case Some(vs) => Group(Sum(vs), if k < |lines| then k + 1 else k)
  {
    var k := FirstBlank(lines);
    if lines[0] == "" {
      assert lines[..k] == [];
    } else {
      var tail := lines[1..];
      assert lines[..k][1..] == tail[..k - 1];
      match ParseI32(lines[0])
      case None =>
      case Some(v) =>
        if tail == [] {
          assert lines[..k] == [lines[0]];
          assert lines[..k][0] == lines[0];
          assert ParseAll(lines[..k][1..]) == Some([]);
          assert [v] + [] == [v];
          assert ParseAll(lines[..k]) == Some([v]);
          assert Sum([v]) == v;
        } else {
          SumGroupSpec(tail);
          assert FirstBlank(tail) == k - 1;
          var rest := ParseAll(tail[..k - 1]);
          if rest.Some? {
            assert ParseAll(lines[..k]) == Some([v] + rest.value);
          }
        }
    }
  }

  /** The group totals in input order, reading groups until the input is exhausted; None on a panic. */
  function Groups(lines: seq<string>): (r: Option<seq<int>>)
    decreases |lines|
    ensures r.Some? ==> |r.value| <= |lines|
  {
    match SumGroup(lines)
    case Exhausted => Some([])
    case Panic => None
    case Group(s, u) =>
      var rest := Groups(lines[u..]);
      if rest.None? then None else Some([s] + rest.value)
  }

  /** The largest element. */
  function Max(s: seq<int>): (m: int)
    requires s != []
    ensures m in s
    ensures forall x :: x in s ==> x <= m
  {
    if |s| == 1 then s[0]
    else
      var m := Max(s[1..]);
      assert forall x :: x in s ==> x == s[0] || x in s[1..];
      if s[0] >= m then s[0] else m
  }

  /** Part 1: the largest group total, 0 when there is no group; None on a panic. */
  function Part1(lines: seq<string>): (r: Option<int>)
    ensures r.Some? <==> Groups(lines).Some?
    ensures r.Some? && Groups(lines).value == [] ==> r.value == 0
    ensures r.Some? && Groups(lines).value != [] ==>
      r.value in Groups(lines).value && forall g :: g in Groups(lines).value ==> g <= r.value
  {
    match Groups(lines)
    case None => None
    case Some(gs) => Some(if gs == [] then 0 else Max(gs))
  }

  /** How many groups part 2 adds up: three, or all when there are fewer. */
  function TopCount(gs: seq<int>): nat
  {
    if |gs| < 3 then |gs| else 3
  }

  /** The sum of the TopCount largest totals. */
  function TopSum(gs: seq<int>): int
  {
    Sum(SortDesc(gs)[..TopCount(gs)])
  }

  /** Part 2: the sum of the three largest group totals (of all when fewer); None on a panic. */
  function Part2(lines: seq<string>): (r: Option<int>)
    ensures r.Some? <==> Groups(lines).Some?
  {
    match Groups(lines)
    case None => None
    case Some(gs) => Some(TopSum(gs))
  }

  /**
   * The sum part 2 reports is drawn from the totals, and no other choice of
   * as many totals adds up to more.
   */
  lemma TopSumIsBestChoice(gs: seq<int>, u: seq<int>)
    requires multiset(u) <= multiset(gs) && |u| == TopCount(gs)
    ensures multiset(SortDesc(gs)[..TopCount(gs)]) <= multiset(gs)
    ensures Sum(u) <= TopSum(gs)
  {
    TopSumIsLargest(gs, u);
    PrefixSubBag(SortDesc(gs), TopCount(gs));
  }

  lemma PrefixSubBag(t: seq<int>, k: nat)
    requires k <= |t|
    ensures multiset(t[..k]) <= multiset(t)
  {
    assert t == t[..k] + t[k..];
  }

  /** The first total part 2 adds is the one part 1 reports. */
  lemma MaxIsFirstOfSorted(gs: seq<int>)
    requires gs != []
    ensures Max(gs) == SortDesc(gs)[0]
  {
    var t := SortDesc(gs);
    var m := Max(gs);
    assert multiset(t) == multiset(gs);
    assert m in multiset(gs);
    HeadIsLargest(t, m);
    assert t[0] in multiset(t);
    assert t[0] in gs;
  }

  // ---------------------------------------------------------------------------
  // Writing groups out

  /** One line per value. */
  function Lines(vs: seq<int>): (r: seq<string>)
    ensures |r| == |vs|
  {
    if vs == [] then [] else [IntToString(vs[0])] + Lines(vs[1..])
  }

  /** Each elf's lines followed by an empty line. */
  function FormatElves(es: seq<seq<int>>): seq<string>
  {
    if es == [] then [] else Lines(es[0]) + [""] + FormatElves(es[1..])
  }

  /** Each elf's total. */
  function Totals(es: seq<seq<int>>): (r: seq<int>)
    ensures |r| == |es|
  {
    if es == [] then [] else [Sum(es[0])] + Totals(es[1..])
  }

  predicate InI32(es: seq<seq<int>>)
  {
    forall i, j :: 0 <= i < |es| && 0 <= j < |es[i]| ==> I32Min <= es[i][j] <= I32Max
  }

  lemma {:induction false} SumGroupOfLines(vs: seq<int>, rest: seq<string>)
    requires forall j :: 0 <= j < |vs| ==> I32Min <= vs[j] <= I32Max
    ensures SumGroup(Lines(vs) + [""] + rest) == Group(Sum(vs), |vs| + 1)
  {
    var ls := Lines(vs) + [""] + rest;
    if vs != [] {
      ParseI32OfIntToString(vs[0]);
      assert IntToString(vs[0]) != "";
      assert ls[1..] == Lines(vs[1..]) + [""] + rest;
      SumGroupOfLines(vs[1..], rest);
    }
  }

  /** Reading the written-out groups gives back each elf's total. */
  lemma {:induction false} GroupsOfFormat(es: seq<seq<int>>)
    requires InI32(es)
    ensures Groups(FormatElves(es)) == Some(Totals(es))
  {
    if es != [] {
      var ls := FormatElves(es);
      SumGroupOfLines(es[0], FormatElves(es[1..]));
      assert ls[|es[0]| + 1..] == FormatElves(es[1..]);
      assert InI32(es[1..]) by {
        forall i, j | 0 <= i < |es| - 1 && 0 <= j < |es[1..][i]| ensures I32Min <= es[1..][i][j] <= I32Max {
          assert es[1..][i] == es[i + 1];
        }
      }
      GroupsOfFormat(es[1..]);
    }
  }

  /** The published example: five elves. */
  const ExampleElves: seq<seq<int>> := [[1000, 2000, 3000], [4000], [5000, 6000], [7000, 8000, 9000], [10000]]

  lemma ExampleTotals()
    ensures Totals(ExampleElves) == [6000, 4000, 11000, 24000, 10000]
  {
    var e := ExampleElves;
    assert Sum([3000]) == 3000 && Sum([2000, 3000]) == 5000 && Sum(e[0]) == 6000;
    assert Sum([6000]) == 6000 && Sum(e[2]) == 11000;
    assert Sum([9000]) == 9000 && Sum([8000, 9000]) == 17000 && Sum(e[3]) == 24000;
    assert e[4..][1..] == [];
    assert e[3..][1..] == e[4..];
    assert e[2..][1..] == e[3..];
    assert e[1..][1..] == e[2..];
  }

  /** A descending rearrangement of s is the one SortDesc produces. */
  lemma SortDescUnique(s: seq<int>, t: seq<int>)
    requires SortedDesc(t) && multiset(t) == multiset(s)
    ensures SortDesc(s) == t
  {
    var r := SortDesc(s);
    SortedSubBagDominated(r, t);
    SortedSubBagDominated(t, r);
  }

  /** Part 2's sum read off any descending rearrangement of the totals. */
  lemma TopSumOfDescending(gs: seq<int>, t: seq<int>)
    requires SortedDesc(t) && multiset(t) == multiset(gs) && |t| == |gs|
    ensures TopSum(gs) == Sum(t[..TopCount(gs)])
  {
    SortDescUnique(gs, t);
  }

  /** The example's totals: 24000 is the largest. */
  lemma ExampleLargest(gs: seq<int>)
    requires |gs| == 5 && gs[0] == 6000 && gs[1] == 4000 && gs[2] == 11000 && gs[3] == 24000 && gs[4] == 10000
    ensures Max(gs) == 24000
  {
    var m := Max(gs);
    assert gs[3] in gs;
    var i :| 0 <= i < 5 && gs[i] == m;
  }

  /** The published example, written out, reads as its five totals (ExampleLargest: the largest is 24000). */
  lemma Example()
    ensures Groups(FormatElves(ExampleElves)) == Some([6000, 4000, 11000, 24000, 10000])
  {
    GroupsOfFormat(ExampleElves);
    ExampleTotals();
  }
}
