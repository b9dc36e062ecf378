// Camp cleanup (src/day04.rs): each line holds two section ranges "a-b,c-d";
// part 1 counts the pairs where one range contains the other, part 2 the
// pairs that overlap at all.
module Day04 {
  import opened Common

  /** A section range lo-hi, both ends included. */
  datatype Range = Range(lo: nat, hi: nat)

  datatype Pair = Pair(a: Range, b: Range)

  const U32Max: nat := 0xffff_ffff

  // ---------------------------------------------------------------------------
  // Reading "a-b,c-d"

  /** The text after a leading c, if s starts with c. */
  function Sep(s: string, c: char): (r: Option<string>)
    ensures r.Some? ==> s == [c] + r.value
  {
    if s != [] && s[0] == c then Some(s[1..]) else None
  }

  /** A number followed by the separator c; the rest after the separator. */
  function NumThen(s: string, c: char): Option<(nat, string)>
  {
    match ReadNat(s)
    case None => None
    case Some((n, rest)) =>
      match Sep(rest, c)
      case None => None
      case Some(after) => Some((n, after))
  }

  /**
   * The four numbers of the pattern "digits-digits,digits-digits" read at
   * the front of s; each run of digits is taken whole, as the greedy pattern
   * does (a shorter run would leave a digit where '-' or ',' must follow).
   */
  function Quad(s: string): Option<Pair>
  {
    match NumThen(s, '-')
    case None => None
    case Some((a1, r1)) =>
      match NumThen(r1, ',')
      case None => None
      case Some((a2, r2)) =>
        match NumThen(r2, '-')
        case None => None
        case Some((b1, r3)) =>
          match ReadNat(r3)
          case None => None
          case Some((b2, _)) => Some(Pair(Range(a1, a2), Range(b1, b2)))
  }

  predicate MatchesAt(s: string, k: nat)
  {
    k <= |s| && Quad(s[k..]).Some?
  }

  /** The leftmost position from k on where the pattern matches. */
  function FindFrom(s: string, k: nat): (r: Option<nat>)
    requires k <= |s|
    decreases |s| - k
    ensures r.Some? ==> k <= r.value && MatchesAt(s, r.value)
    ensures r.Some? ==> forall j :: k <= j < r.value ==> !MatchesAt(s, j)
    ensures r.None? ==> forall j :: k <= j <= |s| ==> !MatchesAt(s, j)
  {
    if MatchesAt(s, k) then Some(k)
    else if k == |s| then None
    else FindFrom(s, k + 1)
  }

  predicate FitsU32(p: Pair)
  {
    p.a.lo <= U32Max && p.a.hi <= U32Max && p.b.lo <= U32Max && p.b.hi <= U32Max
  }

  /**
   * The two ranges of a line: the leftmost match of the pattern, every
   * number a 32-bit unsigned value. None where the program panics (no match,
   * or a number out of range).
   */
  function ParseRanges(s: string): (r: Option<Pair>)
    ensures r.Some? ==> FitsU32(r.value)
    ensures r.Some? ==> exists k :: 0 <= k <= |s| && MatchesAt(s, k) && Quad(s[k..]) == r
  {
    match FindFrom(s, 0)
    case None => None
    case Some(k) => if FitsU32(Quad(s[k..]).value) then Quad(s[k..]) else None
  }

  /** No match anywhere in the line means no ranges. */
  lemma ParseRangesNone(s: string)
    requires forall k :: 0 <= k <= |s| ==> !MatchesAt(s, k)
    ensures ParseRanges(s).None?
  {
  }

  function FormatPair(p: Pair): string
  {
    NatToString(p.a.lo) + "-" + NatToString(p.a.hi) + "," + NatToString(p.b.lo) + "-" + NatToString(p.b.hi)
  }

  lemma NumThenOfFormat(n: nat, c: char, rest: string)
    requires !IsDigit(c)
    ensures NumThen(NatToString(n) + [c] + rest, c) == Some((n, rest))
  {
    assert NatToString(n) + [c] + rest == NatToString(n) + ([c] + rest);
    ReadNatOfNatToString(n, [c] + rest);
  }

  /** Writing a pair as "a-b,c-d" and reading it back gives it back. */
  lemma ParseOfFormat(p: Pair)
    requires FitsU32(p)
    ensures ParseRanges(FormatPair(p)) == Some(p)
  {
    var s4 := NatToString(p.b.hi);
    var s3 := NatToString(p.b.lo) + "-" + s4;
    var s2 := NatToString(p.a.hi) + "," + s3;
    var s := NatToString(p.a.lo) + "-" + s2;
    assert FormatPair(p) == s;
    NumThenOfFormat(p.a.lo, '-', s2);
    NumThenOfFormat(p.a.hi, ',', s3);
    NumThenOfFormat(p.b.lo, '-', s4);
    ReadNatOfNatToString(p.b.hi, []);
    assert s4 + [] == s4;
    assert s[0..] == s;
    assert MatchesAt(s, 0);
  }

  // ---------------------------------------------------------------------------
  // Containment and overlap

  /** One range lies within the other (the comparison the program makes). */
  predicate Contained(p: Pair)
  {
    (p.a.lo <= p.b.lo && p.a.hi >= p.b.hi) || (p.b.lo <= p.a.lo && p.b.hi >= p.a.hi)
  }

  /** One range starts inside the other (the comparison the program makes). */
  predicate Overlaps(p: Pair)
  {
    (p.a.lo <= p.b.lo && p.b.lo <= p.a.hi) || (p.b.lo <= p.a.lo && p.a.lo <= p.b.hi)
  }

  function Swap(p: Pair): Pair
  {
    Pair(p.b, p.a)
  }

  lemma ContainedSymmetric(p: Pair)
    ensures Contained(p) <==> Contained(Swap(p))
  {
  }

  lemma OverlapsSymmetric(p: Pair)
    ensures Overlaps(p) <==> Overlaps(Swap(p))
  {
  }

  predicate WellFormed(r: Range)
  {
    r.lo <= r.hi
  }

  /** The sections a range covers. */
  function Sections(r: Range): set<int>
    decreases r.hi + 1 - r.lo
  {
    if r.lo > r.hi then {} else {r.lo as int} + Sections(Range(r.lo + 1, r.hi))
  }

  lemma {:induction false} InSections(r: Range, x: int)
    ensures x in Sections(r) <==> r.lo <= x <= r.hi
    decreases r.hi + 1 - r.lo
  {
    if r.lo <= r.hi {
      InSections(Range(r.lo + 1, r.hi), x);
    }
  }

  /** For proper ranges, overlap is a1 <= b2 and b1 <= a2: the section sets intersect. */
  lemma OverlapsMeansShared(p: Pair)
    requires WellFormed(p.a) && WellFormed(p.b)
    ensures Overlaps(p) <==> p.a.lo <= p.b.hi && p.b.lo <= p.a.hi
    ensures Overlaps(p) <==> Sections(p.a) * Sections(p.b) != {}
  {
    if Overlaps(p) {
      var x := if p.a.lo <= p.b.lo then p.b.lo else p.a.lo;
      InSections(p.a, x);
      InSections(p.b, x);
      assert x in Sections(p.a) * Sections(p.b);
    }
    if !Overlaps(p) {
      forall x ensures x !in Sections(p.a) * Sections(p.b) {
        InSections(p.a, x);
        InSections(p.b, x);
      }
      assert Sections(p.a) * Sections(p.b) == {};
    }
  }

  /** For proper ranges, containment is inclusion of the section sets one way or the other. */
  lemma ContainedMeansSubset(p: Pair)
    requires WellFormed(p.a) && WellFormed(p.b)
    ensures Contained(p) <==> Sections(p.b) <= Sections(p.a) || Sections(p.a) <= Sections(p.b)
  {
    InSections(p.a, p.a.lo);
    InSections(p.a, p.a.hi);
    InSections(p.b, p.b.lo);
    InSections(p.b, p.b.hi);
    InSections(p.a, p.b.lo);
    InSections(p.a, p.b.hi);
    InSections(p.b, p.a.lo);
    InSections(p.b, p.a.hi);
    if Contained(p) {
      forall x | x in Sections(p.b) || x in Sections(p.a)
        ensures (p.a.lo <= p.b.lo && p.a.hi >= p.b.hi ==> (x in Sections(p.b) ==> x in Sections(p.a)))
        ensures (p.b.lo <= p.a.lo && p.b.hi >= p.a.hi ==> (x in Sections(p.a) ==> x in Sections(p.b)))
      {
        InSections(p.a, x);
        InSections(p.b, x);
      }
    }
  }

  /** For proper ranges, a range inside the other overlaps it. */
  lemma ContainedOverlaps(p: Pair)
    requires WellFormed(p.a) && WellFormed(p.b)
    ensures Contained(p) ==> Overlaps(p)
  {
  }

  // ---------------------------------------------------------------------------
  // Counting

  /** All the values, if every entry has one. */
  function Collect(os: seq<Option<Pair>>): (r: Option<seq<Pair>>)
    ensures r.None? <==> exists i :: 0 <= i < |os| && os[i].None?
    ensures r.Some? ==> |r.value| == |os| && forall i :: 0 <= i < |os| ==> os[i] == Some(r.value[i])
  {
    if os == [] then Some([])
    else
      var init := Collect(os[..|os| - 1]);
      var last := os[|os| - 1];
      assert forall i :: 0 <= i < |os| - 1 ==> os[i] == os[..|os| - 1][i];
      if init.None? || last.None? then None else Some(init.value + [last.value])
  }

  lemma CollectAll(os: seq<Option<Pair>>, ps: seq<Pair>)
    requires |os| == |ps| && forall i :: 0 <= i < |os| ==> os[i] == Some(ps[i])
    ensures Collect(os) == Some(ps)
  {
    var r := Collect(os);
    assert r.Some?;
    assert forall i :: 0 <= i < |os| ==> r.value[i] == ps[i];
  }

  /** Every line must parse (the program unwraps each one). */
  function ParseAll(lines: seq<string>): (r: Option<seq<Pair>>)
    ensures r.None? <==> exists i :: 0 <= i < |lines| && ParseRanges(lines[i]).None?
    ensures r.Some? ==> |r.value| == |lines| && forall i :: 0 <= i < |lines| ==> ParseRanges(lines[i]) == Some(r.value[i])
  {
    var os := seq(|lines|, i requires 0 <= i < |lines| => ParseRanges(lines[i]));
    assert forall i :: 0 <= i < |lines| ==> os[i] == ParseRanges(lines[i]);
    Collect(os)
  }

  /** The number of pairs passing the test: containment, or overlap. */
  function CountOf(ps: seq<Pair>, overlap: bool): (n: nat)
    ensures n <= |ps|
  {
    if ps == [] then 0
    else CountOf(ps[..|ps| - 1], overlap) + (if Passes(ps[|ps| - 1], overlap) then 1 else 0)
  }

  predicate Passes(p: Pair, overlap: bool)
  {
    if overlap then Overlaps(p) else Contained(p)
  }

  /** The count is the number of positions whose pair passes. */
  lemma {:induction false} CountOfCounts(ps: seq<Pair>, overlap: bool)
    ensures CountOf(ps, overlap) == |set i | 0 <= i < |ps| && Passes(ps[i], overlap)|
  {
    if ps != [] {
      var last := |ps| - 1;
      CountOfCounts(ps[..last], overlap);
      var before := set i | 0 <= i < last && Passes(ps[..last][i], overlap);
      var after := set i | 0 <= i < |ps| && Passes(ps[i], overlap);
      if Passes(ps[last], overlap) {
        assert after == before + {last};
      } else {
        assert after == before;
      }
    }
  }

  /** Part 1: how many pairs have one range inside the other. */
  function Part1(lines: seq<string>): Option<nat>
  {
    match ParseAll(lines)
    case None => None
    case Some(ps) => Some(CountOf(ps, false))
  }

  /** Part 2: how many pairs overlap. */
  function Part2(lines: seq<string>): Option<nat>
  {
    match ParseAll(lines)
    case None => None
    case Some(ps) => Some(CountOf(ps, true))
  }

  /** On proper ranges every contained pair overlaps, so part 1 never exceeds part 2. */
  lemma {:induction false} ContainedAtMostOverlapping(ps: seq<Pair>)
    requires forall i :: 0 <= i < |ps| ==> WellFormed(ps[i].a) && WellFormed(ps[i].b)
    ensures CountOf(ps, false) <= CountOf(ps, true)
  {
    if ps != [] {
      ContainedAtMostOverlapping(ps[..|ps| - 1]);
      ContainedOverlaps(ps[|ps| - 1]);
    }
  }

  lemma Part1AtMostPart2(lines: seq<string>)
    requires forall p :: ParseAll(lines).Some? && p in ParseAll(lines).value ==> WellFormed(p.a) && WellFormed(p.b)
    ensures Part1(lines).Some? <==> Part2(lines).Some?
    ensures Part1(lines).Some? ==> Part1(lines).value <= Part2(lines).value
  {
    if ParseAll(lines).Some? {
      ContainedAtMostOverlapping(ParseAll(lines).value);
    }
  }

  const ExamplePairs: seq<Pair> := [
    Pair(Range(2, 4), Range(6, 8)), Pair(Range(2, 3), Range(4, 5)), Pair(Range(5, 7), Range(7, 9)),
    Pair(Range(2, 8), Range(3, 7)), Pair(Range(6, 6), Range(4, 6)), Pair(Range(2, 6), Range(4, 8))]

  /** Reading the lines that spell out the pairs gives the pairs back. */
  lemma {:induction false} ParseAllFormatted(ps: seq<Pair>)
    requires forall i :: 0 <= i < |ps| ==> FitsU32(ps[i])
    ensures ParseAll(seq(|ps|, i requires 0 <= i < |ps| => FormatPair(ps[i]))) == Some(ps)
  {
    var lines := seq(|ps|, i requires 0 <= i < |ps| => FormatPair(ps[i]));
    var os := seq(|lines|, i requires 0 <= i < |lines| => ParseRanges(lines[i]));
    forall i | 0 <= i < |ps| ensures os[i] == Some(ps[i]) {
      ParseOfFormat(ps[i]);
    }
    CollectAll(os, ps);
  }

  lemma ExampleCounts()
    ensures CountOf(ExamplePairs, false) == 2 && CountOf(ExamplePairs, true) == 4
  {
    var ps := ExamplePairs;
    assert CountOf(ps[..0], false) == 0 && CountOf(ps[..0], true) == 0;
    assert ps[..1][..0] == ps[..0];
    assert CountOf(ps[..1], false) == 0 && CountOf(ps[..1], true) == 0;
    assert ps[..2][..1] == ps[..1];
    assert CountOf(ps[..2], false) == 0 && CountOf(ps[..2], true) == 0;
    assert ps[..3][..2] == ps[..2];
    assert CountOf(ps[..3], false) == 0 && CountOf(ps[..3], true) == 1;
    assert ps[..4][..3] == ps[..3];
    assert CountOf(ps[..4], false) == 1 && CountOf(ps[..4], true) == 2;
    assert ps[..5][..4] == ps[..4];
    assert CountOf(ps[..5], false) == 2 && CountOf(ps[..5], true) == 3;
    assert ps[..6][..5] == ps[..5];
    assert CountOf(ps[..6], false) == 2 && CountOf(ps[..6], true) == 4;
    assert ps[..6] == ps;
  }

  /** The published example: 2 pairs with containment, 4 with overlap. */
  lemma Example()
    ensures var lines := seq(6, i requires 0 <= i < 6 => FormatPair(ExamplePairs[i]));
      Part1(lines) == Some(2) && Part2(lines) == Some(4)
  {
    ParseAllFormatted(ExamplePairs);
    ExampleCounts();
  }
}
