// Distress-signal packets (src/day13.rs): nested lists of integers, their
// recursive ordering, the textual grammar they are read from, and the two
// answers built on the ordering.
module Day13 {
  import opened Common

  datatype Item = Num(n: int) | List(items: seq<Item>)

  datatype Ordering = Less | Equal | Greater

  function Reverse(o: Ordering): Ordering
  {
    match o
    case Less => Greater
    case Equal => Equal
    case Greater => Less
  }

  function CmpInt(a: int, b: int): Ordering
  {
    if a < b then Less else if a == b then Equal else Greater
  }

  // ---------------------------------------------------------------------------
  // Ordering

  function Size(a: Item): nat
  {
    match a
    case Num(_) => 1
    case List(xs) => 1 + SizeSeq(xs)
  }

  function SizeSeq(xs: seq<Item>): nat
  {
    if xs == [] then 0 else Size(xs[0]) + SizeSeq(xs[1..])
  }

  /**
   * Packet order: numbers compare as integers, lists lexicographically, and a
   * number met by a list is promoted to the one-element list holding it.
   */
  function Cmp(a: Item, b: Item): Ordering
    decreases Size(a) + Size(b), 0
  {
    match (a, b)
    case (Num(x), Num(y)) => CmpInt(x, y)
    case (List(xs), List(ys)) => CmpList(xs, ys)
    case (Num(x), List(ys)) =>
      assert SizeSeq([Num(x)]) == 1 by { assert [Num(x)][1..] == []; }
      CmpList([Num(x)], ys)
    case (List(xs), Num(y)) =>
      assert SizeSeq([Num(y)]) == 1 by { assert [Num(y)][1..] == []; }
      CmpList(xs, [Num(y)])
  }

  /** Lexicographic order of item sequences: the first unequal pair decides, else the shorter is less. */
  function CmpList(xs: seq<Item>, ys: seq<Item>): Ordering
    decreases SizeSeq(xs) + SizeSeq(ys), 1
  {
    if xs == [] && ys == [] then Equal
    else if xs == [] then Less
    else if ys == [] then Greater
    else
      var head := Cmp(xs[0], ys[0]);
      if head != Equal then head else CmpList(xs[1..], ys[1..])
  }

  /** Every packet is equal to itself. */
  lemma {:induction false} CmpReflexive(a: Item)
    ensures Cmp(a, a) == Equal
    decreases Size(a), 0
  {
    if a.List? {
      CmpListReflexive(a.items);
    }
  }

  lemma {:induction false} CmpListReflexive(xs: seq<Item>)
    ensures CmpList(xs, xs) == Equal
    decreases SizeSeq(xs), 1
  {
    if xs != [] {
      CmpReflexive(xs[0]);
      CmpListReflexive(xs[1..]);
    }
  }

  /** Swapping the operands reverses the answer. */
  lemma {:induction false} CmpAntisymmetric(a: Item, b: Item)
    ensures Cmp(b, a) == Reverse(Cmp(a, b))
    decreases Size(a) + Size(b), 0
  {
    match (a, b)
    case (Num(x), Num(y)) =>
    case (List(xs), List(ys)) => CmpListAntisymmetric(xs, ys);
    case (Num(x), List(ys)) =>
      assert SizeSeq([Num(x)]) == 1 by { assert [Num(x)][1..] == []; }
      CmpListAntisymmetric([Num(x)], ys);
    case (List(xs), Num(y)) =>
      assert SizeSeq([Num(y)]) == 1 by { assert [Num(y)][1..] == []; }
      CmpListAntisymmetric(xs, [Num(y)]);
  }

  lemma {:induction false} CmpListAntisymmetric(xs: seq<Item>, ys: seq<Item>)
    ensures CmpList(ys, xs) == Reverse(CmpList(xs, ys))
    decreases SizeSeq(xs) + SizeSeq(ys), 1
  {
    if xs != [] && ys != [] {
      CmpAntisymmetric(xs[0], ys[0]);
      CmpListAntisymmetric(xs[1..], ys[1..]);
    }
  }

  /** An item as the sequence it is compared as: a number is promoted to the one-element list holding it. */
  function AsList(a: Item): (xs: seq<Item>)
    ensures a.Num? ==> SizeSeq(xs) == Size(a)
    ensures a.List? ==> SizeSeq(xs) < Size(a)
  {
    match a
    case Num(_) => assert [a][1..] == []; [a]
    case List(xs) => xs
  }

  /** Every comparison is the comparison of the promoted sequences. */
  lemma CmpAsList(a: Item, b: Item)
    ensures Cmp(a, b) == CmpList(AsList(a), AsList(b))
  {
    if a.Num? && b.Num? {
      assert [a][1..] == [] && [b][1..] == [];
    }
  }

  /**
   * What transitivity of a total preorder says about a chain a, b, c, given
   * the three comparisons ab, bc and ac.
   */
  predicate TransitiveAt(ab: Ordering, bc: Ordering, ac: Ordering)
  {
    (ab != Greater && bc != Greater ==> ac != Greater) &&
    (ab == Equal && bc == Equal ==> ac == Equal) &&
    (ab == Less && bc != Greater ==> ac == Less) &&
    (ab != Greater && bc == Less ==> ac == Less)
  }

  /** Packet order is transitive, so it is a total preorder. */
  lemma {:induction false} CmpTransitive(a: Item, b: Item, c: Item)
    ensures TransitiveAt(Cmp(a, b), Cmp(b, c), Cmp(a, c))
    decreases Size(a) + Size(b) + Size(c), 0
  {
    if !(a.Num? && b.Num? && c.Num?) {
      CmpAsList(a, b);
      CmpAsList(b, c);
      CmpAsList(a, c);
      CmpListTransitive(AsList(a), AsList(b), AsList(c));
    }
  }

  lemma {:induction false} CmpListTransitive(xs: seq<Item>, ys: seq<Item>, zs: seq<Item>)
    ensures TransitiveAt(CmpList(xs, ys), CmpList(ys, zs), CmpList(xs, zs))
    decreases SizeSeq(xs) + SizeSeq(ys) + SizeSeq(zs), 1
  {
    if xs != [] && ys != [] && zs != [] {
      CmpTransitive(xs[0], ys[0], zs[0]);
      CmpListTransitive(xs[1..], ys[1..], zs[1..]);
    }
  }

  /** The comparisons spelled out by the source's tests. */
  lemma CmpExamples()
    ensures Cmp(Num(1), Num(1)) == Equal
    ensures Cmp(List([Num(1)]), List([Num(1)])) == Equal
    ensures Cmp(List([List([Num(1)])]), Num(1)) == Equal
    ensures Cmp(List([List([])]), Num(1)) == Less
    ensures Cmp(List([List([Num(0)])]), Num(1)) == Less
    ensures Cmp(Num(0), Num(1)) == Less
    ensures Cmp(Num(2), Num(1)) == Greater
    ensures Cmp(Num(1), List([List([])])) == Greater
  {
    assert [List([Num(1)])][1..] == [] && [Num(1)][1..] == [];
    assert [List([])][1..] == [];
    assert [List([Num(0)])][1..] == [];
  }

  // ---------------------------------------------------------------------------
  // Grammar: item = digits | '[' [ item { ',' item } ] ']'

  const MaxI32: int := 0x7fff_ffff

  /**
   * One item at the front of s, with the rest of s. A number that does not fit
   * an i32 makes the number branch fail, and then the list branch fails too.
   */
  function ParseItem(s: string): (r: Option<(Item, string)>)
    ensures r.Some? ==> |r.value.1| < |s|
    decreases |s|, 0
  {
    if s != [] && IsDigit(s[0]) then
      match ReadNat(s)
      case Some((v, rest)) => if v <= MaxI32 then Some((Num(v), rest)) else None
      case None => None
    else if s != [] && s[0] == '[' then
      var (elems, rest) := ParseElements(s[1..]);
      if rest != [] && rest[0] == ']' then Some((List(elems), rest[1..])) else None
    else None
  }

  /**
   * A possibly empty comma-separated run of items. It never fails: when no
   * item follows a comma, the comma is left unread (and the enclosing list
   * then fails on it, since it expects ']').
   */
  function ParseElements(s: string): (r: (seq<Item>, string))
    ensures |r.1| <= |s|
    decreases |s|, 1
  {
    match ParseItem(s)
    case None => ([], s)
    case Some((x, rest)) => ParseMoreElements(rest, [x])
  }

  function ParseMoreElements(s: string, acc: seq<Item>): (r: (seq<Item>, string))
    ensures |r.1| <= |s|
    decreases |s|, 2
  {
    if s != [] && s[0] == ',' then
      match ParseItem(s[1..])
      case None => (acc, s)
      case Some((y, rest)) => ParseMoreElements(rest, acc + [y])
    else (acc, s)
  }

  /** Items the grammar can produce: numbers are i32 values that are not negative. */
  predicate Readable(a: Item)
    decreases Size(a), 0
  {
    match a
    case Num(x) => 0 <= x <= MaxI32
    case List(xs) => ReadableSeq(xs)
  }

  predicate ReadableSeq(xs: seq<Item>)
    decreases SizeSeq(xs), 1
  {
    xs == [] || (Readable(xs[0]) && ReadableSeq(xs[1..]))
  }

  /** The canonical text of an item: decimal numbers, and lists with commas only between elements. */
  function Format(a: Item): string
    requires Readable(a)
    decreases Size(a), 0
  {
    match a
    case Num(x) => NatToString(x)
    case List(xs) => "[" + FormatElements(xs) + "]"
  }

  function FormatElements(xs: seq<Item>): string
    requires ReadableSeq(xs)
    decreases SizeSeq(xs), 1
  {
    if xs == [] then "" else Format(xs[0]) + FormatMore(xs[1..])
  }

  /** Each element preceded by a comma. */
  function FormatMore(xs: seq<Item>): string
    requires ReadableSeq(xs)
    decreases SizeSeq(xs), 2
  {
    if xs == [] then "" else "," + Format(xs[0]) + FormatMore(xs[1..])
  }

  /** What may follow a formatted item inside a list: a comma or the closing bracket. */
  lemma FormatMoreStart(xs: seq<Item>, rest: string)
    requires ReadableSeq(xs)
    requires rest != [] && rest[0] == ']'
    ensures FormatMore(xs) + rest != []
    ensures (FormatMore(xs) + rest)[0] == ',' || (FormatMore(xs) + rest)[0] == ']'
  {
  }

  /** Parsing reads back exactly a formatted item when it is followed by ',', ']' or nothing. */
  lemma {:induction false} ParseFormat(a: Item, rest: string)
    requires Readable(a)
    requires rest == [] || rest[0] == ',' || rest[0] == ']'
    ensures ParseItem(Format(a) + rest) == Some((a, rest))
    decreases Size(a), 0
  {
    match a
    case Num(x) =>
      ReadNatOfNatToString(x, rest);
    case List(xs) =>
      var s := Format(a) + rest;
      assert s[1..] == FormatElements(xs) + ("]" + rest);
      ParseFormatElements(xs, "]" + rest);
  }

  lemma {:induction false} ParseFormatElements(xs: seq<Item>, rest: string)
    requires ReadableSeq(xs)
    requires rest != [] && rest[0] == ']'
    ensures ParseElements(FormatElements(xs) + rest) == (xs, rest)
    decreases SizeSeq(xs), 1
  {
    if xs == [] {
      assert FormatElements(xs) + rest == rest;
    } else {
      var tail := FormatMore(xs[1..]) + rest;
      assert FormatElements(xs) + rest == Format(xs[0]) + tail;
      FormatMoreStart(xs[1..], rest);
      ParseFormat(xs[0], tail);
      ParseFormatMore(xs[1..], [xs[0]], rest);
      assert [xs[0]] + xs[1..] == xs;
    }
  }

  lemma {:induction false} ParseFormatMore(xs: seq<Item>, acc: seq<Item>, rest: string)
    requires ReadableSeq(xs)
    requires rest != [] && rest[0] == ']'
    ensures ParseMoreElements(FormatMore(xs) + rest, acc) == (acc + xs, rest)
    decreases SizeSeq(xs), 2
  {
    if xs == [] {
      assert acc + xs == acc;
      assert FormatMore(xs) + rest == rest;
    } else {
      var tail := FormatMore(xs[1..]) + rest;
      assert FormatMore(xs) + rest == "," + Format(xs[0]) + tail;
      FormatMoreStart(xs[1..], rest);
      ParseMoreStep(xs[0], tail, acc);
      ParseFormatMore(xs[1..], acc + [xs[0]], rest);
      AppendHead(acc, xs);
    }
  }

  /** One comma-prefixed element is read and appended. */
  lemma ParseMoreStep(y: Item, tail: string, acc: seq<Item>)
    requires Readable(y)
    requires tail != [] && (tail[0] == ',' || tail[0] == ']')
    ensures ParseMoreElements("," + Format(y) + tail, acc) == ParseMoreElements(tail, acc + [y])
    decreases Size(y), 1
  {
    var s := "," + Format(y) + tail;
    assert s[0] == ',' && s[1..] == Format(y) + tail;
    ParseFormat(y, tail);
  }

  lemma AppendHead(acc: seq<Item>, xs: seq<Item>)
    requires xs != []
    ensures acc + [xs[0]] + xs[1..] == acc + xs
  {
    assert xs == [xs[0]] + xs[1..];
  }

  /** A trailing comma is not part of the grammar. */
  lemma TrailingCommaRejected()
    ensures ParseItem("[1,]") == None
  {
    assert ReadNat("1,]") == Some((1, ",]")) by {
      ReadNatOfNatToString(1, ",]");
      assert NatToString(1) + ",]" == "1,]";
    }
    assert ParseItem("]") == None;
    assert ParseMoreElements(",]", [Num(1)]) == ([Num(1)], ",]");
  }

  // ---------------------------------------------------------------------------
  // Answers

  /** Sum of the 1-based positions of the pairs that are in the right order, counting from index start. */
  function InOrderIndexSum(pairs: seq<(Item, Item)>, start: nat): nat
  {
    if pairs == [] then 0
    else (if Cmp(pairs[0].0, pairs[0].1) != Greater then start + 1 else 0) + InOrderIndexSum(pairs[1..], start + 1)
  }

  function Part1(pairs: seq<(Item, Item)>): nat
  {
    InOrderIndexSum(pairs, 0)
  }

  function Swapped(pairs: seq<(Item, Item)>): (r: seq<(Item, Item)>)
    ensures |r| == |pairs| && forall i :: 0 <= i < |r| ==> r[i] == (pairs[i].1, pairs[i].0)
  {
    if pairs == [] then [] else [(pairs[0].1, pairs[0].0)] + Swapped(pairs[1..])
  }

  function IndexSum(n: nat, start: nat): nat
  {
    if n == 0 then 0 else start + 1 + IndexSum(n - 1, start + 1)
  }

  /**
   * When no pair compares Equal, each pair is counted in exactly one of the two
   * orientations, so the two answers add up to 1 + 2 + ... + n.
   */
  lemma {:induction false} Part1OfSwapped(pairs: seq<(Item, Item)>, start: nat)
    requires forall i :: 0 <= i < |pairs| ==> Cmp(pairs[i].0, pairs[i].1) != Equal
    ensures InOrderIndexSum(pairs, start) + InOrderIndexSum(Swapped(pairs), start) == IndexSum(|pairs|, start)
  {
    if pairs != [] {
      CmpAntisymmetric(pairs[0].0, pairs[0].1);
      assert Swapped(pairs)[1..] == Swapped(pairs[1..]);
      Part1OfSwapped(pairs[1..], start + 1);
    }
  }

  ghost predicate AdjacentOrdered(s: seq<Item>)
  {
    forall i :: 0 <= i < |s| - 1 ==> Cmp(s[i], s[i + 1]) != Greater
  }

  /** Position of the first element greater than x: x goes there, after every element not greater than it. */
  function InsertionPoint(x: Item, s: seq<Item>): (j: nat)
    ensures j <= |s|
    ensures forall i :: 0 <= i < j ==> Cmp(s[i], x) != Greater
    ensures j < |s| ==> Cmp(s[j], x) == Greater
  {
    if s == [] || Cmp(s[0], x) == Greater then 0 else 1 + InsertionPoint(x, s[1..])
  }

  /** Stable insertion: x lands after the elements that are not greater than it. */
  function Insert(x: Item, s: seq<Item>): (r: seq<Item>)
    requires AdjacentOrdered(s)
    ensures AdjacentOrdered(r)
    ensures multiset(r) == multiset(s) + multiset{x}
  {
    var j := InsertionPoint(x, s);
    assert s == s[..j] + s[j..];
    InsertKeepsOrder(x, s, j);
    s[..j] + [x] + s[j..]
  }

  lemma InsertKeepsOrder(x: Item, s: seq<Item>, j: nat)
    requires AdjacentOrdered(s)
    requires j == InsertionPoint(x, s)
    ensures AdjacentOrdered(s[..j] + [x] + s[j..])
  {
    var r := s[..j] + [x] + s[j..];
    if j < |s| {
      CmpAntisymmetric(s[j], x);
    }
    forall i | 0 <= i < |r| - 1 ensures Cmp(r[i], r[i + 1]) != Greater {
      if i < j - 1 {
        assert r[i] == s[i] && r[i + 1] == s[i + 1];
      } else if i > j {
        assert r[i] == s[i - 1] && r[i + 1] == s[i];
      }
    }
  }

  /** Every pair, not only neighbours, is in order. */
  ghost predicate Ordered(s: seq<Item>)
  {
    forall i, j :: 0 <= i < j < |s| ==> Cmp(s[i], s[j]) != Greater
  }

  /** By transitivity, ordered neighbours make an ordered sequence. */
  lemma {:induction false} AdjacentOrderedIsOrdered(s: seq<Item>)
    requires AdjacentOrdered(s)
    ensures Ordered(s)
  {
    if |s| > 1 {
      var t := s[1..];
      assert AdjacentOrdered(t) by {
        forall i | 0 <= i < |t| - 1 ensures Cmp(t[i], t[i + 1]) != Greater {
          assert t[i] == s[i + 1] && t[i + 1] == s[i + 2];
        }
      }
      AdjacentOrderedIsOrdered(t);
      forall i, j | 0 <= i < j < |s| ensures Cmp(s[i], s[j]) != Greater {
        if i > 0 {
          assert s[i] == t[i - 1] && s[j] == t[j - 1];
        } else if j > 1 {
          assert s[1] == t[0] && s[j] == t[j - 1];
          CmpTransitive(s[0], s[1], s[j]);
        }
      }
    }
  }

  /** The sort of part 2, as a stable insertion sort of the whole sequence. */
  function Sort(s: seq<Item>): (r: seq<Item>)
    ensures AdjacentOrdered(r)
    ensures Ordered(r)
    ensures multiset(r) == multiset(s)
  {
    if s == [] then []
    else
      assert s == s[..|s| - 1] + [s[|s| - 1]];
      var r := Insert(s[|s| - 1], Sort(s[..|s| - 1]));
      AdjacentOrderedIsOrdered(r);
      r
  }

  /** The elements of s that compare Equal to x, in their order in s. */
  ghost function EqualTo(s: seq<Item>, x: Item): seq<Item>
  {
    if s == [] then []
    else EqualTo(s[..|s| - 1], x) + (if Cmp(s[|s| - 1], x) == Equal then [s[|s| - 1]] else [])
  }

  lemma {:induction false} EqualToAppend(a: seq<Item>, b: seq<Item>, x: Item)
    ensures EqualTo(a + b, x) == EqualTo(a, x) + EqualTo(b, x)
    decreases |b|
  {
    if b == [] {
      assert a + b == a;
    } else {
      var b' := b[..|b| - 1];
      assert (a + b)[..|a + b| - 1] == a + b';
      EqualToAppend(a, b', x);
    }
  }

  /**
   * Putting y between v and u, where nothing in u is equal to x when y is,
   * adds y at the end of the elements equal to x when it is one of them.
   */
  lemma EqualToAround(v: seq<Item>, y: Item, u: seq<Item>, x: Item)
    requires Cmp(y, x) == Equal ==> EqualTo(u, x) == []
    ensures EqualTo((v + [y]) + u, x) == EqualTo(v + u, x) + (if Cmp(y, x) == Equal then [y] else [])
  {
    EqualToAppend(v + [y], u, x);
    EqualToAppend(v, u, x);
    assert (v + [y])[..|v + [y]| - 1] == v;
    var ev, eu := EqualTo(v, x), EqualTo(u, x);
    var ey := if Cmp(y, x) == Equal then [y] else [];
    assert EqualTo((v + [y]) + u, x) == ev + ey + eu;
    assert EqualTo(v + u, x) == ev + eu;
    if Cmp(y, x) == Equal {
      assert ev + ey + eu == ev + eu + ey;
    } else {
      assert ev + ey + eu == ev + eu + ey;
    }
  }

  lemma {:induction false} NoneEqual(u: seq<Item>, x: Item)
    requires forall k :: 0 <= k < |u| ==> Cmp(u[k], x) != Equal
    ensures EqualTo(u, x) == []
  {
    if u != [] {
      NoneEqual(u[..|u| - 1], x);
    }
  }

  /** Past the insertion point of y, nothing compares Equal to an x that y is equal to. */
  lemma PastInsertionPointNotEqual(y: Item, t: seq<Item>, x: Item, k: nat)
    requires AdjacentOrdered(t)
    requires Cmp(y, x) == Equal
    requires InsertionPoint(y, t) <= k < |t|
    ensures Cmp(t[k], x) != Equal
  {
    var j := InsertionPoint(y, t);
    AdjacentOrderedIsOrdered(t);
    CmpAntisymmetric(t[j], y);
    CmpReflexive(t[j]);
    CmpTransitive(y, t[j], t[k]);
    CmpTransitive(y, x, t[k]);
    CmpAntisymmetric(x, t[k]);
  }

  lemma NoneEqualPastInsertionPoint(y: Item, t: seq<Item>, x: Item)
    requires AdjacentOrdered(t)
    requires Cmp(y, x) == Equal
    ensures EqualTo(t[InsertionPoint(y, t)..], x) == []
  {
    var j := InsertionPoint(y, t);
    var u := t[j..];
    forall k | 0 <= k < |u| ensures Cmp(u[k], x) != Equal {
      PastInsertionPointNotEqual(y, t, x, j + k);
    }
    NoneEqual(u, x);
  }

  lemma InsertSplits(y: Item, t: seq<Item>)
    requires AdjacentOrdered(t)
    ensures var j := InsertionPoint(y, t); Insert(y, t) == (t[..j] + [y]) + t[j..] && t == t[..j] + t[j..]
  {
  }

  /**
   * Inserting y keeps the elements equal to x in order, and puts y after
   * them when y itself is equal to x.
   */
  lemma InsertStable(y: Item, t: seq<Item>, x: Item)
    requires AdjacentOrdered(t)
    ensures EqualTo(Insert(y, t), x) == EqualTo(t, x) + (if Cmp(y, x) == Equal then [y] else [])
  {
    var j := InsertionPoint(y, t);
    InsertSplits(y, t);
    if Cmp(y, x) == Equal {
      NoneEqualPastInsertionPoint(y, t, x);
    }
    EqualToAround(t[..j], y, t[j..], x);
  }

  /** The sort is stable: the packets equal to any x keep their input order. */
  lemma {:induction false} SortStable(s: seq<Item>, x: Item)
    ensures EqualTo(Sort(s), x) == EqualTo(s, x)
  {
    if s != [] {
      var p := s[..|s| - 1];
      SortStable(p, x);
      InsertStable(s[|s| - 1], Sort(p), x);
    }
  }

  const Divider1: Item := List([List([Num(2)])])
  const Divider2: Item := List([List([Num(6)])])

  function Flatten(pairs: seq<(Item, Item)>): (r: seq<Item>)
    ensures |r| == 2 * |pairs|
    ensures forall i :: 0 <= i < |pairs| ==> r[2 * i] == pairs[i].0 && r[2 * i + 1] == pairs[i].1
  {
    if pairs == [] then [] else [pairs[0].0, pairs[0].1] + Flatten(pairs[1..])
  }

  predicate IsDivider(a: Item)
  {
    a == Divider1 || a == Divider2
  }

  /** 1-based positions (counted from start + 1) of the elements structurally equal to a divider. */
  function DividerPositions(s: seq<Item>, start: nat): (r: seq<int>)
    ensures forall k :: 0 <= k < |r| ==> r[k] > start + k
  {
    if s == [] then []
    else (if IsDivider(s[0]) then [start + 1] else []) + DividerPositions(s[1..], start + 1)
  }

  /** Every entry of DividerPositions is the 1-based position of a divider. */
  lemma {:induction false} DividerPositionsAreDividers(s: seq<Item>, start: nat)
    ensures forall k :: 0 <= k < |DividerPositions(s, start)| ==>
      start < DividerPositions(s, start)[k] <= start + |s| && IsDivider(s[DividerPositions(s, start)[k] - start - 1])
  {
    if s != [] {
      var t := s[1..];
      var rest := DividerPositions(t, start + 1);
      var head: seq<int> := if IsDivider(s[0]) then [start + 1] else [];
      var r := head + rest;
      assert DividerPositions(s, start) == r;
      DividerPositionsAreDividers(t, start + 1);
      forall k | 0 <= k < |r| ensures start < r[k] <= start + |s| && IsDivider(s[r[k] - start - 1]) {
        if k >= |head| {
          var m := k - |head|;
          assert 0 <= m < |rest| && r[k] == rest[m];
          assert t[rest[m] - (start + 1) - 1] == s[r[k] - start - 1];
        }
      }
    }
  }

  /** The 1-based position of every divider is an entry of DividerPositions. */
  lemma {:induction false} DividersArePositions(s: seq<Item>, start: nat)
    ensures forall i :: 0 <= i < |s| && IsDivider(s[i]) ==> start + i + 1 in DividerPositions(s, start)
  {
    if s != [] {
      var t := s[1..];
      var rest := DividerPositions(t, start + 1);
      var head: seq<int> := if IsDivider(s[0]) then [start + 1] else [];
      assert DividerPositions(s, start) == head + rest;
      DividersArePositions(t, start + 1);
      forall i | 0 <= i < |s| && IsDivider(s[i]) ensures start + i + 1 in head + rest {
        if i > 0 {
          assert t[i - 1] == s[i];
          assert start + 1 + (i - 1) + 1 in rest;
        }
      }
    }
  }

  /** The entries of DividerPositions increase strictly. */
  lemma {:induction false} DividerPositionsIncrease(s: seq<Item>, start: nat)
    ensures forall k, l :: 0 <= k < l < |DividerPositions(s, start)| ==>
      DividerPositions(s, start)[k] < DividerPositions(s, start)[l]
  {
    if s != [] {
      var t := s[1..];
      var rest := DividerPositions(t, start + 1);
      var head: seq<int> := if IsDivider(s[0]) then [start + 1] else [];
      var r := head + rest;
      assert DividerPositions(s, start) == r;
      DividerPositionsIncrease(t, start + 1);
      forall k, l | 0 <= k < l < |r| ensures r[k] < r[l] {
        var l' := l - |head|;
        assert 0 <= l' < |rest| && r[l] == rest[l'];
        if k >= |head| {
          var k' := k - |head|;
          assert k' < l' && r[k] == rest[k'];
        } else {
          assert r[k] == start + 1;
          assert start + 1 < rest[l'];
        }
      }
    }
  }

  function Part2(pairs: seq<(Item, Item)>): int
  {
    Product(DividerPositions(Sort(Flatten(pairs) + [Divider1, Divider2]), 0))
  }

  lemma {:induction false} DividerPositionsCount(s: seq<Item>, start: nat)
    ensures |DividerPositions(s, start)| == multiset(s)[Divider1] + multiset(s)[Divider2]
  {
    if s != [] {
      assert s == [s[0]] + s[1..];
      DividerPositionsCount(s[1..], start + 1);
    }
  }

  lemma FactorsAtMostProduct(h: int, p: int)
    requires h >= 1 && p >= 1
    ensures h * p >= h && h * p >= p
  {
  }

  /** With no factor below 1, the product is at least each factor. */
  lemma {:induction false} ProductAtLeastFactor(s: seq<int>, j: nat)
    requires forall k :: 0 <= k < |s| ==> s[k] >= 1
    ensures Product(s) >= 1
    ensures j < |s| ==> Product(s) >= s[j]
  {
    if s != [] {
      var t := s[1..];
      ProductAtLeastFactor(t, if j == 0 then 0 else j - 1);
      FactorsAtMostProduct(s[0], Product(t));
      if 0 < j < |s| {
        assert s[j] == t[j - 1];
      }
    }
  }

  /** Both dividers are among the sorted packets, so the decoder key is at least 1 * 2. */
  lemma Part2AtLeastTwo(pairs: seq<(Item, Item)>)
    ensures Part2(pairs) >= 2
  {
    var all := Flatten(pairs) + [Divider1, Divider2];
    var sorted := Sort(all);
    assert Divider1 != Divider2;
    assert multiset(all)[Divider1] >= 1 && multiset(all)[Divider2] >= 1;
    DividerPositionsCount(sorted, 0);
    ProductAtLeastFactor(DividerPositions(sorted, 0), 1);
  }
}
