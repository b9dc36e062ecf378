// Supply stacks (src/day05.rs): crates on numbered stacks are rearranged by
// a crane, one crate at a time (part 1) or a block at a time (part 2). The
// front of each stack is its top.
module Day05 {
  import opened Common

  type Stacks = seq<seq<char>>

  /** A parsed move: how many crates, and the 0-based source and target stacks. */
  datatype Move = Move(count: nat, from: int, to: int)

  // ---------------------------------------------------------------------------
  // The stack drawing

  /** Number of 4-character chunks a line is cut into (the last may be shorter). */
  function NumChunks(s: string): nat
  {
    (|s| + 3) / 4
  }

  /** Chunk i of the line. */
  function Chunk(s: string, i: nat): (c: string)
    requires i < NumChunks(s)
    ensures 0 < |c| <= 4
  {
    if 4 * i + 4 <= |s| then s[4 * i..4 * i + 4] else s[4 * i..]
  }

  predicate IsUpper(c: char)
  {
    'A' <= c <= 'Z'
  }

  /** A crate label "[X]" starts at position k. */
  predicate CrateAt(s: string, k: int)
  {
    0 <= k && k + 3 <= |s| && s[k] == '[' && IsUpper(s[k + 1]) && s[k + 2] == ']'
  }

  /** The position of the leftmost crate label in s at or after k, if any. */
  function FindCrateFrom(s: string, k: nat): (r: Option<nat>)
    ensures r.None? ==> forall j :: k <= j < |s| ==> !CrateAt(s, j)
    ensures r.Some? ==> k <= r.value < |s| && CrateAt(s, r.value) && forall j :: k <= j < r.value ==> !CrateAt(s, j)
    decreases |s| - k
  {
    if k + 3 > |s| then None
    else if CrateAt(s, k) then Some(k)
    else FindCrateFrom(s, k + 1)
  }

  /** The letter of the leftmost crate label in s, if any. */
  function FindCrate(s: string): (r: Option<char>)
    ensures r.None? <==> forall k :: 0 <= k < |s| ==> !CrateAt(s, k)
  {
    match FindCrateFrom(s, 0)
    case None => None
    case Some(k) => Some(s[k + 1])
  }

  /** The crate (or none) found in each chunk of a drawing line. */
  function LineCrates(s: string): (row: seq<Option<char>>)
    ensures |row| == NumChunks(s)
  {
    seq(NumChunks(s), i requires 0 <= i < NumChunks(s) => FindCrate(Chunk(s, i)))
  }

  /** Every crate of the row has a stack to go to. */
  predicate Fits(st: Stacks, row: seq<Option<char>>)
  {
    forall i :: 0 <= i < |row| && row[i].Some? ==> i < |st|
  }

  /** Each crate of the row goes to the bottom of its stack. */
  function PushRow(st: Stacks, row: seq<Option<char>>): (r: Stacks)
    requires Fits(st, row)
    ensures |r| == |st|
    ensures forall i :: 0 <= i < |st| ==> r[i] == if i < |row| && row[i].Some? then st[i] + [row[i].value] else st[i]
  {
    seq(|st|, i requires 0 <= i < |st| => if i < |row| && row[i].Some? then st[i] + [row[i].value] else st[i])
  }

  /**
   * Reads one line of the drawing: the crate in chunk i, if any, goes to the
   * back (bottom) of stack i.
   */
  method ParseStack(s: string, stacks: array<seq<char>>)
    requires Fits(stacks[..], LineCrates(s))
    modifies stacks
    ensures stacks[..] == PushRow(old(stacks[..]), LineCrates(s))
  {
    ghost var row := LineCrates(s);
    ghost var st := stacks[..];
    for idx := 0 to NumChunks(s)
      invariant stacks[..] == PushRow(st, row[..idx])
    {
      PushRowStep(st, row, idx);
      var crate := FindCrate(Chunk(s, idx));
      assert crate == row[idx];
      if crate.Some? {
        stacks[idx] := stacks[idx] + [crate.value];
      }
    }
    assert row[..NumChunks(s)] == row;
  }

  /** Pushing one more chunk's crate extends the pushed prefix by one. */
  lemma PushRowStep(st: Stacks, row: seq<Option<char>>, idx: nat)
    requires idx < |row| && Fits(st, row)
    ensures Fits(st, row[..idx]) && Fits(st, row[..idx + 1])
    ensures var p := PushRow(st, row[..idx]);
      PushRow(st, row[..idx + 1]) == if row[idx].Some? then p[idx := p[idx] + [row[idx].value]] else p
  {
  }

  /** The text of one cell of the drawing. */
  function Cell(o: Option<char>): string
  {
    match o
    case Some(c) => ['[', c, ']']
    case None => "   "
  }

  /** A drawing line: the cells separated by single spaces. */
  function StackLine(row: seq<Option<char>>): (s: string)
    requires |row| > 0
    ensures |s| == 4 * |row| - 1
  {
    if |row| == 1 then Cell(row[0]) else Cell(row[0]) + " " + StackLine(row[1..])
  }

  predicate UpperCells(row: seq<Option<char>>)
  {
    forall i :: 0 <= i < |row| && row[i].Some? ==> IsUpper(row[i].value)
  }

  lemma CellCrate(o: Option<char>, tail: string)
    requires o.Some? ==> IsUpper(o.value)
    requires tail == [] || tail == " "
    ensures FindCrate(Cell(o) + tail) == o
  {
    var s := Cell(o) + tail;
    if o.None? {
      assert forall k :: 0 <= k < |s| ==> s[k] == ' ';
    } else {
      assert CrateAt(s, 0);
      assert FindCrateFrom(s, 0) == Some(0);
    }
  }

  lemma {:induction false} ChunkOfStackLine(row: seq<Option<char>>, i: nat)
    requires |row| > 0 && i < |row|
    ensures NumChunks(StackLine(row)) == |row|
    ensures Chunk(StackLine(row), i) == Cell(row[i]) + (if i < |row| - 1 then " " else "")
  {
    var s := StackLine(row);
    if |row| > 1 {
      if i > 0 {
        ChunkOfStackLine(row[1..], i - 1);
        var t := StackLine(row[1..]);
        assert s == (Cell(row[0]) + " ") + t;
        ChunkAfterPrefix(Cell(row[0]) + " ", t, i);
      }
    }
  }

  /** Past a first chunk of four characters, the chunks are those of the rest. */
  lemma ChunkAfterPrefix(p: string, t: string, i: nat)
    requires |p| == 4 && 0 < i < NumChunks(p + t)
    ensures i - 1 < NumChunks(t) && Chunk(p + t, i) == Chunk(t, i - 1)
  {
    var j := 4 * (i - 1);
    assert 4 * i == j + 4;
    if j + 4 <= |t| {
      assert (p + t)[j + 4..j + 8] == t[j..j + 4];
    } else {
      assert (p + t)[j + 4..] == t[j..];
    }
  }

  /** Reading a drawing line gives back the crates it was drawn from. */
  lemma LineCratesOfStackLine(row: seq<Option<char>>)
    requires |row| > 0 && UpperCells(row)
    ensures LineCrates(StackLine(row)) == row
  {
    ChunkOfStackLine(row, 0);
    forall i | 0 <= i < |row|
      ensures FindCrate(Chunk(StackLine(row), i)) == row[i]
    {
      ChunkOfStackLine(row, i);
      CellCrate(row[i], if i < |row| - 1 then " " else "");
    }
  }

  // ---------------------------------------------------------------------------
  // Moves

  /** "tail" when s starts with lit. */
  function Literal(s: string, lit: string): (r: Option<string>)
    ensures r.Some? <==> lit <= s
    ensures r.Some? ==> s == lit + r.value
  {
    if lit <= s then Some(s[|lit|..]) else None
  }

  /** The literal lit followed by a decimal number, at the start of s: the number and what follows it. */
  function Field(s: string, lit: string): Option<(nat, string)>
  {
    match Literal(s, lit)
    case None => None
    case Some(t) => ReadNat(t)
  }

  /** The fixed words of a move line. */
  const MoveWord: string := "move "
  const FromWord: string := " from "
  const ToWord: string := " to "

  /** "move <n> from <a> to <b>" at the start of s, as Move(n, a - 1, b - 1). */
  function MatchMove(s: string): Option<Move>
  {
    var count := Field(s, MoveWord);
    if count.None? then None
    else
      var from := Field(count.value.1, FromWord);
      if from.None? then None
      else
        var to := Field(from.value.1, ToWord);
        if to.None? then None
        else Some(Move(count.value.0, from.value.0 - 1, to.value.0 - 1))
  }

  /** The leftmost position at or after k where the move pattern matches, if any. */
  function FindMoveFrom(s: string, k: nat): (r: Option<nat>)
    requires k <= |s|
    ensures r.Some? ==> k <= r.value <= |s|
    decreases |s| - k
  {
    if MatchMove(s[k..]).Some? then Some(k)
    else if k == |s| then None
    else FindMoveFrom(s, k + 1)
  }

  /** The leftmost match of the move pattern anywhere in the line, if any. */
  function ParseMove(s: string): (r: Option<Move>)
  {
    match FindMoveFrom(s, 0)
    case None => None
    case Some(k) => MatchMove(s[k..])
  }

  /** The move pattern matches at position j of s. */
  predicate MatchesAt(s: string, j: int)
    requires 0 <= j <= |s|
  {
    MatchMove(s[j..]).Some?
  }

  /** The search finds the leftmost match, and finds none only when there is none. */
  lemma {:induction false} FindMoveFromLeftmost(s: string, k: nat)
    requires k <= |s|
    ensures FindMoveFrom(s, k).None? ==> forall j :: k <= j <= |s| ==> !MatchesAt(s, j)
    ensures FindMoveFrom(s, k).Some? ==>
      MatchesAt(s, FindMoveFrom(s, k).value) && forall j :: k <= j < FindMoveFrom(s, k).value ==> !MatchesAt(s, j)
    decreases |s| - k
  {
    if MatchesAt(s, k) {
      assert FindMoveFrom(s, k) == Some(k);
    } else if k == |s| {
      assert FindMoveFrom(s, k) == None;
      assert forall j :: k <= j <= |s| ==> !MatchesAt(s, j);
    } else {
      FindMoveFromLeftmost(s, k + 1);
      var r := FindMoveFrom(s, k + 1);
      assert FindMoveFrom(s, k) == r;
      if r.None? {
        assert forall j :: k + 1 <= j <= |s| ==> !MatchesAt(s, j);
        assert forall j :: k <= j <= |s| ==> !MatchesAt(s, j);
      } else {
        assert forall j :: k + 1 <= j < r.value ==> !MatchesAt(s, j);
        assert forall j :: k <= j < r.value ==> !MatchesAt(s, j);
      }
    }
  }

  /** A line yields a move exactly when the pattern matches somewhere in it, and then the leftmost match. */
  lemma ParseMoveLeftmost(s: string)
    ensures ParseMove(s).None? <==> forall k :: 0 <= k <= |s| ==> !MatchesAt(s, k)
    ensures ParseMove(s).Some? ==>
      exists k :: 0 <= k <= |s| && ParseMove(s) == MatchMove(s[k..]) && forall j :: 0 <= j < k ==> !MatchesAt(s, j)
  {
    FindMoveFromLeftmost(s, 0);
  }

  /** The text of a move, with 1-based stack numbers. */
  function FormatMove(m: Move): string
    requires m.from >= 0 && m.to >= 0
  {
    MoveWord + NatToString(m.count) + FromPart(m)
  }

  function FromPart(m: Move): string
    requires m.from >= 0 && m.to >= 0
  {
    FromWord + NatToString(m.from + 1) + ToPart(m)
  }

  function ToPart(m: Move): string
    requires m.to >= 0
  {
    ToWord + NatToString(m.to + 1)
  }

  lemma FieldOfFormat(lit: string, n: nat, rest: string)
    requires rest == [] || !IsDigit(rest[0])
    ensures Field(lit + NatToString(n) + rest, lit) == Some((n, rest))
  {
    var s := lit + NatToString(n) + rest;
    assert s == lit + (NatToString(n) + rest);
    assert Literal(s, lit) == Some(NatToString(n) + rest);
    ReadNatOfNatToString(n, rest);
  }

  /** The pattern matches the text of a move at its start, with the move's fields. */
  lemma MatchMoveOfFormat(m: Move)
    requires m.from >= 0 && m.to >= 0
    ensures MatchMove(FormatMove(m)) == Some(m)
  {
    MoveFieldOfFormat(m);
    FromFieldOfFormat(m);
    ToFieldOfFormat(m);
    MatchMoveOfFields(FormatMove(m), m.count, FromPart(m), m.from + 1, ToPart(m), m.to + 1);
  }

  lemma MoveFieldOfFormat(m: Move)
    requires m.from >= 0 && m.to >= 0
    ensures Field(FormatMove(m), MoveWord) == Some((m.count, FromPart(m)))
  {
    var rest := FromPart(m);
    assert rest[0] == FromWord[0] == ' ';
    FieldOfFormat(MoveWord, m.count, rest);
  }

  lemma FromFieldOfFormat(m: Move)
    requires m.from >= 0 && m.to >= 0
    ensures Field(FromPart(m), FromWord) == Some(((m.from + 1) as nat, ToPart(m)))
  {
    var rest := ToPart(m);
    assert rest[0] == ToWord[0] == ' ';
    FieldOfFormat(FromWord, m.from + 1, rest);
    assert FromPart(m) == FromWord + NatToString(m.from + 1) + rest;
  }

  lemma ToFieldOfFormat(m: Move)
    requires m.to >= 0
    ensures Field(ToPart(m), ToWord) == Some(((m.to + 1) as nat, []))
  {
    FieldOfFormat(ToWord, m.to + 1, []);
    assert ToPart(m) + [] == ToPart(m);
  }

  lemma MatchMoveOfFields(s: string, n: nat, s2: string, a: nat, s3: string, b: nat)
    requires Field(s, MoveWord) == Some((n, s2))
    requires Field(s2, FromWord) == Some((a, s3))
    requires Field(s3, ToWord) == Some((b, []))
    ensures MatchMove(s) == Some(Move(n, a - 1, b - 1))
  {
    var r := MatchMove(s);
    assert r.Some?;
    assert r.value.count == n && r.value.from == a - 1 && r.value.to == b - 1;
  }

  /** Parsing the text of a move gives the move back. */
  lemma ParseMoveOfFormat(m: Move)
    requires m.from >= 0 && m.to >= 0
    ensures ParseMove(FormatMove(m)) == Some(m)
  {
    var s := FormatMove(m);
    MatchMoveOfFormat(m);
    assert s[0..] == s;
    assert FindMoveFrom(s, 0) == Some(0);
  }

  /**
   * The source may apply the move without a panic: a move of no crates
   * touches no stack; otherwise both stacks exist, and the source holds
   * enough crates (one crate at a time from a stack onto itself needs one).
   */
  predicate CanMove(st: Stacks, m: Move, block: bool)
  {
    m.count == 0 ||
    (0 <= m.from < |st| && 0 <= m.to < |st| &&
     if m.from == m.to && !block then |st[m.from]| > 0 else m.count <= |st[m.from]|)
  }

  /** s in reverse order. */
  function Reversed(s: seq<char>): (r: seq<char>)
    ensures |r| == |s|
    ensures forall i :: 0 <= i < |s| ==> r[i] == s[|s| - 1 - i]
  {
    if s == [] then [] else [s[|s| - 1]] + Reversed(s[..|s| - 1])
  }

  /** One crate at a time: the top n crates land on the target in reverse order. */
  function Crane9000(st: Stacks, m: Move): (r: Stacks)
    requires CanMove(st, m, false)
    ensures |r| == |st|
    ensures forall i :: 0 <= i < |st| && i != m.from && i != m.to ==> r[i] == st[i]
  {
    if m.count == 0 || m.from == m.to then st
    else
      var block := st[m.from][..m.count];
      st[m.from := st[m.from][m.count..]][m.to := Reversed(block) + st[m.to]]
  }

  /** A block at a time: the top n crates land on the target in their order. */
  function Crane9001(st: Stacks, m: Move): (r: Stacks)
    requires CanMove(st, m, true)
    ensures |r| == |st|
    ensures forall i :: 0 <= i < |st| && i != m.from && i != m.to ==> r[i] == st[i]
  {
    if m.count == 0 then st
    else
      var block := st[m.from][..m.count];
      var rest := st[m.from := st[m.from][m.count..]];
      rest[m.to := block + rest[m.to]]
  }

  /** Part 1 move: pop the top of the source, push it onto the target, n times. */
  method MoveSingle(stacks: array<seq<char>>, m: Move)
    requires CanMove(stacks[..], m, false)
    modifies stacks
    ensures stacks[..] == Crane9000(old(stacks[..]), m)
  {
    if m.count == 0 {
      return;
    }
    ghost var st := stacks[..];
    for i := 0 to m.count
      invariant forall k :: 0 <= k < stacks.Length && k != m.from && k != m.to ==> stacks[k] == st[k]
      invariant m.from == m.to ==> stacks[m.from] == st[m.from]
      invariant m.from != m.to ==> stacks[m.from] == st[m.from][i..]
      invariant m.from != m.to ==> stacks[m.to] == Reversed(st[m.from][..i]) + st[m.to]
    {
      var piece := stacks[m.from][0];
      stacks[m.from] := stacks[m.from][1..];
      stacks[m.to] := [piece] + stacks[m.to];
      if m.from != m.to {
        assert st[m.from][..i + 1][..i] == st[m.from][..i];
        assert st[m.from][i..][1..] == st[m.from][i + 1..];
      }
    }
    assert stacks[..] == Crane9000(st, m);
  }

  /**
   * Part 2 move: pop n crates into a holding deque (reversing them), then pop
   * the holding deque onto the target (reversing them back).
   */
  method MoveBlock(stacks: array<seq<char>>, m: Move)
    requires CanMove(stacks[..], m, true)
    modifies stacks
    ensures stacks[..] == Crane9001(old(stacks[..]), m)
  {
    if m.count == 0 {
      return;
    }
    ghost var st := stacks[..];
    var tmp := PopBlock(stacks, m.from, m.count);
    PushAll(stacks, m.to, tmp);
    ReversedTwice(st[m.from][..m.count]);
  }

  /** Pops n crates off stack from, each onto the front of a holding deque. */
  method PopBlock(stacks: array<seq<char>>, from: int, n: nat) returns (tmp: seq<char>)
    requires 0 <= from < stacks.Length && n <= |stacks[from]|
    modifies stacks
    ensures tmp == Reversed(old(stacks[from])[..n])
    ensures stacks[..] == old(stacks[..])[from := old(stacks[from])[n..]]
  {
    ghost var src := stacks[from];
    tmp := [];
    for i := 0 to n
      invariant tmp == Reversed(src[..i])
      invariant stacks[..] == old(stacks[..])[from := src[i..]]
    {
      var piece := stacks[from][0];
      stacks[from] := stacks[from][1..];
      tmp := [piece] + tmp;
      assert src[..i + 1][..i] == src[..i];
      assert src[i..][1..] == src[i + 1..];
    }
  }

  /** Pops the holding deque empty, each crate onto the front of stack to. */
  method PushAll(stacks: array<seq<char>>, to: int, tmp: seq<char>)
    requires 0 <= to < stacks.Length
    modifies stacks
    ensures stacks[..] == old(stacks[..])[to := Reversed(tmp) + old(stacks[to])]
  {
    var rest := tmp;
    ghost var k := 0;
    while rest != []
      invariant 0 <= k <= |tmp| && rest == tmp[k..]
      invariant forall t :: 0 <= t < stacks.Length && t != to ==> stacks[t] == old(stacks[t])
      invariant stacks[to] == Reversed(tmp[..k]) + old(stacks[to])
      decreases |rest|
    {
      var c := rest[0];
      rest := rest[1..];
      stacks[to] := [c] + stacks[to];
      assert tmp[..k + 1][..k] == tmp[..k];
      k := k + 1;
    }
    assert tmp[..k] == tmp;
    assert stacks[..] == old(stacks[..])[to := Reversed(tmp) + old(stacks[to])];
  }

  lemma ReversedTwice(s: seq<char>)
    ensures Reversed(Reversed(s)) == s
  {
    assert forall i :: 0 <= i < |s| ==> Reversed(Reversed(s))[i] == s[i];
  }

  // ---------------------------------------------------------------------------
  // Properties of the moves

  /** All crates on the stacks, as a bag. */
  function AllCrates(st: Stacks): multiset<char>
  {
    if st == [] then multiset{} else AllCrates(st[..|st| - 1]) + multiset(st[|st| - 1])
  }

  /** Replacing one stack changes the bag by that stack's difference. */
  lemma {:induction false} AllCratesUpdate(st: Stacks, i: int, s: seq<char>)
    requires 0 <= i < |st|
    ensures AllCrates(st[i := s]) + multiset(st[i]) == AllCrates(st) + multiset(s)
  {
    var last := |st| - 1;
    if i < last {
      assert st[i := s][..last] == st[..last][i := s];
      AllCratesUpdate(st[..last], i, s);
      assert st[..last][i] == st[i];
      calc {
        AllCrates(st[i := s]) + multiset(st[i]);
        AllCrates(st[..last][i := s]) + multiset(st[last]) + multiset(st[i]);
        (AllCrates(st[..last][i := s]) + multiset(st[..last][i])) + multiset(st[last]);
        AllCrates(st[..last]) + multiset(s) + multiset(st[last]);
        AllCrates(st) + multiset(s);
      }
    } else {
      assert st[i := s][..last] == st[..last];
    }
  }

  lemma MultisetCancel(a: multiset<char>, b: multiset<char>, c: multiset<char>)
    requires a + c == b + c
    ensures a == b
  {
    assert forall x :: a[x] == (a + c)[x] - c[x];
    assert forall x :: b[x] == (b + c)[x] - c[x];
  }

  lemma ReversedMultiset(s: seq<char>)
    ensures multiset(Reversed(s)) == multiset(s)
  {
    if s != [] {
      ReversedMultiset(s[..|s| - 1]);
      assert s == s[..|s| - 1] + [s[|s| - 1]];
    }
  }

  /**
   * Taking the block off the source and putting t + the target's contents on
   * the target keeps the bag when t holds the block's crates.
   */
  lemma MoveConserves(st: Stacks, from: int, to: int, n: nat, t: seq<char>)
    requires 0 <= from < |st| && 0 <= to < |st| && n <= |st[from]|
    requires multiset(t) == multiset(st[from][..n])
    ensures var rest := st[from := st[from][n..]];
      AllCrates(rest[to := t + rest[to]]) == AllCrates(st)
  {
    var src := st[from];
    var block := src[..n];
    var tail := src[n..];
    assert src == block + tail;
    var rest := st[from := tail];
    var r := rest[to := t + rest[to]];
    AllCratesUpdate(st, from, tail);
    AllCratesUpdate(rest, to, t + rest[to]);
    assert multiset(t + rest[to]) == multiset(block) + multiset(rest[to]);
    MultisetCancel(AllCrates(r), AllCrates(rest) + multiset(block), multiset(rest[to]));
    MultisetCancel(AllCrates(rest) + multiset(block), AllCrates(st), multiset(tail));
  }

  /** A part 1 move neither creates nor destroys crates. */
  lemma Crane9000Conserves(st: Stacks, m: Move)
    requires CanMove(st, m, false)
    ensures AllCrates(Crane9000(st, m)) == AllCrates(st)
  {
    if m.count > 0 && m.from != m.to {
      var block := st[m.from][..m.count];
      ReversedMultiset(block);
      MoveConserves(st, m.from, m.to, m.count, Reversed(block));
      assert st[m.from := st[m.from][m.count..]][m.to] == st[m.to];
    }
  }

  /** A part 2 move neither creates nor destroys crates. */
  lemma Crane9001Conserves(st: Stacks, m: Move)
    requires CanMove(st, m, true)
    ensures AllCrates(Crane9001(st, m)) == AllCrates(st)
  {
    if m.count > 0 {
      MoveConserves(st, m.from, m.to, m.count, st[m.from][..m.count]);
    }
  }

  /** Moving the same block back with the part 2 crane restores the stacks. */
  lemma Crane9001Undo(st: Stacks, m: Move)
    requires CanMove(st, m, true) && m.from != m.to
    ensures CanMove(Crane9001(st, m), Move(m.count, m.to, m.from), true)
    ensures Crane9001(Crane9001(st, m), Move(m.count, m.to, m.from)) == st
  {
    if m.count > 0 {
      var r := Crane9001(st, m);
      var block := st[m.from][..m.count];
      assert r[m.to][..m.count] == block;
      assert r[m.to][m.count..] == st[m.to];
      assert block + st[m.from][m.count..] == st[m.from];
    }
  }

  /** Moving the same crates back with the part 1 crane restores the stacks. */
  lemma Crane9000Undo(st: Stacks, m: Move)
    requires CanMove(st, m, false) && m.from != m.to
    ensures CanMove(Crane9000(st, m), Move(m.count, m.to, m.from), false)
    ensures Crane9000(Crane9000(st, m), Move(m.count, m.to, m.from)) == st
  {
    if m.count > 0 {
      var r := Crane9000(st, m);
      var block := st[m.from][..m.count];
      assert r[m.to][..m.count] == Reversed(block);
      assert r[m.to][m.count..] == st[m.to];
      ReversedTwice(block);
      assert block + st[m.from][m.count..] == st[m.from];
    }
  }

  /** The two cranes agree when one crate moves between different stacks. */
  lemma CranesAgreeOnOne(st: Stacks, m: Move)
    requires m.count <= 1 && m.from != m.to && CanMove(st, m, false)
    ensures CanMove(st, m, true) && Crane9000(st, m) == Crane9001(st, m)
  {
    if m.count == 1 {
      var block := st[m.from][..1];
      assert Reversed(block) == block;
    }
  }

  // ---------------------------------------------------------------------------
  // Whole puzzle

  /** The top crate of every stack, or None when a stack is empty (a panic in the source). */
  function Tops(st: Stacks): (r: Option<string>)
    ensures r.Some? <==> forall i :: 0 <= i < |st| ==> st[i] != []
    ensures r.Some? ==> |r.value| == |st| && forall i :: 0 <= i < |st| ==> r.value[i] == st[i][0]
  {
    if st == [] then Some([])
    else if st[0] == [] then None
    else match Tops(st[1..])
      case None => None
      case Some(t) => Some([st[0][0]] + t)
  }

  /** The drawing ends at the first line of length at most 1. */
  function HeaderEnd(lines: seq<string>, i: nat): (e: nat)
    requires i <= |lines|
    ensures i <= e <= |lines|
    ensures e < |lines| ==> |lines[e]| <= 1
    ensures forall k :: i <= k < e ==> |lines[k]| > 1
    decreases |lines| - i
  {
    if i == |lines| || |lines[i]| <= 1 then i else HeaderEnd(lines, i + 1)
  }

  /** Reads the drawing lines from i on into st; None when a crate has no stack (a panic). */
  function ReadDrawing(st: Stacks, lines: seq<string>, i: nat): Option<Stacks>
    requires i <= |lines|
    decreases |lines| - i
  {
    if i == |lines| || |lines[i]| <= 1 then Some(st)
    else if !Fits(st, LineCrates(lines[i])) then None
    else ReadDrawing(PushRow(st, LineCrates(lines[i])), lines, i + 1)
  }

  /** The move a line holds, as the source applies it. */
  predicate Applies(st: Stacks, m: Move, block: bool)
  {
    m.from >= 0 && m.to >= 0 && CanMove(st, m, block)
  }

  /**
   * Applies the moves of lines j.. in order, skipping lines without one; None
   * when a move panics (a stack number 0, a missing stack, too few crates).
   */
  function RunMoves(st: Stacks, lines: seq<string>, j: nat, block: bool): Option<Stacks>
    requires j <= |lines|
    decreases |lines| - j
  {
    if j == |lines| then Some(st)
    else match ParseMove(lines[j])
      case None => RunMoves(st, lines, j + 1, block)
      case Some(m) =>
        if !Applies(st, m, block) then None
        else RunMoves(if block then Crane9001(st, m) else Crane9000(st, m), lines, j + 1, block)
  }

  /** The message of the whole input, or None where the source panics. */
  function Solve(lines: seq<string>, block: bool): Option<string>
    requires |lines| > 0
  {
    var len := (|lines[0]| + 1) / 4;
    match ReadDrawing(seq(len, _ => []), lines, 0)
    case None => None
    case Some(st) =>
      match RunMoves(st, lines, HeaderEnd(lines, 0), block)
      case None => None
      case Some(st') => Tops(st')
  }

  /** Reads the drawing lines at the start of the input into the stacks. */
  method ReadHeader(lines: seq<string>, stacks: array<seq<char>>) returns (i: nat)
    requires ReadDrawing(stacks[..], lines, 0).Some?
    modifies stacks
    ensures i == HeaderEnd(lines, 0)
    ensures ReadDrawing(old(stacks[..]), lines, 0) == Some(stacks[..])
  {
    i := 0;
    while i < |lines| && |lines[i]| > 1
      invariant i <= |lines| && HeaderEnd(lines, i) == HeaderEnd(lines, 0)
      invariant ReadDrawing(stacks[..], lines, i) == ReadDrawing(old(stacks[..]), lines, 0)
      decreases |lines| - i
    {
      ParseStack(lines[i], stacks);
      i := i + 1;
    }
  }

  /** Applies the move of every line from i on, one kind of crane throughout. */
  method ApplyMoves(lines: seq<string>, i: nat, block: bool, stacks: array<seq<char>>)
    requires i <= |lines| && RunMoves(stacks[..], lines, i, block).Some?
    modifies stacks
    ensures RunMoves(old(stacks[..]), lines, i, block) == Some(stacks[..])
  {
    for j := i to |lines|
      invariant RunMoves(stacks[..], lines, j, block) == RunMoves(old(stacks[..]), lines, i, block)
    {
      match ParseMove(lines[j]) {
        case None =>
        case Some(m) =>
          if block {
            MoveBlock(stacks, m);
          } else {
            MoveSingle(stacks, m);
          }
      }
    }
  }

  /** The top crate of each stack in index order. */
  method TopCrates(stacks: array<seq<char>>) returns (message: string)
    requires Tops(stacks[..]).Some?
    ensures Tops(stacks[..]) == Some(message)
  {
    message := [];
    for k := 0 to stacks.Length
      invariant |message| == k && forall t :: 0 <= t < k ==> message[t] == stacks[t][0]
    {
      message := message + [stacks[k][0]];
    }
    assert message == Tops(stacks[..]).value;
  }

  /** Shared body of both parts. */
  method Run(lines: seq<string>, block: bool) returns (message: string)
    requires |lines| > 0 && Solve(lines, block).Some?
    ensures Solve(lines, block) == Some(message)
  {
    var len := (|lines[0]| + 1) / 4;
    var stacks := new seq<char>[len](_ => []);
    assert stacks[..] == seq(len, _ => []);
    var i := ReadHeader(lines, stacks);
    ApplyMoves(lines, i, block, stacks);
    message := TopCrates(stacks);
  }

  /** Part 1: the top crates after the one-at-a-time moves. */
  method Part1(lines: seq<string>) returns (message: string)
    requires |lines| > 0 && Solve(lines, false).Some?
    ensures Solve(lines, false) == Some(message)
  {
    message := Run(lines, false);
  }

  /** Part 2: the top crates after the block moves. */
  method Part2(lines: seq<string>) returns (message: string)
    requires |lines| > 0 && Solve(lines, true).Some?
    ensures Solve(lines, true) == Some(message)
  {
    message := Run(lines, true);
  }

  /** The stacks of the example drawing, top first. */
  const ExampleStacks: Stacks := ["NZ", "DCM", "P"]

  /** The moves of the example: 1 from 2 to 1, 3 from 1 to 3, 2 from 2 to 1, 1 from 1 to 2. */
  const ExampleMoves: seq<Move> := [Move(1, 1, 0), Move(3, 0, 2), Move(2, 1, 0), Move(1, 0, 1)]

  /** One crate at a time the example ends with "CMZ" on top. */
  lemma Example9000()
    ensures var m := ExampleMoves;
      Tops(Crane9000(Crane9000(Crane9000(Crane9000(ExampleStacks, m[0]), m[1]), m[2]), m[3])) == Some("CMZ")
  {
    Example9000First();
    Example9000Second();
    Example9000Third();
    Example9000Fourth();
    assert Tops(["C", "M", "ZNDP"]).value == "CMZ";
  }

  lemma Example9000First()
    ensures Crane9000(ExampleStacks, ExampleMoves[0]) == ["DNZ", "CM", "P"]
  {
    var a := Crane9000(ExampleStacks, ExampleMoves[0]);
    assert Reversed("D") == "D";
    assert a[0] == "DNZ" && a[1] == "CM" && a[2] == "P";
  }

  lemma Example9000Second()
    ensures Crane9000(["DNZ", "CM", "P"], ExampleMoves[1]) == ["", "CM", "ZNDP"]
  {
    var a := Crane9000(["DNZ", "CM", "P"], ExampleMoves[1]);
    assert Reversed("DNZ") == "ZND";
    assert a[0] == "" && a[1] == "CM" && a[2] == "ZNDP";
  }

  lemma Example9000Third()
    ensures Crane9000(["", "CM", "ZNDP"], ExampleMoves[2]) == ["MC", "", "ZNDP"]
  {
    var a := Crane9000(["", "CM", "ZNDP"], ExampleMoves[2]);
    assert Reversed("CM") == "MC";
    assert a[0] == "MC" && a[1] == "" && a[2] == "ZNDP";
  }

  lemma Example9000Fourth()
    ensures Crane9000(["MC", "", "ZNDP"], ExampleMoves[3]) == ["C", "M", "ZNDP"]
  {
    var a := Crane9000(["MC", "", "ZNDP"], ExampleMoves[3]);
    assert Reversed("M") == "M";
    assert a[0] == "C" && a[1] == "M" && a[2] == "ZNDP";
  }

  /** A block at a time the example ends with "MCD" on top. */
  lemma Example9001()
    ensures var m := ExampleMoves;
      Tops(Crane9001(Crane9001(Crane9001(Crane9001(ExampleStacks, m[0]), m[1]), m[2]), m[3])) == Some("MCD")
  {
    var m := ExampleMoves;
    var b1 := Crane9001(ExampleStacks, m[0]);
    assert b1[0] == "DNZ" && b1[1] == "CM" && b1 == ["DNZ", "CM", "P"];
    var b2 := Crane9001(b1, m[1]);
    assert b2[0] == "" && b2[2] == "DNZP" && b2 == ["", "CM", "DNZP"];
    var b3 := Crane9001(b2, m[2]);
    assert b3[0] == "CM" && b3[1] == "" && b3 == ["CM", "", "DNZP"];
    var b4 := Crane9001(b3, m[3]);
    assert b4[0] == "M" && b4[1] == "C" && b4 == ["M", "C", "DNZP"];
    assert Tops(b4).value == "MCD";
  }
}
