// Rock paper scissors (src/day02.rs): each line names the opponent's shape
// and a second letter read either as my shape (part 1) or as the outcome I
// want (part 2); the totals are sums of per-round scores.
module Day02 {
  import opened Common

  datatype Move = Rock | Paper | Scissors

  datatype WantResult = Win | Lose | Draw

  function ShapeScore(m: Move): (r: int)
    ensures 1 <= r <= 3
  {
    match m
    case Rock => 1
    case Paper => 2
    case Scissors => 3
  }

  /** The outcome score of playing mine against opponent: 6 win, 3 draw, 0 loss. */
  function WinLose(mine: Move, opponent: Move): (r: int)
    ensures r == 0 || r == 3 || r == 6
  {
    match (mine, opponent)
    case (Rock, Rock) => 3
    case (Rock, Paper) => 0
    case (Rock, Scissors) => 6
    case (Paper, Rock) => 6
    case (Paper, Paper) => 3
    case (Paper, Scissors) => 0
    case (Scissors, Rock) => 0
    case (Scissors, Paper) => 6
    case (Scissors, Scissors) => 3
  }

  /** The shape each shape defeats. */
  function Beats(m: Move): (r: Move)
    ensures r != m && WinLose(m, r) == 6 && WinLose(r, m) == 0
  {
    match m
    case Rock => Scissors
    case Paper => Rock
    case Scissors => Paper
  }

  /** The table agrees with the rule: a win exactly against the beaten shape, a draw exactly against itself. */
  lemma WinLoseByRule(a: Move, b: Move)
    ensures WinLose(a, b) == 6 <==> b == Beats(a)
    ensures WinLose(a, b) == 3 <==> b == a
    ensures WinLose(a, b) == 0 <==> a == Beats(b)
  {
  }

  /** Swapping the players swaps win and loss. */
  lemma WinLoseAntisymmetric(a: Move, b: Move)
    ensures WinLose(a, a) == 3
    ensures WinLose(a, b) + WinLose(b, a) == 6
  {
  }

  /** Every shape beats exactly one shape, and is beaten by exactly one. */
  lemma BeatsExactlyOne(a: Move)
    ensures Beats(a) != a && Beats(Beats(a)) != a && Beats(Beats(Beats(a))) == a
    ensures forall b :: WinLose(a, b) == 6 ==> b == Beats(a)
  {
  }

  function ResultScore(w: WantResult): (r: int)
    ensures r == 0 || r == 3 || r == 6
  {
    match w
    case Lose => 0
    case Draw => 3
    case Win => 6
  }

  /** The shape to play against opponent to get the wanted result. */
  function MoveForResult(opponent: Move, want: WantResult): (m: Move)
    ensures WinLose(m, opponent) == ResultScore(want)
  {
    match (opponent, want)
    case (x, Draw) => x
    case (Rock, Lose) => Scissors
    case (Rock, Win) => Paper
    case (Paper, Lose) => Rock
    case (Paper, Win) => Scissors
    case (Scissors, Lose) => Paper
    case (Scissors, Win) => Rock
  }

  /** The chosen shape produces the wanted result, and is the only shape that does. */
  lemma MoveForResultAchieves(opponent: Move, want: WantResult)
    ensures WinLose(MoveForResult(opponent, want), opponent) == ResultScore(want)
    ensures forall m :: WinLose(m, opponent) == ResultScore(want) ==> m == MoveForResult(opponent, want)
  {
  }

  datatype Play = Play(opponent: Move, mine: Move)

  datatype MatchStrategy = MatchStrategy(opponent: Move, want: WantResult)

  /** A round of part 1: my shape plus the outcome, between 1 and 9. */
  function PlayScore(p: Play): (r: int)
    ensures 1 <= r <= 9
    ensures r - ShapeScore(p.mine) == WinLose(p.mine, p.opponent)
  {
    ShapeScore(p.mine) + WinLose(p.mine, p.opponent)
  }

  /** A round of part 2: the outcome plus the shape that brings it about. */
  function StrategyScore(s: MatchStrategy): (r: int)
    ensures 1 <= r <= 9
  {
    ResultScore(s.want) + ShapeScore(MoveForResult(s.opponent, s.want))
  }

  /** Playing the strategy's move scores the same as the strategy itself. */
  lemma StrategyIsAPlay(s: MatchStrategy)
    ensures StrategyScore(s) == PlayScore(Play(s.opponent, MoveForResult(s.opponent, s.want)))
  {
    MoveForResultAchieves(s.opponent, s.want);
  }

  // ---------------------------------------------------------------------------
  // Decoding a line

  predicate IsOpponentLetter(c: char) { c == 'A' || c == 'B' || c == 'C' }

  predicate IsSecondLetter(c: char) { c == 'X' || c == 'Y' || c == 'Z' }

  /** The pattern "[ABC] [XYZ]" matches at position k. */
  predicate MatchesAt(s: string, k: nat)
  {
    k + 3 <= |s| && IsOpponentLetter(s[k]) && s[k + 1] == ' ' && IsSecondLetter(s[k + 2])
  }

  /** The leftmost position from k on where the pattern matches. */
  function FindFrom(s: string, k: nat): (r: Option<nat>)
    requires k <= |s|
    decreases |s| - k
    ensures r.Some? ==> k <= r.value && MatchesAt(s, r.value) && forall j :: k <= j < r.value ==> !MatchesAt(s, j)
    ensures r.None? ==> forall j :: k <= j <= |s| ==> !MatchesAt(s, j)
  {
    if k + 3 > |s| then None
    else if MatchesAt(s, k) then Some(k)
    else FindFrom(s, k + 1)
  }

  /** The two captured letters of the leftmost match; None where the program panics. */
  function Captures(s: string): (r: Option<(char, char)>)
    ensures r.Some? ==> IsOpponentLetter(r.value.0) && IsSecondLetter(r.value.1)
    ensures r.None? <==> forall j :: 0 <= j <= |s| ==> !MatchesAt(s, j)
  {
    match FindFrom(s, 0)
    case None => None
    case Some(k) => Some((s[k], s[k + 2]))
  }

  function OpponentMove(c: char): Move
    requires IsOpponentLetter(c)
  {
    if c == 'A' then Rock else if c == 'B' then Paper else Scissors
  }

  function MyMove(c: char): Move
    requires IsSecondLetter(c)
  {
    if c == 'X' then Rock else if c == 'Y' then Paper else Scissors
  }

  function Wanted(c: char): WantResult
    requires IsSecondLetter(c)
  {
    if c == 'X' then Lose else if c == 'Y' then Draw else Win
  }

  function ParsePlay(s: string): (r: Option<Play>)
    ensures r.None? <==> forall j :: 0 <= j <= |s| ==> !MatchesAt(s, j)
  {
    match Captures(s)
    case None => None
    case Some((a, b)) => Some(Play(OpponentMove(a), MyMove(b)))
  }

  function ParseStrategy(s: string): (r: Option<MatchStrategy>)
    ensures r.None? <==> forall j :: 0 <= j <= |s| ==> !MatchesAt(s, j)
  {
    match Captures(s)
    case None => None
    case Some((a, b)) => Some(MatchStrategy(OpponentMove(a), Wanted(b)))
  }

  function OpponentLetter(m: Move): char
  {
    match m
    case Rock => 'A'
    case Paper => 'B'
    case Scissors => 'C'
  }

  function MyLetter(m: Move): char
  {
    match m
    case Rock => 'X'
    case Paper => 'Y'
    case Scissors => 'Z'
  }

  function WantLetter(w: WantResult): char
  {
    match w
    case Lose => 'X'
    case Draw => 'Y'
    case Win => 'Z'
  }

  /** Both readings of a line agree on the opponent and read one letter two ways. */
  lemma ReadingsAgree(s: string)
    ensures ParsePlay(s).Some? <==> ParseStrategy(s).Some?
    ensures ParsePlay(s).Some? ==>
      ParsePlay(s).value.opponent == ParseStrategy(s).value.opponent &&
      MyLetter(ParsePlay(s).value.mine) == WantLetter(ParseStrategy(s).value.want)
  {
  }

  /** Writing a round as its two letters and reading it back gives it back. */
  lemma ParsePlayOfFormat(p: Play, rest: string)
    ensures ParsePlay([OpponentLetter(p.opponent), ' ', MyLetter(p.mine)] + rest) == Some(p)
  {
    var t := [OpponentLetter(p.opponent), ' ', MyLetter(p.mine)] + rest;
    assert MatchesAt(t, 0);
    assert FindFrom(t, 0) == Some(0);
    assert Captures(t) == Some((t[0], t[2]));
  }

  lemma ParseStrategyOfFormat(s: MatchStrategy, rest: string)
    ensures ParseStrategy([OpponentLetter(s.opponent), ' ', WantLetter(s.want)] + rest) == Some(s)
  {
    var t := [OpponentLetter(s.opponent), ' ', WantLetter(s.want)] + rest;
    assert MatchesAt(t, 0);
    assert FindFrom(t, 0) == Some(0);
    assert Captures(t) == Some((t[0], t[2]));
  }

  // ---------------------------------------------------------------------------
  // Totals

  /** A line's part 1 score: its round's score, 0 for an empty or unreadable line. */
  function PlayLineScore(line: string): int
  {
    if line == [] || ParsePlay(line).None? then 0 else PlayScore(ParsePlay(line).value)
  }

  /** A line's part 2 score: its strategy's score, 0 for an empty or unreadable line. */
  function StrategyLineScore(line: string): int
  {
    if line == [] || ParseStrategy(line).None? then 0 else StrategyScore(ParseStrategy(line).value)
  }

  /** Part 1: the sum of the round scores of the nonempty lines; None when a line does not match. */
  function Part1(lines: seq<string>): (r: Option<int>)
    ensures r.Some? ==> 0 <= r.value <= 9 * |lines|
    ensures r.Some? ==> r.value == Sum(seq(|lines|, i requires 0 <= i < |lines| => PlayLineScore(lines[i])))
    ensures r.None? <==> exists i :: 0 <= i < |lines| && lines[i] != [] && ParsePlay(lines[i]).None?
  {
    if lines == [] then Some(0)
    else
      var rest := Part1(lines[1..]);
      var scores := seq(|lines|, i requires 0 <= i < |lines| => PlayLineScore(lines[i]));
      assert scores[1..] == seq(|lines[1..]|, i requires 0 <= i < |lines[1..]| => PlayLineScore(lines[1..][i]));
      if lines[0] == [] then
        assert forall i :: 1 <= i < |lines| ==> lines[1..][i - 1] == lines[i];
        rest
      else
        match ParsePlay(lines[0])
        case None => None
        case Some(p) =>
          assert forall i :: 1 <= i < |lines| ==> lines[1..][i - 1] == lines[i];
          if rest.None? then None else Some(PlayScore(p) + rest.value)
  }

  /** Part 2: the same sum with the second letter read as the wanted result. */
  function Part2(lines: seq<string>): (r: Option<int>)
    ensures r.Some? ==> 0 <= r.value <= 9 * |lines|
    ensures r.Some? ==> r.value == Sum(seq(|lines|, i requires 0 <= i < |lines| => StrategyLineScore(lines[i])))
    ensures r.None? <==> exists i :: 0 <= i < |lines| && lines[i] != [] && ParseStrategy(lines[i]).None?
  {
    if lines == [] then Some(0)
    else
      var rest := Part2(lines[1..]);
      var scores := seq(|lines|, i requires 0 <= i < |lines| => StrategyLineScore(lines[i]));
      assert scores[1..] == seq(|lines[1..]|, i requires 0 <= i < |lines[1..]| => StrategyLineScore(lines[1..][i]));
      if lines[0] == [] then
        assert forall i :: 1 <= i < |lines| ==> lines[1..][i - 1] == lines[i];
        rest
      else
        match ParseStrategy(lines[0])
        case None => None
        case Some(s) =>
          assert forall i :: 1 <= i < |lines| ==> lines[1..][i - 1] == lines[i];
          if rest.None? then None else Some(StrategyScore(s) + rest.value)
  }

  const ExampleLines: seq<string> := ["A Y", "B X", "C Z", ""]

  lemma ExampleTails()
    ensures ExampleLines[1..] == ["B X", "C Z", ""] && ExampleLines[1..][1..] == ["C Z", ""]
    ensures ExampleLines[1..][1..][1..] == [""] && ExampleLines[1..][1..][1..][1..] == []
  {
  }

  /** The published example "A Y", "B X", "C Z" totals 15 when read as shapes. */
  lemma Example1()
    ensures Part1(ExampleLines) == Some(15)
  {
    ExampleTails();
    ParsePlayOfFormat(Play(Rock, Paper), []);
    ParsePlayOfFormat(Play(Paper, Rock), []);
    ParsePlayOfFormat(Play(Scissors, Scissors), []);
    var t := ExampleLines[1..][1..];
    assert Part1(t[1..]) == Some(0);
    assert Part1(t) == Some(6);
    assert Part1(ExampleLines[1..]) == Some(7);
  }

  /** The same lines total 12 when the second letter is the wanted result. */
  lemma Example2()
    ensures Part2(ExampleLines) == Some(12)
  {
    ExampleTails();
    ParseStrategyOfFormat(MatchStrategy(Rock, Draw), []);
    ParseStrategyOfFormat(MatchStrategy(Paper, Lose), []);
    ParseStrategyOfFormat(MatchStrategy(Scissors, Win), []);
    var t := ExampleLines[1..][1..];
    assert Part2(t[1..]) == Some(0);
    assert Part2(t) == Some(7);
    assert Part2(ExampleLines[1..]) == Some(8);
  }
}
