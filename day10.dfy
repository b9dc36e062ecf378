// Cathode-ray tube (src/day10.rs): a one-register CPU runs "noop" and
// "addx V" instructions; the X value recorded at each cycle drives both the
// signal-strength sum and the 6 x 40 pixel screen.
module Day10 {
  import opened Common

  datatype Instruction = NoOp | AddX(v: int)

  // ---------------------------------------------------------------------------
  // Reading an instruction line

  /** The text before the first space (the whole line when there is none). */
  function Word(s: string): (w: string)
    ensures |w| <= |s| && w == s[..|w|] && ' ' !in w
    ensures |w| < |s| ==> s[|w|] == ' '
  {
    if s == [] || s[0] == ' ' then [] else [s[0]] + Word(s[1..])
  }

  /** The text after the first space, if there is one. */
  function AfterWord(s: string): (r: Option<string>)
    ensures r.None? <==> ' ' !in s
    ensures r.Some? ==> s == Word(s) + [' '] + r.value
  {
    var w := Word(s);
    if |w| == |s| then None else Some(s[|w| + 1..])
  }

  /**
   * "addx" followed by a 32-bit number is AddX; "addx" with a bad or missing
   * number is refused (an error or, when there is no second word, a panic in
   * the program); every other line is NoOp.
   */
  function ParseInstruction(s: string): Option<Instruction>
  {
    if Word(s) == "addx" then
      match AfterWord(s)
      case None => None
      case Some(rest) =>
        match ParseI32(Word(rest))
        case None => None
        case Some(v) => Some(AddX(v))
    else Some(NoOp)
  }

  function FormatInstruction(i: Instruction): string
  {
    match i
    case NoOp => "noop"
    case AddX(v) => "addx " + IntToString(v)
  }

  /** Reading a rendered instruction gives it back. */
  lemma ParseOfFormat(i: Instruction)
    requires i.AddX? ==> I32Min <= i.v <= I32Max
    ensures ParseInstruction(FormatInstruction(i)) == Some(i)
  {
    if i.AddX? {
      var s := FormatInstruction(i);
      var n := IntToString(i.v);
      assert ' ' !in n;
      WordStops("addx", n);
      assert AfterWord(s) == Some(n);
      WordAll(n);
      ParseI32OfIntToString(i.v);
    } else {
      WordAll("noop");
    }
  }

  lemma {:induction false} WordStops(w: string, rest: string)
    requires ' ' !in w
    ensures Word(w + [' '] + rest) == w
  {
    if w != [] {
      assert (w + [' '] + rest)[1..] == w[1..] + [' '] + rest;
      WordStops(w[1..], rest);
    }
  }

  lemma {:induction false} WordAll(w: string)
    requires ' ' !in w
    ensures Word(w) == w
  {
    if w != [] {
      WordAll(w[1..]);
    }
  }

  /** Any line whose first word is not "addx" is a NoOp, whatever follows. */
  lemma OtherLinesAreNoOps(s: string)
    requires Word(s) != "addx"
    ensures ParseInstruction(s) == Some(NoOp)
  {
  }

  /** Every line of the program must parse (the program unwraps each one). */
  function ParseProgram(lines: seq<string>): (r: Option<seq<Instruction>>)
    ensures r.Some? <==> forall i :: 0 <= i < |lines| ==> ParseInstruction(lines[i]).Some?
    ensures r.Some? ==> |r.value| == |lines| && forall i :: 0 <= i < |lines| ==> Some(r.value[i]) == ParseInstruction(lines[i])
  {
    if lines == [] then Some([])
    else
      match ParseProgram(lines[..|lines| - 1])
      case None => None
      case Some(p) =>
        match ParseInstruction(lines[|lines| - 1])
        case None => None
        case Some(i) => Some(p + [i])
  }

  // ---------------------------------------------------------------------------
  // Cycles and the register trace

  /** The register change of each cycle an instruction takes. */
  function Steps(i: Instruction): (r: seq<int>)
    ensures i.NoOp? ==> r == [0]
    ensures i.AddX? ==> r == [0, i.v]
  {
    match i
    case NoOp => [0]
    case AddX(v) => [0, v]
  }

  /** The changes of all cycles of a program, in order. */
  function Changes(prog: seq<Instruction>): seq<int>
  {
    if prog == [] then [] else Changes(prog[..|prog| - 1]) + Steps(prog[|prog| - 1])
  }

  /** The value of X during cycle i + 1 (index i of the trace). */
  function XAt(changes: seq<int>, i: nat): int
    requires i <= |changes|
  {
    1 + Sum(changes[..i])
  }

  /**
   * The trace: one X value per cycle, then the "endstop" entry holding the
   * value after the last cycle.
   */
  method Trace(prog: seq<Instruction>) returns (xs: seq<int>)
    ensures |xs| == |Changes(prog)| + 1
    ensures forall i :: 0 <= i < |xs| ==> xs[i] == XAt(Changes(prog), i)
    ensures xs == TraceOf(prog)
  {
    var changes := Changes(prog);
    var curr := 1;
    xs := [];
    for i := 0 to |changes|
      invariant |xs| == i && curr == XAt(changes, i)
      invariant forall j :: 0 <= j < i ==> xs[j] == XAt(changes, j)
    {
      xs := xs + [curr];
      XAtStep(changes, i);
      curr := curr + changes[i];
    }
    xs := xs + [curr];
  }

  function TraceOf(prog: seq<Instruction>): (xs: seq<int>)
    ensures |xs| == |Changes(prog)| + 1
  {
    seq(|Changes(prog)| + 1, i requires 0 <= i <= |Changes(prog)| => XAt(Changes(prog), i))
  }

  /** Each cycle's change takes effect from the next cycle on. */
  lemma XAtStep(changes: seq<int>, i: nat)
    requires i < |changes|
    ensures XAt(changes, i + 1) == XAt(changes, i) + changes[i]
  {
    assert changes[..i + 1] == changes[..i] + [changes[i]];
    SumAppend(changes[..i], [changes[i]]);
  }

  lemma {:induction false} ChangesAppend(a: seq<Instruction>, b: seq<Instruction>)
    ensures Changes(a + b) == Changes(a) + Changes(b)
  {
    if b == [] {
      assert a + b == a;
    } else {
      assert (a + b)[..|a + b| - 1] == a + b[..|b| - 1];
      assert (a + b)[|a + b| - 1] == b[|b| - 1];
      ChangesAppend(a, b[..|b| - 1]);
    }
  }

  /** The operand of an instruction, 0 for NoOp. */
  function Delta(i: Instruction): int
  {
    if i.AddX? then i.v else 0
  }

  function Deltas(prog: seq<Instruction>): (r: seq<int>)
    ensures |r| == |prog| && forall k :: 0 <= k < |prog| ==> r[k] == Delta(prog[k])
  {
    seq(|prog|, k requires 0 <= k < |prog| => Delta(prog[k]))
  }

  /** A program of n noops and m addx instructions takes n + 2m cycles. */
  lemma {:induction false} CycleCount(prog: seq<Instruction>)
    ensures |Changes(prog)| == |prog| + |set k | 0 <= k < |prog| && prog[k].AddX?|
  {
    if prog != [] {
      var n := |prog| - 1;
      CycleCount(prog[..n]);
      var before := set k | 0 <= k < n && prog[..n][k].AddX?;
      var after := set k | 0 <= k < |prog| && prog[k].AddX?;
      if prog[n].AddX? {
        assert after == before + {n};
      } else {
        assert after == before;
      }
    }
  }

  /** The changes of a program sum to the sum of its addx operands. */
  lemma {:induction false} SumOfChanges(prog: seq<Instruction>)
    ensures Sum(Changes(prog)) == Sum(Deltas(prog))
  {
    if prog != [] {
      var n := |prog| - 1;
      SumOfChanges(prog[..n]);
      SumAppend(Changes(prog[..n]), Steps(prog[n]));
      assert Deltas(prog) == Deltas(prog[..n]) + [Delta(prog[n])];
      SumAppend(Deltas(prog[..n]), [Delta(prog[n])]);
    }
  }

  /**
   * Instruction k starts at cycle c + 1, c the number of cycles before it; X
   * then is 1 plus every earlier addx operand. A noop leaves X alone for the
   * next cycle; an addx keeps X for both of its cycles and adds its operand
   * after the second.
   */
  lemma InstructionTiming(prog: seq<Instruction>, k: nat)
    requires k < |prog|
    ensures var ch := Changes(prog); var c := |Changes(prog[..k])|;
      c + |Steps(prog[k])| <= |ch| &&
      XAt(ch, c) == 1 + Sum(Deltas(prog[..k])) &&
      (prog[k].NoOp? ==> XAt(ch, c + 1) == XAt(ch, c)) &&
      (prog[k].AddX? ==> XAt(ch, c + 1) == XAt(ch, c) && XAt(ch, c + 2) == XAt(ch, c) + prog[k].v)
  {
    var ch := Changes(prog);
    var pre := Changes(prog[..k]);
    assert prog == prog[..k] + ([prog[k]] + prog[k + 1..]);
    ChangesAppend(prog[..k], [prog[k]] + prog[k + 1..]);
    ChangesAppend([prog[k]], prog[k + 1..]);
    assert Changes([prog[k]]) == Steps(prog[k]);
    var c := |pre|;
    assert ch[..c] == pre;
    SumOfChanges(prog[..k]);
    XAtStep(ch, c);
    assert ch[c] == 0;
    if prog[k].AddX? {
      XAtStep(ch, c + 1);
      assert ch[c + 1] == prog[k].v;
    }
  }

  // ---------------------------------------------------------------------------
  // Part 1: signal strength

  /** Cycle numbers 20, 60, ..., 220 at which the signal is sampled. */
  const Checkpoints: seq<int> := [20, 60, 100, 140, 180, 220]

  /** Sum of s * X(s) over the first n trace entries whose cycle s is 20 modulo 40. */
  function Signal(xs: seq<int>, n: nat): int
    requires n <= |xs|
  {
    if n == 0 then 0
    else Signal(xs, n - 1) + (if n % 40 == 20 then n * xs[n - 1] else 0)
  }

  /** The program's sum: the first 221 trace entries at most, sampled every 40 cycles from 20. */
  function SignalStrength(xs: seq<int>): int
  {
    Signal(xs, if |xs| < 221 then |xs| else 221)
  }

  /** Reference: the sum of c * X(c) over the checkpoints c among the first n cycles. */
  function Sampled(xs: seq<int>, n: nat, cs: seq<int>): int
    requires n <= |xs|
    requires forall j :: 0 <= j < |cs| ==> cs[j] > 0
  {
    if cs == [] then 0
    else (if cs[0] <= n then cs[0] * xs[cs[0] - 1] else 0) + Sampled(xs, n, cs[1..])
  }

  lemma {:induction false} SampledStep(xs: seq<int>, n: nat, cs: seq<int>)
    requires n < |xs|
    requires forall j :: 0 <= j < |cs| ==> cs[j] > 0
    requires forall j, l :: 0 <= j < l < |cs| ==> cs[j] < cs[l]
    ensures Sampled(xs, n + 1, cs) == Sampled(xs, n, cs) + (if n + 1 in cs then (n + 1) * xs[n] else 0)
  {
    if cs != [] {
      SampledStep(xs, n, cs[1..]);
      if cs[0] == n + 1 {
        assert n + 1 !in cs[1..];
      }
    }
  }

  lemma {:induction false} SampledBeforeAll(xs: seq<int>, cs: seq<int>)
    requires forall j :: 0 <= j < |cs| ==> cs[j] > 0
    ensures Sampled(xs, 0, cs) == 0
  {
    if cs != [] {
      SampledBeforeAll(xs, cs[1..]);
    }
  }

  lemma CheckpointCycles(s: int)
    requires 0 < s <= 221
    ensures s % 40 == 20 <==> s in Checkpoints
  {
    if s % 40 == 20 {
      var q := s / 40;
      assert s == 40 * q + 20;
      assert 0 <= q <= 5;
      assert s == Checkpoints[q];
    }
  }

  lemma {:induction false} SignalIsSampled(xs: seq<int>, n: nat)
    requires n <= |xs| && n <= 221
    ensures Signal(xs, n) == Sampled(xs, n, Checkpoints)
  {
    if n > 0 {
      SignalIsSampled(xs, n - 1);
      assert forall j :: 0 <= j < |Checkpoints| ==> Checkpoints[j] > 0;
      assert forall j, l :: 0 <= j < l < |Checkpoints| ==> Checkpoints[j] < Checkpoints[l];
      SampledStep(xs, n - 1, Checkpoints);
      CheckpointCycles(n);
    } else {
      SampledBeforeAll(xs, Checkpoints);
    }
  }

  /**
   * Part 1: the sum of c * X(c) over the cycles c = 20, 60, ..., 220 that the
   * trace reaches; every line must parse.
   */
  method Part1(lines: seq<string>) returns (strength: int)
    requires ParseProgram(lines).Some?
    ensures var xs := TraceOf(ParseProgram(lines).value);
      strength == Sampled(xs, if |xs| < 221 then |xs| else 221, Checkpoints)
  {
    var prog := ParseProgram(lines).value;
    var xs := Trace(prog);
    strength := SignalStrength(xs);
    SignalIsSampled(xs, if |xs| < 221 then |xs| else 221);
  }

  // ---------------------------------------------------------------------------
  // Part 2: the screen

  /** Pixel (y, x) is lit when the 3-wide sprite centred on X covers column x. */
  function Pixel(xs: seq<int>, y: nat, x: nat): char
    requires y < 6 && x < 40 && |xs| >= 240
  {
    var sprite := xs[y * 40 + x];
    if x - 1 <= sprite <= x + 1 then '#' else '.'
  }

  function Row(xs: seq<int>, y: nat): (r: string)
    requires y < 6 && |xs| >= 240
    ensures |r| == 40 && forall x :: 0 <= x < 40 ==> r[x] == Pixel(xs, y, x)
  {
    seq(40, x requires 0 <= x < 40 => Pixel(xs, y, x))
  }

  /** The rows joined by newlines. */
  function JoinLines(rows: seq<string>): string
  {
    if rows == [] then []
    else if |rows| == 1 then rows[0]
    else JoinLines(rows[..|rows| - 1]) + "\n" + rows[|rows| - 1]
  }

  function Screen(xs: seq<int>): string
    requires |xs| >= 240
  {
    JoinLines(seq(6, y requires 0 <= y < 6 => Row(xs, y)))
  }

  predicate Rows40(rows: seq<string>)
  {
    forall y :: 0 <= y < |rows| ==> |rows[y]| == 40
  }

  lemma {:induction false} JoinLength(rows: seq<string>)
    requires rows != [] && Rows40(rows)
    ensures |JoinLines(rows)| == 41 * |rows| - 1
  {
    if |rows| > 1 {
      JoinLength(rows[..|rows| - 1]);
    }
  }

  /** Rows of 40 characters joined by newlines: row y starts at 41 * y. */
  lemma {:induction false} JoinAt(rows: seq<string>, y: nat, x: nat)
    requires Rows40(rows) && y < |rows| && x < 40
    ensures 41 * y + x < |JoinLines(rows)| && JoinLines(rows)[41 * y + x] == rows[y][x]
  {
    JoinLength(rows);
    var n := |rows| - 1;
    if n > 0 {
      JoinLength(rows[..n]);
      if y < n {
        JoinAt(rows[..n], y, x);
      }
    }
  }

  lemma {:induction false} JoinNewline(rows: seq<string>, y: nat)
    requires Rows40(rows) && y + 1 < |rows|
    ensures 41 * y + 40 < |JoinLines(rows)| && JoinLines(rows)[41 * y + 40] == '\n'
  {
    JoinLength(rows);
    var n := |rows| - 1;
    JoinLength(rows[..n]);
    if y + 1 < n {
      JoinNewline(rows[..n], y);
    }
  }

  /** The screen is 6 rows of 40 pixels separated by newlines. */
  lemma ScreenLayout(xs: seq<int>)
    requires |xs| >= 240
    ensures |Screen(xs)| == 245
    ensures forall y, x :: 0 <= y < 6 && 0 <= x < 40 ==> Screen(xs)[41 * y + x] == Pixel(xs, y, x)
    ensures forall y :: 0 <= y < 5 ==> Screen(xs)[41 * y + 40] == '\n'
  {
    var rows := seq(6, y requires 0 <= y < 6 => Row(xs, y));
    JoinLength(rows);
    forall y, x | 0 <= y < 6 && 0 <= x < 40 ensures Screen(xs)[41 * y + x] == Pixel(xs, y, x) {
      JoinAt(rows, y, x);
    }
    forall y | 0 <= y < 5 ensures Screen(xs)[41 * y + 40] == '\n' {
      JoinNewline(rows, y);
    }
  }

  /** Draws the pixels of a trace of at least 240 cycles and joins the rows. */
  method Render(xs: seq<int>) returns (out: string)
    requires |xs| >= 240
    ensures out == Screen(xs)
  {
    var screen := new char[6, 40]((_, _) => '.');
    for y := 0 to 6
      invariant forall r, x :: 0 <= r < 6 && 0 <= x < 40 ==> screen[r, x] == if r < y then Pixel(xs, r, x) else '.'
    {
      for x := 0 to 40
        invariant forall r, c :: 0 <= r < 6 && 0 <= c < 40 ==>
          screen[r, c] == if r < y || (r == y && c < x) then Pixel(xs, r, c) else '.'
      {
        var idx := y * 40 + x;
        var crsrPos := xs[idx];
        if crsrPos >= x - 1 && crsrPos <= x + 1 {
          screen[y, x] := '#';
        }
      }
    }
    ghost var rows := seq(6, y requires 0 <= y < 6 => Row(xs, y));
    out := [];
    for y := 0 to 6
      invariant out == JoinLines(rows[..y])
    {
      var line := seq(40, x requires 0 <= x < 40 reads screen => screen[y, x]);
      assert line == rows[y];
      assert rows[..y + 1][..y] == rows[..y];
      out := if y == 0 then line else out + "\n" + line;
    }
    assert rows[..6] == rows;
  }

  /** Part 2: the screen drawn from the program's trace, which must cover 240 cycles. */
  method Part2(lines: seq<string>) returns (out: string)
    requires ParseProgram(lines).Some? && |Changes(ParseProgram(lines).value)| >= 239
    ensures out == Screen(TraceOf(ParseProgram(lines).value))
  {
    var prog := ParseProgram(lines).value;
    var xs := Trace(prog);
    out := Render(xs);
  }
}
