// Monkey in the middle (src/day11.rs): monkeys pass worry values around in
// rounds. Each monkey in turn inspects every item it holds, applies its
// operation, and throws the item to one of two monkeys depending on a
// divisibility test. The answer is the product of the two largest
// inspection counts.
module Day11 {
  import opened Common

  datatype Operand = Old | Num(n: nat)

  datatype Operation = Plus(left: Operand, right: Operand) | Mul(left: Operand, right: Operand)

  /** A parsed monkey; idx is the number in its header line. */
  datatype Monkey = Monkey(idx: nat, startingItems: seq<nat>, op: Operation, modulo: nat, onTrue: nat, onFalse: nat)

  /** The only operation shapes the simulation evaluates: "old" on the left. */
  predicate Supported(op: Operation)
  {
    op.left == Old
  }

  /** The new worry value of an item with worry w. */
  function Evaluate(op: Operation, w: nat): nat
    requires Supported(op)
  {
    match op
    case Plus(_, Num(x)) => w + x
    case Plus(_, Old) => w + w
    case Mul(_, Num(x)) => w * x
    case Mul(_, Old) => w * w
  }

  /**
   * What happens to the new worry value v: part 1 divides it by 3 before the
   * test; part 2 tests v and stores it reduced modulo m; Exact keeps v, the
   * unbounded reference run that part 2 stands for.
   */
  datatype Relief = DivThree | Reduce(m: int) | Exact

  function Relieved(v: nat, relief: Relief): nat
  {
    if relief.DivThree? then v / 3 else v
  }

  function Stored(v: nat, relief: Relief): nat
    requires relief.Reduce? ==> relief.m > 0
  {
    match relief
    case DivThree => v / 3
    case Reduce(m) => v % m
    case Exact => v
  }

  /** Every monkey can be simulated: supported operation, nonzero divisor, existing targets. */
  predicate ValidMonkeys(ms: seq<Monkey>, relief: Relief)
  {
    (relief.Reduce? ==> relief.m > 0) &&
    forall i :: 0 <= i < |ms| ==>
      Supported(ms[i].op) && ms[i].modulo > 0 && ms[i].onTrue < |ms| && ms[i].onFalse < |ms|
  }

  /** The monkey that monkey idx throws an item of worry w to. */
  function Target(ms: seq<Monkey>, idx: nat, relief: Relief, w: nat): (t: nat)
    requires idx < |ms| && ValidMonkeys(ms, relief)
    ensures t < |ms|
  {
    var v := Evaluate(ms[idx].op, w);
    if Relieved(v, relief) % ms[idx].modulo == 0 then ms[idx].onTrue else ms[idx].onFalse
  }

  /** Monkey idx throws an item of worry w: it goes to the end of the target's list. */
  function Throw(ms: seq<Monkey>, idx: nat, relief: Relief, items: seq<seq<nat>>, w: nat): (r: seq<seq<nat>>)
    requires idx < |ms| == |items| && ValidMonkeys(ms, relief)
    ensures |r| == |items|
  {
    var t := Target(ms, idx, relief, w);
    items[t := items[t] + [Stored(Evaluate(ms[idx].op, w), relief)]]
  }

  /** Monkey idx throws the items ws, first to last. */
  function ThrowAll(ms: seq<Monkey>, idx: nat, relief: Relief, items: seq<seq<nat>>, ws: seq<nat>): (r: seq<seq<nat>>)
    requires idx < |ms| == |items| && ValidMonkeys(ms, relief)
    ensures |r| == |items|
  {
    if ws == [] then items
    else Throw(ms, idx, relief, ThrowAll(ms, idx, relief, items, ws[..|ws| - 1]), ws[|ws| - 1])
  }

  /** The items each monkey holds and how many items each has inspected. */
  datatype State = State(items: seq<seq<nat>>, counts: seq<nat>)

  predicate Shaped(ms: seq<Monkey>, st: State)
  {
    |st.items| == |ms| == |st.counts|
  }

  /** The turn of monkey idx: it inspects and throws everything it held at the start. */
  function Turn(ms: seq<Monkey>, idx: nat, relief: Relief, st: State): (r: State)
    requires idx < |ms| && Shaped(ms, st) && ValidMonkeys(ms, relief)
    ensures Shaped(ms, r)
  {
    var ws := st.items[idx];
    State(ThrowAll(ms, idx, relief, st.items[idx := []], ws), st.counts[idx := st.counts[idx] + |ws|])
  }

  /** The turns of monkeys 0 .. n-1 in order. */
  function Turns(ms: seq<Monkey>, relief: Relief, st: State, n: nat): (r: State)
    requires n <= |ms| && Shaped(ms, st) && ValidMonkeys(ms, relief)
    ensures Shaped(ms, r)
  {
    if n == 0 then st else Turn(ms, n - 1, relief, Turns(ms, relief, st, n - 1))
  }

  function Round(ms: seq<Monkey>, relief: Relief, st: State): (r: State)
    requires Shaped(ms, st) && ValidMonkeys(ms, relief)
    ensures Shaped(ms, r)
  {
    Turns(ms, relief, st, |ms|)
  }

  function Rounds(ms: seq<Monkey>, relief: Relief, st: State, k: nat): (r: State)
    requires Shaped(ms, st) && ValidMonkeys(ms, relief)
    ensures Shaped(ms, r)
  {
    if k == 0 then st else Round(ms, relief, Rounds(ms, relief, st, k - 1))
  }

  /** Every monkey holds its starting items and has inspected nothing. */
  function Initial(ms: seq<Monkey>): (st: State)
    ensures Shaped(ms, st)
  {
    State(seq(|ms|, i requires 0 <= i < |ms| => ms[i].startingItems), seq(|ms|, _ => 0))
  }

  /** The product of the two largest counts (of all of them when there are fewer). */
  function MonkeyBusiness(counts: seq<nat>): int
  {
    var s := SortDesc(counts);
    Product(s[..if |s| < 2 then |s| else 2])
  }

  function Moduli(ms: seq<Monkey>): (r: seq<int>)
    ensures |r| == |ms| && forall i :: 0 <= i < |ms| ==> r[i] == ms[i].modulo
  {
    seq(|ms|, i requires 0 <= i < |ms| => ms[i].modulo)
  }

  // ---------------------------------------------------------------------------
  // The simulation

  /** The turn of monkey idx, on the item lists and counts in place. */
  method TakeTurn(ms: seq<Monkey>, idx: nat, relief: Relief, items: array<seq<nat>>, counts: array<nat>)
    requires idx < |ms| == items.Length == counts.Length && ValidMonkeys(ms, relief)
    modifies items, counts
    ensures State(items[..], counts[..]) == Turn(ms, idx, relief, old(State(items[..], counts[..])))
  {
    var ws := items[idx];
    counts[idx] := counts[idx] + |ws|;
    items[idx] := [];
    ghost var start := items[..];
    assert start == old(items[..])[idx := []];
    assert counts[..] == old(counts[..])[idx := old(counts[idx]) + |ws|];
    for i := 0 to |ws|
      invariant items[..] == ThrowAll(ms, idx, relief, start, ws[..i])
      invariant counts[..] == old(counts[..])[idx := old(counts[idx]) + |ws|]
    {
      var w := ws[i];
      var v := Evaluate(ms[idx].op, w);
      var passTo := if Relieved(v, relief) % ms[idx].modulo == 0 then ms[idx].onTrue else ms[idx].onFalse;
      items[passTo] := items[passTo] + [Stored(v, relief)];
      assert ws[..i + 1][..i] == ws[..i];
    }
    assert ws[..|ws|] == ws;
  }

  /** One round: every monkey takes its turn, in index order. */
  method PlayRound(ms: seq<Monkey>, relief: Relief, items: array<seq<nat>>, counts: array<nat>)
    requires |ms| == items.Length == counts.Length && ValidMonkeys(ms, relief)
    modifies items, counts
    ensures State(items[..], counts[..]) == Round(ms, relief, old(State(items[..], counts[..])))
  {
    for idx := 0 to |ms|
      invariant State(items[..], counts[..]) == Turns(ms, relief, old(State(items[..], counts[..])), idx)
    {
      TakeTurn(ms, idx, relief, items, counts);
    }
  }

  /** The inspection counts after the given number of rounds from the starting items. */
  method Simulate(ms: seq<Monkey>, relief: Relief, rounds: nat) returns (result: seq<nat>)
    requires ValidMonkeys(ms, relief)
    ensures result == Rounds(ms, relief, Initial(ms), rounds).counts
  {
    var items := new seq<nat>[|ms|](i requires 0 <= i < |ms| => ms[i].startingItems);
    var counts := new nat[|ms|](_ => 0);
    assert State(items[..], counts[..]) == Initial(ms);
    for r := 0 to rounds
      invariant State(items[..], counts[..]) == Rounds(ms, relief, Initial(ms), r)
    {
      PlayRound(ms, relief, items, counts);
    }
    result := counts[..];
  }

  /** Part 1: 20 rounds, worry divided by 3 after each inspection. */
  method Part1(ms: seq<Monkey>) returns (business: int)
    requires ValidMonkeys(ms, DivThree)
    ensures business == MonkeyBusiness(Rounds(ms, DivThree, Initial(ms), 20).counts)
  {
    var counts := Simulate(ms, DivThree, 20);
    business := MonkeyBusiness(counts);
  }

  /**
   * Part 2: 10000 rounds, worry kept modulo the product of all divisors; the
   * result is that of the exact, unbounded simulation.
   */
  method Part2(ms: seq<Monkey>) returns (business: int)
    requires ValidMonkeys(ms, Exact)
    ensures ValidMonkeys(ms, Reduce(Product(Moduli(ms))))
    ensures business == MonkeyBusiness(Rounds(ms, Reduce(Product(Moduli(ms))), Initial(ms), 10000).counts)
    ensures business == MonkeyBusiness(Rounds(ms, Exact, Initial(ms), 10000).counts)
  {
    var modulo := Product(Moduli(ms));
    ProductOfModuliPositive(ms, |ms|);
    assert Moduli(ms)[..|ms|] == Moduli(ms);
    var counts := Simulate(ms, Reduce(modulo), 10000);
    ReducedRoundsAgree(ms, modulo, Initial(ms), 10000);
    business := MonkeyBusiness(counts);
  }

  // ---------------------------------------------------------------------------
  // A turn, item by item

  /** Throwing moves the item to the end of one list and touches no other. */
  lemma ThrowAppends(ms: seq<Monkey>, idx: nat, relief: Relief, items: seq<seq<nat>>, w: nat)
    requires idx < |ms| == |items| && ValidMonkeys(ms, relief)
    ensures var v := Evaluate(ms[idx].op, w);
      var t := if Relieved(v, relief) % ms[idx].modulo == 0 then ms[idx].onTrue else ms[idx].onFalse;
      var r := Throw(ms, idx, relief, items, w);
      r[t] == items[t] + [Stored(v, relief)] && forall i :: 0 <= i < |items| && i != t ==> r[i] == items[i]
  {
  }

  /** The total number of items held. */
  function Total(items: seq<seq<nat>>): nat
  {
    if items == [] then 0 else Total(items[..|items| - 1]) + |items[|items| - 1]|
  }

  lemma {:induction false} TotalUpdate(items: seq<seq<nat>>, i: int, s: seq<nat>)
    requires 0 <= i < |items|
    ensures Total(items[i := s]) + |items[i]| == Total(items) + |s|
  {
    var last := |items| - 1;
    if i < last {
      assert items[i := s][..last] == items[..last][i := s];
      TotalUpdate(items[..last], i, s);
    } else {
      assert items[i := s][..last] == items[..last];
    }
  }

  lemma {:induction false} ThrowAllAdds(ms: seq<Monkey>, idx: nat, relief: Relief, items: seq<seq<nat>>, ws: seq<nat>)
    requires idx < |ms| == |items| && ValidMonkeys(ms, relief)
    ensures Total(ThrowAll(ms, idx, relief, items, ws)) == Total(items) + |ws|
  {
    if ws != [] {
      var before := ThrowAll(ms, idx, relief, items, ws[..|ws| - 1]);
      ThrowAllAdds(ms, idx, relief, items, ws[..|ws| - 1]);
      var t := Target(ms, idx, relief, ws[|ws| - 1]);
      TotalUpdate(before, t, before[t] + [Stored(Evaluate(ms[idx].op, ws[|ws| - 1]), relief)]);
    }
  }

  /**
   * A turn adds the number of items the monkey held to its count, leaves the
   * other counts alone, and keeps the number of items in play.
   */
  lemma TurnAccounts(ms: seq<Monkey>, idx: nat, relief: Relief, st: State)
    requires idx < |ms| && Shaped(ms, st) && ValidMonkeys(ms, relief)
    ensures var r := Turn(ms, idx, relief, st);
      r.counts[idx] == st.counts[idx] + |st.items[idx]| &&
      (forall i :: 0 <= i < |ms| && i != idx ==> r.counts[i] == st.counts[i]) &&
      Total(r.items) == Total(st.items)
  {
    TotalUpdate(st.items, idx, []);
    ThrowAllAdds(ms, idx, relief, st.items[idx := []], st.items[idx]);
  }

  lemma TurnKeepsTotal(ms: seq<Monkey>, idx: nat, relief: Relief, st: State)
    requires idx < |ms| && Shaped(ms, st) && ValidMonkeys(ms, relief)
    ensures Total(Turn(ms, idx, relief, st).items) == Total(st.items)
  {
    TurnAccounts(ms, idx, relief, st);
  }

  /** A monkey that never throws to itself ends its turn empty-handed. */
  lemma {:induction false} ThrowAllSkips(ms: seq<Monkey>, idx: nat, relief: Relief, items: seq<seq<nat>>, ws: seq<nat>, j: nat)
    requires idx < |ms| == |items| && ValidMonkeys(ms, relief) && j < |items|
    requires ms[idx].onTrue != j && ms[idx].onFalse != j
    ensures ThrowAll(ms, idx, relief, items, ws)[j] == items[j]
  {
    if ws != [] {
      ThrowAllSkips(ms, idx, relief, items, ws[..|ws| - 1], j);
    }
  }

  lemma TurnEmpties(ms: seq<Monkey>, idx: nat, relief: Relief, st: State)
    requires idx < |ms| && Shaped(ms, st) && ValidMonkeys(ms, relief)
    requires ms[idx].onTrue != idx && ms[idx].onFalse != idx
    ensures Turn(ms, idx, relief, st).items[idx] == []
  {
    ThrowAllSkips(ms, idx, relief, st.items[idx := []], st.items[idx], idx);
  }

  /** No item is created or lost over any number of rounds. */
  lemma {:induction false} RoundsConserve(ms: seq<Monkey>, relief: Relief, st: State, k: nat)
    requires Shaped(ms, st) && ValidMonkeys(ms, relief)
    ensures Total(Rounds(ms, relief, st, k).items) == Total(st.items)
  {
    if k > 0 {
      RoundsConserve(ms, relief, st, k - 1);
      TurnsConserve(ms, relief, Rounds(ms, relief, st, k - 1), |ms|);
    }
  }

  lemma {:induction false} TurnsConserve(ms: seq<Monkey>, relief: Relief, st: State, n: nat)
    requires n <= |ms| && Shaped(ms, st) && ValidMonkeys(ms, relief)
    ensures Total(Turns(ms, relief, st, n).items) == Total(st.items)
  {
    if n > 0 {
      var prev := Turns(ms, relief, st, n - 1);
      TurnsConserve(ms, relief, st, n - 1);
      TurnKeepsTotal(ms, n - 1, relief, prev);
      assert Turns(ms, relief, st, n).items == Turn(ms, n - 1, relief, prev).items;
    }
  }

  // ---------------------------------------------------------------------------
  // Why part 2 may reduce modulo the product of the divisors

  /** (k * m + r) % m == r % m. */
  lemma ModAddMultiple(k: int, m: int, r: int)
    requires m > 0
    ensures (k * m + r) % m == r % m
  {
    var q1 := (k * m + r) / m;
    var q2 := r / m;
    assert (k * m + r) % m == k * m + r - m * q1;
    assert r % m == r - m * q2;
    var d := (k * m + r) % m - r % m;
    assert d == m * (k - q1 + q2);
    if k - q1 + q2 > 0 {
      MulAtLeast(m, k - q1 + q2);
    } else if k - q1 + q2 < 0 {
      MulAtLeast(m, q1 - q2 - k);
    }
  }

  lemma MulAtLeast(m: int, c: int)
    requires m > 0 && c >= 1
    ensures m * c >= m
  {
  }

  /** Values that differ by a multiple of m are congruent modulo m. */
  lemma CongruentByMultiple(x: int, y: int, k: int, m: int)
    requires m > 0 && x == y + k * m
    ensures x % m == y % m
  {
    ModAddMultiple(k, m, y);
  }

  /** Congruent values differ by a multiple of m. */
  lemma CongruentDifference(a: int, b: int, m: int)
    requires m > 0 && a % m == b % m
    ensures a == b + (a / m - b / m) * m
  {
    assert a == m * (a / m) + a % m && b == m * (b / m) + b % m;
    assert (a / m - b / m) * m == m * (a / m) - m * (b / m);
  }

  lemma SumCongruent(a: int, b: int, c: int, d: int, m: int)
    requires m > 0 && a % m == b % m && c % m == d % m
    ensures (a + c) % m == (b + d) % m
  {
    var k, l := a / m - b / m, c / m - d / m;
    CongruentDifference(a, b, m);
    CongruentDifference(c, d, m);
    assert a + c == b + d + (k + l) * m;
    CongruentByMultiple(a + c, b + d, k + l, m);
  }

  lemma ProductCongruent(a: int, b: int, c: int, d: int, m: int)
    requires m > 0 && a % m == b % m && c % m == d % m
    ensures (a * c) % m == (b * d) % m
  {
    var k, l := a / m - b / m, c / m - d / m;
    CongruentDifference(a, b, m);
    CongruentDifference(c, d, m);
    MulOfSum(c, b, k, m);
    CongruentByMultiple(a * c, b * c, k * c, m);
    MulOfSum(b, d, l, m);
    CongruentByMultiple(b * c, b * d, b * l, m);
  }

  /** x * (y + z * m) == x * y + (x * z) * m. */
  lemma MulOfSum(x: int, y: int, z: int, m: int)
    ensures x * (y + z * m) == x * y + (x * z) * m
    ensures (y + z * m) * x == y * x + (z * x) * m
  {
    assert x * (y + z * m) == x * y + x * (z * m);
    assert x * (z * m) == (x * z) * m;
  }

  /** Congruent values stay congruent through the operation. */
  lemma EvaluateCongruent(op: Operation, a: nat, b: nat, m: int)
    requires Supported(op) && m > 0 && a % m == b % m
    ensures Evaluate(op, a) % m == Evaluate(op, b) % m
  {
    match op {
      case Plus(_, Num(x)) => SumCongruent(a, b, x, x, m);
      case Plus(_, Old) => SumCongruent(a, b, a, b, m);
      case Mul(_, Num(x)) => ProductCongruent(a, b, x, x, m);
      case Mul(_, Old) => ProductCongruent(a, b, a, b, m);
    }
  }

  /** Values congruent modulo m agree on divisibility by every divisor d of m. */
  lemma DivisorTestAgrees(a: int, b: int, m: int, d: int)
    requires d > 0 && m > 0 && m % d == 0 && a % m == b % m
    ensures a % d == 0 <==> b % d == 0
  {
    var c := m / d;
    var k := a / m - b / m;
    assert m == d * c;
    CongruentDifference(a, b, m);
    assert k * m == (k * c) * d;
    CongruentByMultiple(a, b, k * c, d);
  }

  lemma ModIdempotent(v: int, m: int)
    requires m > 0
    ensures (v % m) % m == v % m
  {
    ModAddMultiple(v / m, m, v % m);
    assert (v / m) * m + v % m == v;
  }

  /** Every modulus divides the product of all of them. */
  lemma {:induction false} ProductFactor(s: seq<int>, i: nat)
    requires i < |s|
    ensures Product(s) == s[i] * Product(s[..i] + s[i + 1..])
  {
    if i == 0 {
      assert s[..0] + s[1..] == s[1..];
    } else {
      ProductFactor(s[1..], i - 1);
      assert s[..i] + s[i + 1..] == [s[0]] + (s[1..][..i - 1] + s[1..][i..]);
      var rest := Product(s[1..][..i - 1] + s[1..][i..]);
      assert Product(s) == s[0] * (s[i] * rest);
      assert s[0] * (s[i] * rest) == s[i] * (s[0] * rest);
    }
  }

  lemma {:induction false} ProductOfModuliPositive(ms: seq<Monkey>, n: nat)
    requires n <= |ms| && ValidMonkeys(ms, Exact)
    ensures Product(Moduli(ms)[..n]) > 0
  {
    if n > 0 {
      var s := Moduli(ms)[..n];
      ProductOfModuliPositive(ms, n - 1);
      ProductFactor(s, n - 1);
      assert s[..n - 1] + s[n..] == Moduli(ms)[..n - 1];
      assert s[n - 1] > 0;
    }
  }

  /**
   * Two states that agree on the counts and hold, list by list, the same
   * number of items with values congruent modulo m.
   */
  ghost predicate Congruent(a: seq<seq<nat>>, b: seq<seq<nat>>, m: int)
    requires m > 0
  {
    |a| == |b| && forall i :: 0 <= i < |a| ==> |a[i]| == |b[i]| && forall j :: 0 <= j < |a[i]| ==> a[i][j] % m == b[i][j] % m
  }

  ghost predicate CongruentSeq(a: seq<nat>, b: seq<nat>, m: int)
    requires m > 0
  {
    |a| == |b| && forall j :: 0 <= j < |a| ==> a[j] % m == b[j] % m
  }

  /** Appending congruent values to the same list keeps two states congruent. */
  lemma AppendCongruent(a: seq<seq<nat>>, b: seq<seq<nat>>, t: nat, x: nat, y: nat, m: int)
    requires m > 0 && Congruent(a, b, m) && t < |a| && x % m == y % m
    ensures Congruent(a[t := a[t] + [x]], b[t := b[t] + [y]], m)
  {
    var ra, rb := a[t := a[t] + [x]], b[t := b[t] + [y]];
    forall i | 0 <= i < |ra|
      ensures |ra[i]| == |rb[i]| && forall j :: 0 <= j < |ra[i]| ==> ra[i][j] % m == rb[i][j] % m
    {
      if i == t {
        forall j | 0 <= j < |ra[i]| ensures ra[i][j] % m == rb[i][j] % m {
          if j < |a[t]| {
            assert ra[i][j] == a[t][j] && rb[i][j] == b[t][j];
          }
        }
      }
    }
  }

  /** The reduced and the exact throw of congruent items go to the same monkey. */
  lemma ThrowCongruent(ms: seq<Monkey>, idx: nat, m: int, a: seq<seq<nat>>, b: seq<seq<nat>>, wa: nat, wb: nat)
    requires idx < |ms| == |a| && m > 0 && ValidMonkeys(ms, Reduce(m)) && ValidMonkeys(ms, Exact)
    requires forall i :: 0 <= i < |ms| ==> m % ms[i].modulo == 0
    requires Congruent(a, b, m) && wa % m == wb % m
    ensures Target(ms, idx, Reduce(m), wa) == Target(ms, idx, Exact, wb)
    ensures Congruent(Throw(ms, idx, Reduce(m), a, wa), Throw(ms, idx, Exact, b, wb), m)
  {
    var va := Evaluate(ms[idx].op, wa);
    var vb := Evaluate(ms[idx].op, wb);
    EvaluateCongruent(ms[idx].op, wa, wb, m);
    DivisorTestAgrees(va, vb, m, ms[idx].modulo);
    ModIdempotent(va, m);
    AppendCongruent(a, b, Target(ms, idx, Exact, wb), va % m, vb, m);
  }

  lemma {:induction false} ThrowAllCongruent(ms: seq<Monkey>, idx: nat, m: int, a: seq<seq<nat>>, b: seq<seq<nat>>, wa: seq<nat>, wb: seq<nat>)
    requires idx < |ms| == |a| && m > 0 && ValidMonkeys(ms, Reduce(m)) && ValidMonkeys(ms, Exact)
    requires forall i :: 0 <= i < |ms| ==> m % ms[i].modulo == 0
    requires Congruent(a, b, m) && CongruentSeq(wa, wb, m)
    ensures Congruent(ThrowAll(ms, idx, Reduce(m), a, wa), ThrowAll(ms, idx, Exact, b, wb), m)
  {
    if wa != [] {
      var n := |wa| - 1;
      ThrowAllCongruent(ms, idx, m, a, b, wa[..n], wb[..n]);
      ThrowCongruent(ms, idx, m, ThrowAll(ms, idx, Reduce(m), a, wa[..n]), ThrowAll(ms, idx, Exact, b, wb[..n]), wa[n], wb[n]);
    }
  }

  lemma TurnCongruent(ms: seq<Monkey>, idx: nat, m: int, a: State, b: State)
    requires idx < |ms| && Shaped(ms, a) && Shaped(ms, b) && m > 0
    requires ValidMonkeys(ms, Reduce(m)) && ValidMonkeys(ms, Exact)
    requires forall i :: 0 <= i < |ms| ==> m % ms[i].modulo == 0
    requires a.counts == b.counts && Congruent(a.items, b.items, m)
    ensures Turn(ms, idx, Reduce(m), a).counts == Turn(ms, idx, Exact, b).counts
    ensures Congruent(Turn(ms, idx, Reduce(m), a).items, Turn(ms, idx, Exact, b).items, m)
  {
    var ea := a.items[idx := []];
    var eb := b.items[idx := []];
    assert Congruent(ea, eb, m);
    assert CongruentSeq(a.items[idx], b.items[idx], m);
    ThrowAllCongruent(ms, idx, m, ea, eb, a.items[idx], b.items[idx]);
  }

  lemma {:induction false} TurnsCongruent(ms: seq<Monkey>, n: nat, m: int, a: State, b: State)
    requires n <= |ms| && Shaped(ms, a) && Shaped(ms, b) && m > 0
    requires ValidMonkeys(ms, Reduce(m)) && ValidMonkeys(ms, Exact)
    requires forall i :: 0 <= i < |ms| ==> m % ms[i].modulo == 0
    requires a.counts == b.counts && Congruent(a.items, b.items, m)
    ensures Turns(ms, Reduce(m), a, n).counts == Turns(ms, Exact, b, n).counts
    ensures Congruent(Turns(ms, Reduce(m), a, n).items, Turns(ms, Exact, b, n).items, m)
  {
    if n > 0 {
      TurnsCongruent(ms, n - 1, m, a, b);
      TurnCongruent(ms, n - 1, m, Turns(ms, Reduce(m), a, n - 1), Turns(ms, Exact, b, n - 1));
    }
  }

  lemma {:induction false} RoundsCongruent(ms: seq<Monkey>, k: nat, m: int, st: State)
    requires Shaped(ms, st) && m > 0
    requires ValidMonkeys(ms, Reduce(m)) && ValidMonkeys(ms, Exact)
    requires forall i :: 0 <= i < |ms| ==> m % ms[i].modulo == 0
    ensures Rounds(ms, Reduce(m), st, k).counts == Rounds(ms, Exact, st, k).counts
    ensures Congruent(Rounds(ms, Reduce(m), st, k).items, Rounds(ms, Exact, st, k).items, m)
  {
    if k > 0 {
      RoundsCongruent(ms, k - 1, m, st);
      TurnsCongruent(ms, |ms|, m, Rounds(ms, Reduce(m), st, k - 1), Rounds(ms, Exact, st, k - 1));
    }
  }

  /**
   * Keeping every worry value modulo the product of the divisors changes no
   * throw, so the inspection counts are those of the exact run.
   */
  lemma ReducedRoundsAgree(ms: seq<Monkey>, m: int, st: State, k: nat)
    requires Shaped(ms, st) && ValidMonkeys(ms, Exact) && m == Product(Moduli(ms))
    ensures m > 0 && ValidMonkeys(ms, Reduce(m))
    ensures Rounds(ms, Reduce(m), st, k).counts == Rounds(ms, Exact, st, k).counts
  {
    ProductOfModuliPositive(ms, |ms|);
    assert Moduli(ms)[..|ms|] == Moduli(ms);
    forall i | 0 <= i < |ms| ensures m % ms[i].modulo == 0 {
      var s := Moduli(ms);
      ProductFactor(s, i);
      ModAddMultiple(Product(s[..i] + s[i + 1..]), s[i], 0);
    }
    RoundsCongruent(ms, k, m, st);
  }

  /** The business value is the product of the two largest counts. */
  lemma MonkeyBusinessTopTwo(counts: seq<nat>)
    requires |counts| >= 2
    ensures exists s: seq<int> ::
      multiset(s) == multiset(counts) && |s| == |counts| && (forall k :: 2 <= k < |s| ==> s[k] <= s[1] <= s[0]) && MonkeyBusiness(counts) == s[0] * s[1]
  {
    var s := SortDesc(counts);
    assert s[..2] == [s[0], s[1]];
    assert Product(s[..2]) == s[0] * Product([s[1]]);
    assert forall k :: 2 <= k < |s| ==> s[k] <= s[1] <= s[0];
  }
}
