// Tuning trouble (src/day06.rs): the start-of-packet (4) and start-of-message
// (14) markers end the first window of k characters that are all different.
module Day06 {

  /** Some character occurs at least twice in s. */
  predicate HasDuplicate(s: seq<char>)
  {
    exists i, j :: 0 <= i < j < |s| && s[i] == s[j]
  }

  /** The distinct characters of s. */
  function Elements(s: seq<char>): (e: set<char>)
    ensures forall c :: c in e <==> c in s
  {
    if s == [] then {} else Elements(s[..|s| - 1]) + {s[|s| - 1]}
  }

  /** Appending c to s makes a repeat exactly when s had one or already held c. */
  lemma DuplicateSnoc(s: seq<char>, c: char)
    ensures HasDuplicate(s + [c]) <==> HasDuplicate(s) || c in s
  {
    var t := s + [c];
    if HasDuplicate(t) {
      var i, j :| 0 <= i < j < |t| && t[i] == t[j];
      if j < |s| {
        assert s[i] == s[j];
      } else {
        assert s[i] == c;
      }
    }
    if HasDuplicate(s) {
      var i, j :| 0 <= i < j < |s| && s[i] == s[j];
      assert t[i] == t[j];
    }
    if c in s {
      var i :| 0 <= i < |s| && s[i] == c;
      assert t[i] == t[|s|];
    }
  }

  /** A sequence has as many distinct characters as positions exactly when nothing repeats. */
  lemma {:induction false} ElementsCount(s: seq<char>)
    ensures |Elements(s)| <= |s|
    ensures |Elements(s)| == |s| <==> !HasDuplicate(s)
  {
    if s != [] {
      var n := |s| - 1;
      var init := s[..n];
      ElementsCount(init);
      assert s == init + [s[n]];
      DuplicateSnoc(init, s[n]);
      if s[n] in init {
        assert Elements(s) == Elements(init);
      } else {
        assert Elements(s) == Elements(init) + {s[n]};
      }
    }
  }

  /** Puts every character of sl into a set; a repeat shows as a set smaller than sl. */
  method NotUnique(sl: seq<char>) returns (dup: bool)
    ensures dup <==> HasDuplicate(sl)
  {
    var c: set<char> := {};
    for i := 0 to |sl|
      invariant c == Elements(sl[..i])
    {
      assert sl[..i + 1][..i] == sl[..i];
      c := c + {sl[i]};
    }
    assert sl[..|sl|] == sl;
    ElementsCount(sl);
    dup := |c| != |sl|;
  }

  /** The number of windows of k characters. */
  function WindowCount(n: nat, k: nat): nat
  {
    if n >= k then n - k + 1 else 0
  }

  function Window(chars: seq<char>, k: nat, i: nat): seq<char>
    requires i + k <= |chars|
  {
    chars[i..i + k]
  }

  /** How many windows from the i-th on repeat a character before the first one that does not. */
  function LeadingRepeats(chars: seq<char>, k: nat, i: nat): (n: nat)
    requires k > 0 && i <= WindowCount(|chars|, k)
    decreases WindowCount(|chars|, k) - i
    ensures i + n <= WindowCount(|chars|, k)
  {
    if i == WindowCount(|chars|, k) || !HasDuplicate(Window(chars, k, i)) then 0
    else 1 + LeadingRepeats(chars, k, i + 1)
  }

  /**
   * The position after the first window of k distinct characters: k plus
   * the number of windows before it (all windows when there is none).
   */
  function Marker(chars: seq<char>, k: nat): nat
    requires k > 0
  {
    LeadingRepeats(chars, k, 0) + k
  }

  lemma {:induction false} LeadingRepeatsSpec(chars: seq<char>, k: nat, i: nat)
    requires k > 0 && i <= WindowCount(|chars|, k)
    decreases WindowCount(|chars|, k) - i
    ensures var n := LeadingRepeats(chars, k, i);
      (forall j :: i <= j < i + n ==> HasDuplicate(Window(chars, k, j))) &&
      (i + n < WindowCount(|chars|, k) ==> !HasDuplicate(Window(chars, k, i + n)))
  {
    if i < WindowCount(|chars|, k) && HasDuplicate(Window(chars, k, i)) {
      LeadingRepeatsSpec(chars, k, i + 1);
    }
  }

  /**
   * The marker r is at least k; when it lies within the input, the k
   * characters before it are all different; every earlier window repeats a
   * character; when no window qualifies, r is one past the input's end (or k
   * for an input shorter than k).
   */
  lemma MarkerSpec(chars: seq<char>, k: nat)
    requires k > 0
    ensures Marker(chars, k) >= k
    ensures Marker(chars, k) <= |chars| ==> !HasDuplicate(chars[Marker(chars, k) - k..Marker(chars, k)])
    ensures forall j :: 0 <= j && j + k < Marker(chars, k) ==> j + k <= |chars| && HasDuplicate(Window(chars, k, j))
    ensures Marker(chars, k) > |chars| ==> Marker(chars, k) == (if |chars| >= k then |chars| + 1 else k)
  {
    LeadingRepeatsSpec(chars, k, 0);
    var n := LeadingRepeats(chars, k, 0);
    if n + k <= |chars| {
      assert Window(chars, k, n) == chars[n..n + k];
    }
  }

  /** Part 1: the end of the first 4 distinct characters. */
  function Part1(chars: seq<char>): nat
  {
    Marker(chars, 4)
  }

  /** Part 2: the end of the first 14 distinct characters. */
  function Part2(chars: seq<char>): nat
  {
    Marker(chars, 14)
  }

  /** A repeat inside a slice is a repeat of the whole sequence. */
  lemma DuplicateWidens(s: seq<char>, a: nat, b: nat)
    requires a <= b <= |s|
    ensures HasDuplicate(s[a..b]) ==> HasDuplicate(s)
  {
    if HasDuplicate(s[a..b]) {
      var i, j :| 0 <= i < j < b - a && s[a..b][i] == s[a..b][j];
      assert s[a + i] == s[a + j];
    }
  }

  /** A start-of-message marker never comes before the start-of-packet marker it contains. */
  lemma MessageAfterPacket(chars: seq<char>)
    ensures Part1(chars) <= Part2(chars) || Part2(chars) > |chars|
  {
    MarkerSpec(chars, 4);
    MarkerSpec(chars, 14);
    var r := Part2(chars);
    if r <= |chars| {
      DuplicateWidens(chars[r - 14..r], 10, 14);
      assert chars[r - 14..r][10..14] == Window(chars, 4, r - 4);
    }
  }
}
