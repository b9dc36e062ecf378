// Shared vocabulary of the solvers: optional values, sums and products of
// sequences, a descending sort with the "top k" facts the solvers rely on,
// and decimal digit strings (the integer fields of the puzzle inputs).
module Common {

  datatype Option<T> = None | Some(value: T)

  // ---------------------------------------------------------------------------
  // Sums and products

  function Sum(s: seq<int>): int
  {
    if s == [] then 0 else s[0] + Sum(s[1..])
  }

  function Product(s: seq<int>): int
  {
    if s == [] then 1 else s[0] * Product(s[1..])
  }

  lemma {:induction false} SumAppend(a: seq<int>, b: seq<int>)
    ensures Sum(a + b) == Sum(a) + Sum(b)
  {
    if a == [] {
      assert a + b == b;
    } else {
      assert (a + b)[1..] == a[1..] + b;
      SumAppend(a[1..], b);
    }
  }

  /** Removing the element at position j takes exactly that element off the sum. */
  lemma {:induction false} SumRemove(s: seq<int>, j: nat)
    requires j < |s|
    ensures Sum(s) == s[j] + Sum(s[..j] + s[j + 1..])
  {
    if j == 0 {
      assert s[..0] + s[1..] == s[1..];
    } else {
      assert (s[..j] + s[j + 1..])[1..] == s[1..][..j - 1] + s[1..][j..];
      SumRemove(s[1..], j - 1);
    }
  }

  /** The sum does not depend on the order of the elements. */
  lemma {:induction false} SumPermutation(a: seq<int>, b: seq<int>)
    requires multiset(a) == multiset(b)
    ensures Sum(a) == Sum(b)
    decreases |a|
  {
    if a == [] {
      assert |b| == |multiset(b)| == 0;
    } else {
      assert a[0] in multiset(b);
      var j :| 0 <= j < |b| && b[j] == a[0];
      var rest := b[..j] + b[j + 1..];
      MultisetRemove(b, j);
      MultisetOfCons(a);
      SumPermutation(a[1..], rest);
      SumRemove(b, j);
    }
  }

  lemma MultisetRemove(b: seq<int>, j: nat)
    requires j < |b|
    ensures multiset(b[..j] + b[j + 1..]) == multiset(b) - multiset{b[j]}
  {
    assert b == b[..j] + [b[j]] + b[j + 1..];
  }

  // ---------------------------------------------------------------------------
  // Descending order

  ghost predicate SortedDesc(s: seq<int>)
  {
    forall i, j :: 0 <= i < j < |s| ==> s[i] >= s[j]
  }

  /** Every element of a descending sequence is at most its head. */
  lemma HeadIsLargest(t: seq<int>, v: int)
    requires SortedDesc(t) && v in multiset(t)
    ensures t != [] && v <= t[0]
  {
    var k :| 0 <= k < |t| && t[k] == v;
  }

  /** Inserts x in front of the first element that is not larger than x. */
  function InsertDesc(x: int, s: seq<int>): (r: seq<int>)
    requires SortedDesc(s)
    ensures SortedDesc(r)
    ensures multiset(r) == multiset(s) + multiset{x}
    ensures |r| == |s| + 1
  {
    if s == [] || s[0] <= x then
      [x] + s
    else
      assert s == [s[0]] + s[1..];
      var r' := InsertDesc(x, s[1..]);
      ConsKeepsSorted(s[0], x, s[1..], r');
      [s[0]] + r'
  }

  lemma ConsKeepsSorted(h: int, x: int, rest: seq<int>, r: seq<int>)
    requires SortedDesc([h] + rest) && x < h
    requires SortedDesc(r) && multiset(r) == multiset(rest) + multiset{x}
    ensures SortedDesc([h] + r)
  {
    forall i | 0 <= i < |r| ensures r[i] <= h {
      assert r[i] in multiset(r);
      if r[i] != x {
        assert r[i] in multiset([h] + rest);
        HeadIsLargest([h] + rest, r[i]);
      }
    }
  }

  /** The sort the solvers apply before taking the largest values. */
  function SortDesc(s: seq<int>): (r: seq<int>)
    ensures SortedDesc(r)
    ensures multiset(r) == multiset(s)
    ensures |r| == |s|
  {
    if s == [] then []
    else
      assert s == [s[0]] + s[1..];
      InsertDesc(s[0], SortDesc(s[1..]))
  }

  lemma MultisetOfCons(s: seq<int>)
    requires s != []
    ensures multiset(s) == multiset{s[0]} + multiset(s[1..])
  {
    assert s == [s[0]] + s[1..];
  }

  /** Dropping equal heads keeps the sub-bag relation. */
  lemma SubBagOfTails(u: seq<int>, t: seq<int>)
    requires u != [] && t != [] && u[0] == t[0]
    requires multiset(u) <= multiset(t)
    ensures multiset(u[1..]) <= multiset(t[1..])
  {
    MultisetOfCons(u);
    MultisetOfCons(t);
    forall v | v in multiset(u[1..]) ensures multiset(u[1..])[v] <= multiset(t[1..])[v] {
      assert multiset(u)[v] <= multiset(t)[v];
    }
  }

  /** A head that the bag does not contain can be dropped. */
  lemma SubBagSkipHead(u: seq<int>, t: seq<int>)
    requires t != [] && t[0] !in multiset(u)
    requires multiset(u) <= multiset(t)
    ensures multiset(u) <= multiset(t[1..])
  {
    MultisetOfCons(t);
    forall v | v in multiset(u) ensures multiset(u)[v] <= multiset(t[1..])[v] {
      assert v != t[0];
    }
  }

  /**
   * A sorted bag drawn from a sorted sequence is dominated position by
   * position: its i-th largest value is at most the i-th largest of the whole.
   */
  lemma {:induction false} SortedSubBagDominated(u: seq<int>, t: seq<int>)
    requires SortedDesc(u) && SortedDesc(t)
    requires multiset(u) <= multiset(t)
    ensures |u| <= |t|
    ensures forall i :: 0 <= i < |u| ==> u[i] <= t[i]
    decreases |t|
  {
    if u != [] {
      assert u[0] in multiset(u);
      HeadIsLargest(t, u[0]);
      if t[0] in multiset(u) {
        HeadIsLargest(u, t[0]);
        SubBagOfTails(u, t);
        SortedSubBagDominated(u[1..], t[1..]);
        forall i | 0 <= i < |u| ensures u[i] <= t[i] {
          if i > 0 {
            assert u[i] == u[1..][i - 1] && t[i] == t[1..][i - 1];
          }
        }
      } else {
        SubBagSkipHead(u, t);
        SortedSubBagDominated(u, t[1..]);
        forall i | 0 <= i < |u| ensures u[i] <= t[i] {
          assert u[i] <= t[1..][i] == t[i + 1];
        }
      }
    }
  }

  /** Any bag of k values drawn from s sums to at most the k largest values of s. */
  lemma TopSumIsLargest(s: seq<int>, u: seq<int>)
    requires multiset(u) <= multiset(s)
    ensures |u| <= |s|
    ensures Sum(u) <= Sum(SortDesc(s)[..|u|])
  {
    var t := SortDesc(s);
    var v := SortDesc(u);
    SortedSubBagDominated(v, t);
    SumPermutation(u, v);
    SumDominated(v, t[..|u|]);
  }

  lemma {:induction false} SumDominated(v: seq<int>, w: seq<int>)
    requires |v| == |w|
    requires forall i :: 0 <= i < |v| ==> v[i] <= w[i]
    ensures Sum(v) <= Sum(w)
  {
    if v != [] {
      SumDominated(v[1..], w[1..]);
    }
  }

  // ---------------------------------------------------------------------------
  // Decimal digits

  predicate IsDigit(c: char)
  {
    '0' <= c <= '9'
  }

  predicate AllDigits(s: string)
  {
    forall i :: 0 <= i < |s| ==> IsDigit(s[i])
  }

  /** The value of a string of decimal digits, most significant first. */
  function DigitsValue(s: string): nat
    requires AllDigits(s)
  {
    if s == [] then 0
    else DigitsValue(s[..|s| - 1]) * 10 + (s[|s| - 1] as int - '0' as int)
  }

  function DigitChar(d: nat): (c: char)
    requires d < 10
    ensures IsDigit(c) && c as int - '0' as int == d
  {
    ('0' as int + d) as char
  }

  /** Decimal rendering without leading zeros. */
  function NatToString(n: nat): (s: string)
    ensures |s| > 0 && AllDigits(s)
    ensures |s| > 1 ==> s[0] != '0'
  {
    if n < 10 then [DigitChar(n)] else NatToString(n / 10) + [DigitChar(n % 10)]
  }

  lemma {:induction false} DigitsValueOfNatToString(n: nat)
    ensures DigitsValue(NatToString(n)) == n
  {
    if n >= 10 {
      var s := NatToString(n);
      assert s[..|s| - 1] == NatToString(n / 10);
      DigitsValueOfNatToString(n / 10);
    }
  }

  /** Length of the longest prefix of s made of digits. */
  function DigitSpan(s: string): (k: nat)
    ensures k <= |s| && AllDigits(s[..k])
    ensures k < |s| ==> !IsDigit(s[k])
  {
    if s == [] || !IsDigit(s[0]) then 0
    else
      var k := 1 + DigitSpan(s[1..]);
      assert forall i :: 1 <= i < k ==> s[..k][i] == s[1..][..k - 1][i - 1];
      k
  }

  /** Reads a maximal run of digits (at least one) at the front of s. */
  function ReadNat(s: string): (r: Option<(nat, string)>)
    ensures r.None? <==> (s == [] || !IsDigit(s[0]))
    ensures r.Some? ==> |r.value.1| < |s| && s == s[..|s| - |r.value.1|] + r.value.1
  {
    var k := DigitSpan(s);
    if k == 0 then None
    else
      assert s == s[..k] + s[k..];
      Some((DigitsValue(s[..k]), s[k..]))
  }

  lemma {:induction false} DigitSpanOfDigits(d: string, rest: string)
    requires AllDigits(d)
    requires rest == [] || !IsDigit(rest[0])
    ensures DigitSpan(d + rest) == |d|
  {
    if d != [] {
      assert (d + rest)[1..] == d[1..] + rest;
      DigitSpanOfDigits(d[1..], rest);
    }
  }

  /** Reading back a rendered number gives the number and leaves the rest untouched. */
  lemma ReadNatOfNatToString(n: nat, rest: string)
    requires rest == [] || !IsDigit(rest[0])
    ensures ReadNat(NatToString(n) + rest) == Some((n, rest))
  {
    var d := NatToString(n);
    DigitSpanOfDigits(d, rest);
    assert (d + rest)[..|d|] == d;
    assert (d + rest)[|d|..] == rest;
    DigitsValueOfNatToString(n);
  }

  // ---------------------------------------------------------------------------
  // 32-bit signed integers written in decimal

  const I32Min: int := -0x8000_0000
  const I32Max: int := 0x7fff_ffff

  /** A 32-bit signed integer: optional sign, then one or more digits, in range. */
  function ParseI32(s: string): (r: Option<int>)
    ensures r.Some? ==> I32Min <= r.value <= I32Max
  {
    var v: Option<int> :=
      if s != [] && (s[0] == '-' || s[0] == '+') && |s| > 1 && AllDigits(s[1..]) then
        var d: int := DigitsValue(s[1..]);
        Some(if s[0] == '-' then -d else d)
      else if s != [] && AllDigits(s) then Some(DigitsValue(s))
      else None;
    if v.Some? && I32Min <= v.value <= I32Max then v else None
  }

  /** Decimal rendering with a leading '-' for negative values. */
  function IntToString(v: int): string
  {
    if v < 0 then "-" + NatToString(-v) else NatToString(v)
  }

  lemma ParseI32OfIntToString(v: int)
    requires I32Min <= v <= I32Max
    ensures ParseI32(IntToString(v)) == Some(v)
  {
    var s := IntToString(v);
    if v < 0 {
      var d := NatToString(-v);
      assert s == "-" + d && s[0] == '-' && s[1..] == d;
      DigitsValueOfNatToString(-v);
    } else {
      assert IsDigit(s[0]) && AllDigits(s);
      DigitsValueOfNatToString(v);
    }
  }
}
