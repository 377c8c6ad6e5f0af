// Big-endian numbers in base 100, one digit per array cell
// (core-project/prog2/prog2.c, BASE and the arrays pi, powers, term).
module Digits {
  import opened Arithmetic

  const BASE := 100
  const BASE_DIGITS := 2

  ghost predicate AreDigits(s: seq<int>)
  {
    forall i :: 0 <= i < |s| ==> 0 <= s[i] < BASE
  }

  // The number a sequence of cells denotes, most significant cell first.
  ghost function Value(s: seq<int>): int
  {
    if s == [] then 0 else Value(s[..|s| - 1]) * BASE + s[|s| - 1]
  }

  // d followed by n zero cells
  ghost function Shifted(d: int, n: nat): (r: int)
    ensures d >= 0 ==> r >= 0
  {
    if n == 0 then d else Shifted(d, n - 1) * BASE
  }

  // 100^n, one more than the largest number of n cells
  ghost function Whole(n: nat): (w: int)
    ensures w > 0
  {
    Pow(BASE, n)
  }

  lemma {:induction false} ShiftedSum(a: int, b: int, n: nat)
    ensures Shifted(a + b, n) == Shifted(a, n) + Shifted(b, n)
  {
    if n > 0 {
      ShiftedSum(a, b, n - 1);
    }
  }

  lemma {:induction false} ShiftedNext(d: int, n: nat)
    ensures Shifted(d * BASE, n) == Shifted(d, n + 1)
  {
    if n > 0 {
      ShiftedNext(d, n - 1);
    }
  }

  lemma {:induction false} ShiftedProduct(d: int, n: nat)
    ensures Shifted(d, n) == d * Whole(n)
  {
    if n > 0 {
      ShiftedProduct(d, n - 1);
      MulAssoc(d, Whole(n - 1), BASE);
    }
  }

  lemma {:induction false} ShiftedBit(n: nat)
    ensures Shifted(0, n) == 0 && Shifted(1, n) == Whole(n)
  {
    if n > 0 {
      ShiftedBit(n - 1);
    }
  }

  lemma ValueAppend(s: seq<int>, d: int)
    ensures Value(s + [d]) == Value(s) * BASE + d
  {
    assert (s + [d])[..|s|] == s;
  }

  // Prepending a digit adds that digit at the weight of its position.
  lemma {:induction false} ValuePrepend(d: int, t: seq<int>)
    ensures Value([d] + t) == Shifted(d, |t|) + Value(t)
  {
    if t == [] {
      assert [d] + t == [d] && [d][..0] == [];
    } else {
      var t' := t[..|t| - 1];
      ValuePrepend(d, t');
      assert ([d] + t)[..|t|] == [d] + t';
    }
  }

  lemma {:induction false} ValueBounds(s: seq<int>)
    requires AreDigits(s)
    ensures 0 <= Value(s) < Whole(|s|)
  {
    if s != [] {
      ValueBounds(s[..|s| - 1]);
    }
  }

  lemma {:induction false} ZeroValue(s: seq<int>)
    requires AreDigits(s)
    ensures Value(s) == 0 <==> forall i :: 0 <= i < |s| ==> s[i] == 0
  {
    if s != [] {
      var s' := s[..|s| - 1];
      ValueBounds(s');
      ZeroValue(s');
      assert forall i :: 0 <= i < |s'| ==> s'[i] == s[i];
    }
  }

  // How many cells at the front are zero.
  ghost function LeadingZeros(s: seq<int>): (n: nat)
    ensures n <= |s|
    ensures forall i :: 0 <= i < n ==> s[i] == 0
    ensures n < |s| ==> s[n] != 0
  {
    if s == [] || s[0] != 0 then 0 else 1 + LeadingZeros(s[1..])
  }

  // Two digit sequences of one length with one value are the same sequence.
  lemma {:induction false} ValueInjective(s: seq<int>, t: seq<int>)
    requires AreDigits(s) && AreDigits(t) && |s| == |t|
    requires Value(s) == Value(t)
    ensures s == t
  {
    if s != [] {
      var n := |s| - 1;
      assert s == s[..n] + [s[n]] && t == t[..n] + [t[n]];
      ValueInjective(s[..n], t[..n]);
    }
  }

  // The first digit is the whole part, the other digits the fraction.
  lemma LeadingDigit(s: seq<int>)
    requires AreDigits(s) && |s| > 0
    ensures Value(s) == Shifted(s[0], |s| - 1) + Value(s[1..])
    ensures 0 <= Value(s[1..]) < Whole(|s| - 1)
  {
    assert s == [s[0]] + s[1..];
    ValuePrepend(s[0], s[1..]);
    ValueBounds(s[1..]);
  }
}
