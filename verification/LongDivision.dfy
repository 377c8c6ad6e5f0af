// Long division over base-100 cells, as both inner loops of arctan do it
// (core-project/prog2/prog2.c:143-156): first as the recursion the loops follow,
// then what that recursion computes.
module LongDivision {
  import opened Arithmetic
  import opened Digits

  // What is carried past the cells of s, already scaled to the next cell;
  // `first` enters at the first cell.
  ghost function Remain(s: seq<int>, first: nat, d: nat): (r: nat)
    requires d > 0 && AreDigits(s)
    decreases |s|, 1
  {
    if s == [] then first else Scale(Temp(s, first, d), d)
  }

  // What the last cell of s is divided from.
  ghost function Temp(s: seq<int>, first: nat, d: nat): (t: nat)
    requires d > 0 && s != [] && AreDigits(s)
    decreases |s|, 0
  {
    s[|s| - 1] + Remain(s[..|s| - 1], first, d)
  }

  // The remainder of temp by d, at the weight of the next cell.
  ghost function Scale(temp: nat, d: nat): (r: nat)
    requires d > 0
    ensures r <= BASE * d - BASE
  {
    if temp < d then temp * BASE else Scale(temp - d, d)
  }

  ghost function Quotient(s: seq<int>, first: nat, d: nat): (q: seq<int>)
    requires d > 0 && AreDigits(s)
    ensures |q| == |s|
  {
    if s == [] then [] else Quotient(s[..|s| - 1], first, d) + [Floor(Temp(s, first, d), d)]
  }

  lemma {:induction false} ScaleFloor(temp: nat, d: nat)
    requires d > 0
    ensures Scale(temp, d) == (temp - d * Floor(temp, d)) * BASE
  {
    if temp >= d {
      ScaleFloor(temp - d, d);
      assert d * Floor(temp, d) == d + d * Floor(temp - d, d);
    } else {
      assert d * Floor(temp, d) == 0;
    }
  }

  // How the loops compute the two: one division and one multiplication.
  lemma CellArithmetic(temp: nat, d: nat)
    requires d > 0
    ensures temp / d == Floor(temp, d)
    ensures (temp - d * Floor(temp, d)) * BASE == Scale(temp, d)
  {
    ScaleFloor(temp, d);
    FloorIsDivision(temp, d);
  }

  // The amount that enters at the first cell leaves a digit there.
  ghost predicate Enters(s: seq<int>, first: int, d: int) {
    0 <= first < BASE * d && (s != [] ==> s[0] + first < BASE * d)
  }

  lemma NothingEnters(s: seq<int>, d: nat)
    requires d > 0 && AreDigits(s)
    ensures Enters(s, 0, d)
  {
    MulMonoRight(BASE, 1, d);
  }

  // No intermediate value reaches BASE*d, and every quotient cell is a digit.
  lemma {:induction false} DivisionBounds(s: seq<int>, first: nat, d: nat)
    requires d > 0 && AreDigits(s) && Enters(s, first, d)
    ensures s != [] ==> Temp(s, first, d) < BASE * d
    ensures AreDigits(Quotient(s, first, d))
  {
    if s != [] {
      var s' := s[..|s| - 1];
      DivisionBounds(s', first, d);
      var temp := Temp(s, first, d);
      if s' == [] {
        assert |s| == 1 && Remain(s', first, d) == first;
      } else {
        assert Remain(s', first, d) == Scale(Temp(s', first, d), d);
      }
      FloorBelow(temp, d, BASE);
    }
  }

  // The division equation over the values alone, and one more cell of it.
  ghost predicate Balanced(quotient: int, dividend: int, entered: int, d: int, remain: int)
  {
    BASE * Multiple(quotient, d) + remain == entered + BASE * dividend
  }

  lemma BalancedStep(quotient: int, dividend: int, entered: int, d: nat, remain: nat, cell: nat)
    requires d > 0 && Balanced(quotient, dividend, entered, d, remain)
    ensures Balanced(quotient * BASE + Floor(cell + remain, d), dividend * BASE + cell, entered * BASE, d,
                     Scale(cell + remain, d))
  {
    var temp := cell + remain;
    var q := Floor(temp, d);
    ScaleFloor(temp, d);
    MultipleIsProduct(quotient, d);
    MultipleIsProduct(quotient * BASE + q, d);
    var dq, dQ := d * q, d * quotient;
    assert d * (quotient * BASE + q) == dQ * BASE + dq;
  }

  lemma {:induction false} DivisionBalanced(s: seq<int>, first: nat, d: nat)
    requires d > 0 && AreDigits(s)
    ensures Balanced(Value(Quotient(s, first, d)), Value(s), Shifted(first, |s|), d, Remain(s, first, d))
  {
    if s != [] {
      var s', cell := s[..|s| - 1], s[|s| - 1];
      DivisionBalanced(s', first, d);
      BalancedStep(Value(Quotient(s', first, d)), Value(s'), Shifted(first, |s'|), d, Remain(s', first, d), cell);
      ValueAppend(Quotient(s', first, d), Floor(Temp(s, first, d), d));
    }
  }

  // The cells of the quotient denote the floor of the whole dividend by d.
  lemma DivisionValue(s: seq<int>, first: nat, d: nat)
    requires d > 0 && s != [] && AreDigits(s)
    ensures Shifted(first, |s| - 1) + Value(s) >= 0
    ensures Value(Quotient(s, first, d)) == Floor(Shifted(first, |s| - 1) + Value(s), d)
  {
    DivisionBalanced(s, first, d);
    ValueBounds(s);
    BalanceIsFloor(Value(Quotient(s, first, d)), Shifted(first, |s| - 1) + Value(s), d, Temp(s, first, d));
  }

  // A balance that leaves a remainder below d is a floor division.
  lemma BalanceIsFloor(quotient: int, n: nat, d: nat, temp: nat)
    requires d > 0 && BASE * Multiple(quotient, d) + Scale(temp, d) == BASE * n
    ensures quotient == Floor(n, d)
  {
    ScaleFloor(temp, d);
    FloorEquation(temp, d);
    MultipleIsProduct(quotient, d);
    var rest, dq := temp - d * Floor(temp, d), d * quotient;
    assert BASE * dq + rest * BASE == BASE * n;
    FloorUnique(n, d, quotient);
  }

  // Cells known to be zero can be skipped: dividing them changes nothing and carries nothing.
  lemma {:induction false} SkipZeros(s: seq<int>, d: nat)
    requires d > 0 && forall i :: 0 <= i < |s| ==> s[i] == 0
    ensures Quotient(s, 0, d) == s && Remain(s, 0, d) == 0
  {
    if s != [] {
      SkipZeros(s[..|s| - 1], d);
      assert Temp(s, 0, d) == 0;
    }
  }

  lemma {:induction false} QuotientPrefix(s: seq<int>, first: nat, d: nat, x: nat)
    requires d > 0 && AreDigits(s) && x <= |s|
    ensures Quotient(s, first, d)[..x] == Quotient(s[..x], first, d)
  {
    if x < |s| {
      QuotientPrefix(s[..|s| - 1], first, d, x);
      assert s[..|s| - 1][..x] == s[..x];
    } else {
      assert s[..x] == s;
    }
  }

  // Leading zero cells divide to leading zero cells.
  lemma ZerosStay(s: seq<int>, d: nat, n: nat)
    requires d > 0 && AreDigits(s) && n <= |s| && forall i :: 0 <= i < n ==> s[i] == 0
    ensures forall i :: 0 <= i < n ==> Quotient(s, 0, d)[i] == 0
    ensures Remain(s[..n], 0, d) == 0
  {
    QuotientPrefix(s, 0, d, n);
    SkipZeros(s[..n], d);
    assert forall i :: 0 <= i < n ==> Quotient(s, 0, d)[i] == Quotient(s, 0, d)[..n][i];
  }

  // What the loops meet at cell x.
  lemma DivisionCell(s: seq<int>, first: nat, d: nat, x: nat)
    requires d > 0 && AreDigits(s) && Enters(s, first, d) && x < |s|
    ensures var temp := s[x] + Remain(s[..x], first, d);
            && 0 <= temp < BASE * d
            && Quotient(s, first, d)[x] == Floor(temp, d)
            && Remain(s[..x + 1], first, d) == Scale(temp, d)
  {
    assert s[..x + 1][..x] == s[..x];
    DivisionBounds(s[..x + 1], first, d);
    QuotientPrefix(s, first, d, x + 1);
    assert Quotient(s, first, d)[x] == Quotient(s, first, d)[..x + 1][x];
  }
}
