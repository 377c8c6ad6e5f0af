// The Machin run of core-project/prog2/prog2.c:266-269: pi = 16 arctan(1/5) - 4 arctan(1/239).
module Machin {
  import opened Arithmetic
  import opened Digits
  import opened ArctanSeries
  import opened ArctanProgram
  import opened Truncation

  ghost function FirstSeries(size: nat): Series { Series(16, 5, 1, size) }
  ghost function SecondSeries(size: nat): Series { Series(4, 239, -1, size) }

  // The leading terms, as fractions of the weight w of the first cell.
  lemma LeadingTerms(size: nat)
    requires size >= 2
    ensures var w := Whole(size - 1); var a, b := FirstSeries(size), SecondSeries(size);
            && w >= 100
            && 5 * a.Term(0) <= 16 * w < 5 * a.Term(0) + 5
            && 375 * a.Term(1) <= 16 * w
            && 239 * b.Term(0) <= 4 * w
            && b.Term(1) <= b.Term(0)
            && a.PowerTerm(0) > 0 && b.PowerTerm(0) > 0
  {
    WholeGrows(size - 1);
    FirstTerm(size);
    SecondTerm(size);
    OtherFirstTerm(size);
    SecondSeries(size).TermsDecrease(0, 1);
  }

  lemma FirstTerm(size: nat)
    requires size >= 2
    ensures var w, t := Whole(size - 1), FirstSeries(size).Term(0);
            5 * t <= 16 * w < 5 * t + 5 && FirstSeries(size).PowerTerm(0) > 0
  {
    var w := Whole(size - 1);
    WholeGrows(size - 1);
    ShiftedProduct(16, size - 1);
    FirstSeries(size).TermClosedForm(0);
    FirstPowers();
    FloorEquation(16 * w, 5);
    assert FirstSeries(size).PowerTerm(0) == Floor(16 * w, 5);
  }

  lemma FirstPowers()
    ensures Pow(5, 1) == 5 && Pow(5, 3) == 125 && Pow(239, 1) == 239
  {
    assert Pow(5, 0) == 1 && Pow(5, 2) == 25 && Pow(239, 0) == 1;
  }

  lemma SecondTerm(size: nat)
    requires size >= 2
    ensures 375 * FirstSeries(size).Term(1) <= 16 * Whole(size - 1)
  {
    ShiftedProduct(16, size - 1);
    FirstSeries(size).TermClosedForm(1);
    FirstPowers();
    FloorEquation(16 * Whole(size - 1), 375);
  }

  lemma OtherFirstTerm(size: nat)
    requires size >= 2
    ensures 239 * SecondSeries(size).Term(0) <= 4 * Whole(size - 1)
    ensures SecondSeries(size).PowerTerm(0) > 0
  {
    var w := Whole(size - 1);
    WholeGrows(size - 1);
    ShiftedProduct(4, size - 1);
    SecondSeries(size).TermClosedForm(0);
    FirstPowers();
    FloorEquation(4 * w, 239);
    assert SecondSeries(size).PowerTerm(0) == Floor(4 * w, 239);
  }

  lemma {:induction false} WholeGrows(n: nat)
    requires n >= 1
    ensures Whole(n) >= 100
  {
    if n > 1 {
      WholeGrows(n - 1);
    } else {
      assert Whole(1) == Whole(0) * BASE;
    }
  }

  // Both calls keep every partial sum within the array, whatever the size.
  lemma NothingDropped(size: nat, j: nat, k: nat)
    requires size >= 2 && j >= 1
    ensures var a, b := FirstSeries(size), SecondSeries(size);
            && a.Fits(0, j) && b.Fits(a.Sum(j), k)
            && 3 * Whole(size - 1) <= a.Sum(j) + b.Sum(k) < 4 * Whole(size - 1)
  {
    forall i: nat
      ensures 0 <= FirstSeries(size).Sum(i) < Whole(size)
    {
      FirstSumRange(size, i);
    }
    forall i: nat
      ensures 0 <= FirstSeries(size).Sum(j) + SecondSeries(size).Sum(i) < Whole(size)
    {
      BothSums(size, j, i);
    }
    BothSums(size, j, k);
  }

  lemma FirstSumRange(size: nat, i: nat)
    requires size >= 2
    ensures var a, w := FirstSeries(size), Whole(size - 1);
            && 0 <= 5 * a.Sum(i) <= 16 * w && 16 * w < 5 * Whole(size)
            && (i >= 1 ==> 1200 * w - 375 < 375 * a.Sum(i) + 16 * w)
  {
    LeadingTerms(size);
    FirstSeries(size).PartialSumRange(i);
  }

  lemma SecondSumRange(size: nat, i: nat)
    requires size >= 2
    ensures 239 * SecondSeries(size).Sum(i) <= 0 <= 4 * Whole(size - 1) + 239 * SecondSeries(size).Sum(i)
  {
    var b, c := SecondSeries(size), SecondSeries(size).(sign := 1);
    LeadingTerms(size);
    b.NegatedSum(i);
    c.PartialSumRange(i);
    assert c.Term(0) == b.Term(0);
  }

  lemma BothSums(size: nat, j: nat, k: nat)
    requires size >= 2 && j >= 1
    ensures var sum := FirstSeries(size).Sum(j) + SecondSeries(size).Sum(k);
            3 * Whole(size - 1) <= sum < 4 * Whole(size - 1) && 0 <= sum < Whole(size)
  {
    WholeGrows(size - 1);
    FirstSumRange(size, j);
    SecondSumRange(size, k);
  }

  // The first cell of a value in [3w, 4w) is 3.
  lemma WholePartThree(s: seq<int>)
    requires AreDigits(s) && |s| >= 1
    requires 3 * Whole(|s| - 1) <= Value(s) < 4 * Whole(|s| - 1)
    ensures s[0] == 3
  {
    LeadingDigit(s);
    ShiftedProduct(s[0], |s| - 1);
    var w := Whole(|s| - 1);
    if s[0] <= 2 {
      MulMono(s[0], 2, w);
    } else if s[0] >= 4 {
      MulMono(4, s[0], w);
    }
  }

  // The rounds of the first call: 25^k <= 100^size, so 2k < 3*size.
  lemma FirstRounds(size: nat, k: nat)
    requires size >= 2 && FirstSeries(size).Exhausted(k)
    ensures k >= 1 && 2 * k <= 3 * size - 1
  {
    LeadingTerms(size);
    FirstRoundsWeight(size, k);
    if 2 * k >= 3 * size {
      TooManyFirstRounds(size, 2 * k);
    }
  }

  lemma FirstRoundsWeight(size: nat, k: nat)
    requires size >= 2 && k >= 1 && FirstSeries(size).Exhausted(k)
    ensures Pow(5, 2 * k) <= Whole(size)
  {
    FirstSeries(size).RoundsBound(k);
    ShiftedProduct(16, size - 1);
    assert Pow(5, 2 * k) == 5 * Pow(5, 2 * k - 1);
    assert Whole(size) == Whole(size - 1) * BASE;
  }

  lemma TooManyFirstRounds(size: nat, e: nat)
    requires size >= 1 && e >= 3 * size
    ensures Pow(5, e) > Whole(size)
  {
    PowGrows(5, 3 * size, e);
    FivesOutgrow(size);
  }

  // 125^n against 100^n
  lemma {:induction false} FivesOutgrow(n: nat)
    ensures Pow(5, 3 * n) >= Whole(n)
    ensures n >= 1 ==> Pow(5, 3 * n) > Whole(n)
  {
    if n > 0 {
      FivesOutgrow(n - 1);
      PowTwoMore(5, 3 * n - 3);
      assert Pow(5, 3 * n) == 5 * Pow(5, 3 * n - 1);
    }
  }

  // The rounds of the second call: 239^(2k) <= 956 * 100^(size-1) < 100^(size+1).
  lemma SecondRounds(size: nat, k: nat)
    requires size >= 2 && SecondSeries(size).Exhausted(k)
    ensures k >= 1 && 2 * k <= size + 1
  {
    LeadingTerms(size);
    SecondRoundsWeight(size, k);
    assert Whole(size + 1) == Whole(size) * BASE && Whole(size) == Whole(size - 1) * BASE;
    if 2 * k >= size + 2 {
      TooManyRounds(size, 2 * k);
    }
  }

  lemma SecondRoundsWeight(size: nat, k: nat)
    requires size >= 2 && k >= 1 && SecondSeries(size).Exhausted(k)
    ensures Pow(239, 2 * k) <= 956 * Whole(size - 1) && Whole(size - 1) > 0
  {
    SecondSeries(size).RoundsBound(k);
    ShiftedProduct(4, size - 1);
    WholeGrows(size - 1);
    assert Pow(239, 2 * k) == 239 * Pow(239, 2 * k - 1);
  }

  lemma TooManyRounds(size: nat, e: nat)
    requires e >= size + 1
    ensures Pow(239, e) >= Whole(size + 1)
  {
    PowBaseGrows(100, 239, e);
    PowGrows(100, size + 1, e);
  }

  // What the run leaves in pi, and how it was reached.
  ghost predicate MachinResult(cells: seq<int>, size: nat, j: nat, k: nat)
  {
    && size >= 2 && |cells| == size && AreDigits(cells)
    && FirstSeries(size).Exhausted(j) && SecondSeries(size).Exhausted(k)
    && Value(cells) == FirstSeries(size).Sum(j) + SecondSeries(size).Sum(k)
  }

  // Every result of the run starts with the cell 3 and is, whatever its size, within
  // 2*size+2 units in the last place of every longer exact Machin sum.
  lemma MachinAccuracy(cells: seq<int>, size: nat, j: nat, k: nat, n: nat)
    requires MachinResult(cells, size, j, k) && n >= j && n >= k
    ensures cells[0] == 3
    ensures var exact := ExactSum(FirstSeries(size), n) + ExactSum(SecondSeries(size), n);
            -((2 * size + 2) as real) < Value(cells) as real - exact < (2 * size + 2) as real
  {
    FirstRounds(size, j);
    SecondRounds(size, k);
    NothingDropped(size, j, k);
    WholePartThree(cells);
    TruncationBound(FirstSeries(size), j, n);
    TruncationBound(SecondSeries(size), k, n);
  }

  // What both calls together leave, from what each leaves.
  lemma BothCalls(size: nat, j: nat, k: nat, middle: int, cells: seq<int>)
    requires size >= 2 && FirstSeries(size).Exhausted(j) && SecondSeries(size).Exhausted(k)
    requires middle == FirstSeries(size).Accumulator(0, j)
    requires |cells| == size && AreDigits(cells) && Value(cells) == SecondSeries(size).Accumulator(middle, k)
    ensures MachinResult(cells, size, j, k)
    ensures middle == FirstSeries(size).Sum(j)
    ensures FirstSeries(size).Dropped(0, j + 1) == 0 && SecondSeries(size).Dropped(middle, k + 1) == 0
  {
    var a, b := FirstSeries(size), SecondSeries(size);
    FirstRounds(size, j);
    NothingDropped(size, j, k);
    a.AccumulatorExact(0, j);
    a.NothingMore(0, j);
    assert 0 <= a.Sum(j) < Whole(size);
    b.AccumulatorExact(middle, k);
    b.NothingMore(middle, k);
  }

  // The two calls of _main, on an accumulator of zeros. No carry or borrow is ever lost,
  // and every intermediate dividend stays below 5712100 or 300*size.
  method RunMachin(p: PiProgram) returns (ghost j: nat, ghost k: nat, ghost peak: int)
    requires p.Valid() && p.size >= 2
    requires forall x :: 0 <= x < p.size ==> p.pi[x] == 0
    modifies p.pi, p.powers, p.term
    ensures MachinResult(p.pi[..], p.size, j, k)
    ensures FirstSeries(p.size).Dropped(0, j + 1) == 0
    ensures SecondSeries(p.size).Dropped(FirstSeries(p.size).Sum(j), k + 1) == 0
    ensures p.pi[0] == 3
    ensures 0 <= peak && (peak < 5712100 || peak < 300 * p.size)
  {
    ZeroValue(p.pi[..]);
    ghost var trips, peak1 := p.Arctan(16, 5, 1);
    j := trips - 1;
    ghost var middle := Value(p.pi[..]);
    ghost var peak2;
    trips, peak2 := p.Arctan(4, 239, -1);
    k := trips - 1;
    BothCalls(p.size, j, k, middle, p.pi[..]);
    MachinAccuracy(p.pi[..], p.size, j, k, j + k);
    PeakOfRun(p.size, j, k);
    peak := if peak1 > peak2 then peak1 else peak2;
  }

  lemma PeakOfRun(size: nat, j: nat, k: nat)
    requires size >= 2 && FirstSeries(size).Exhausted(j) && SecondSeries(size).Exhausted(k)
    ensures FirstSeries(size).Peak(j + 1) <= 5712100 || FirstSeries(size).Peak(j + 1) <= 300 * size
    ensures SecondSeries(size).Peak(k + 1) <= 5712100 || SecondSeries(size).Peak(k + 1) <= 300 * size
  {
    FirstRounds(size, j);
    SecondRounds(size, k);
    FirstSeries(size).PeakBound(j + 1);
    SecondSeries(size).PeakBound(k + 1);
    FirstSeries(size).Products();
    SecondSeries(size).Products();
  }
}
