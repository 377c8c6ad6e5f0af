// The alternating series that one call of arctan adds up, scaled to 100^(size-1), and
// the bounds that its terms and partial sums obey.
module ArctanSeries {
  import opened Arithmetic
  import opened Digits
  import opened Ripple

  // One call arctan(multiplier, denom, sign) over arrays of `size` cells.
  datatype Series = Series(multiplier: nat, denom: nat, sign: int, size: nat) {

    ghost predicate Valid() {
      denom >= 2 && size >= 1
    }

    // multiplier * 100^(size-1)
    ghost function Scaled(): nat
      requires Valid()
    {
      Shifted(multiplier, size - 1)
    }

    // denom^2, and what enters at the first cell in round 0: multiplier * denom
    ghost function Square(): int {
      Multiple(denom, denom)
    }

    ghost function First(): int {
      Multiple(multiplier, denom)
    }

    lemma Products()
      requires Valid()
      ensures Square() == denom * denom && Square() > 1
      ensures First() == denom * multiplier && First() >= 0
    {
      MultipleIsProduct(denom, denom);
      MultipleIsProduct(multiplier, denom);
      MulMono(2, denom, denom);
    }

    // What `powers` denotes in round k: multiplier / denom^(2k+1), rounded down.
    ghost function PowerTerm(k: nat): nat
      requires Valid()
    {
      Floor(Scaled(), Pow(denom, 2 * k + 1))
    }

    // What `term` denotes in round k.
    ghost function Term(k: nat): nat
      requires Valid()
    {
      Floor(PowerTerm(k), 2 * k + 1)
    }

    ghost function CurrentSign(k: nat): int {
      if k == 0 then sign else -CurrentSign(k - 1)
    }

    lemma {:induction false} SignAlternates(k: nat)
      ensures CurrentSign(k) == if k % 2 == 0 then sign else -sign
    {
      if k > 0 {
        SignAlternates(k - 1);
      }
    }

    // n after round k has added its term when the current sign is positive, else
    // subtracted it.
    ghost function Step(n: int, k: nat): int
      requires Valid()
    {
      if CurrentSign(k) > 0 then n + Term(k) else n - Term(k)
    }

    // The signed sum of the first k terms.
    ghost function Sum(k: nat): int
      requires Valid()
    {
      if k == 0 then 0 else Step(Sum(k - 1), k - 1)
    }

    // k is the first round in which nothing is left to divide.
    ghost predicate Exhausted(k: nat)
      requires Valid()
    {
      PowerTerm(k) == 0 && forall j: nat :: j < k ==> PowerTerm(j) > 0
    }

    // Adding the terms one by one to `start` stays within `size` cells through round k.
    ghost predicate Fits(start: int, k: nat)
      requires Valid()
    {
      forall j: nat :: j <= k ==> 0 <= start + Sum(j) < Whole(size)
    }

    // What the accumulator of `size` cells holds after k rounds from `start`: the carry
    // or borrow that runs out of the first cell in a round is lost.
    ghost function Accumulator(start: int, k: nat): int
      requires Valid()
    {
      if k == 0 then start else Wrapped(Step(Accumulator(start, k - 1), k - 1), Whole(size))
    }

    // In how many of the first k rounds a carry or borrow is lost.
    ghost function Dropped(start: int, k: nat): nat
      requires Valid()
    {
      if k == 0 then 0
      else if Accumulator(start, k) == Step(Accumulator(start, k - 1), k - 1) then Dropped(start, k - 1)
      else Dropped(start, k - 1) + 1
    }

    // A bound on every intermediate dividend of the first k rounds.
    ghost function Peak(k: nat): int {
      if k == 0 then BASE * Square()
      else if Peak(k - 1) < BASE * (2 * k - 1) then BASE * (2 * k - 1)
      else Peak(k - 1)
    }

    lemma PeakGrows(k: nat, p: int)
      requires 0 <= p < BASE * Square() || 0 <= p < BASE * (2 * k + 1)
      ensures p < Peak(k + 1) && Peak(k) <= Peak(k + 1)
    {
      PeakBase(k);
    }

    lemma {:induction false} PeakBase(k: nat)
      ensures BASE * Square() <= Peak(k)
    {
      if k > 0 {
        PeakBase(k - 1);
      }
    }

    lemma {:induction false} PeakBound(k: nat)
      ensures Peak(k) == BASE * Square() || (k >= 1 && Peak(k) <= BASE * (2 * k - 1))
    {
      if k > 0 {
        PeakBound(k - 1);
      }
    }

    // What the outer loop knows of its counters before round `trips`.
    ghost predicate Counted(trips: nat, notZero: bool, current: int, divisor: int, peak: int)
      requires Valid()
    {
      && current == CurrentSign(trips) && divisor == 2 * trips + 1
      && (if trips == 0 then notZero && peak == 0 else notZero == (PowerTerm(trips - 1) != 0))
      && (trips > 0 ==> 0 <= peak < Peak(trips))
      && forall j: nat :: j < trips - 1 ==> PowerTerm(j) > 0
    }

    lemma NextCounted(trips: nat, current: int, divisor: int, peak: int, notZero: bool, round: int)
      requires Valid() && Counted(trips, true, current, divisor, peak)
      requires notZero <==> PowerTerm(trips) != 0
      requires 0 <= round < BASE * Square() || 0 <= round < BASE * divisor
      ensures Counted(trips + 1, notZero, -current, divisor + 2, if round > peak then round else peak)
    {
      PeakGrows(trips, round);
    }

    lemma LastCounted(trips: nat, current: int, divisor: int, peak: int)
      requires Valid() && Counted(trips, false, current, divisor, peak)
      ensures trips >= 1 && Exhausted(trips - 1) && 0 <= peak < Peak(trips)
    {}

    // Round 0 divides multiplier*denom, entered at the first cell, by denom^2.
    lemma FirstPower()
      requires Valid()
      ensures Square() > 1 && Shifted(First(), size - 1) >= 0
      ensures Floor(Shifted(First(), size - 1), Square()) == PowerTerm(0)
    {
      Products();
      ShiftedProduct(First(), size - 1);
      ShiftedProduct(multiplier, size - 1);
      MulAssoc(denom, multiplier, Whole(size - 1));
      assert Shifted(First(), size - 1) == denom * Scaled();
      CancelFactor(Scaled(), denom, denom);
      assert Pow(denom, 1) == denom * Pow(denom, 0) == denom;
    }

    // Every later round divides the previous contents by denom^2 once more.
    lemma NextPower(k: nat)
      requires Valid()
      ensures Square() > 1
      ensures Floor(PowerTerm(k), Square()) == PowerTerm(k + 1)
    {
      Products();
      var p, p' := Pow(denom, 2 * k + 1), Pow(denom, 2 * k + 3);
      assert p' == denom * (denom * p) by { PowTwoMore(denom, 2 * k + 1); }
      MulAssoc(denom, denom, p);
      NestedFloor(Scaled(), p, Square(), p');
    }

    // multiplier / (denom^(2k+1) * (2k+1)), rounded down once
    lemma TermClosedForm(k: nat)
      requires Valid()
      ensures Term(k) == Floor(Scaled(), Pow(denom, 2 * k + 1) * (2 * k + 1))
    {
      NestedFloor(Scaled(), Pow(denom, 2 * k + 1), 2 * k + 1, Pow(denom, 2 * k + 1) * (2 * k + 1));
    }

    lemma PowersShrink(k: nat)
      requires Valid()
      ensures k == 0 ==> PowerTerm(k) < Scaled() + 1
      ensures k > 0 && PowerTerm(k - 1) > 0 ==> PowerTerm(k) < PowerTerm(k - 1)
    {
      if k == 0 {
        if Scaled() > 0 {
          assert Pow(denom, 1) == denom * Pow(denom, 0) == denom;
          FloorShrinks(Scaled(), Pow(denom, 1));
        }
      } else if PowerTerm(k - 1) > 0 {
        NextPower(k - 1);
        FloorShrinks(PowerTerm(k - 1), Square());
      }
    }

    // What `powers` denotes before round k, and more than that before round 0.
    ghost function Left(k: nat): nat
      requires Valid()
    {
      if k == 0 then Scaled() + 1 else PowerTerm(k - 1)
    }

    lemma LeftShrinks(k: nat)
      requires Valid() && (k > 0 ==> PowerTerm(k - 1) > 0)
      ensures Left(k + 1) < Left(k) && Left(k + 1) == PowerTerm(k)
    {
      PowersShrink(k);
    }

    // An exhausted series stays exhausted, and its terms vanish.
    lemma {:induction false} StaysExhausted(k: nat, j: nat)
      requires Valid() && PowerTerm(k) == 0 && k <= j
      ensures PowerTerm(j) == 0 && Term(j) == 0
      decreases j
    {
      if k < j {
        StaysExhausted(k, j - 1);
        NextPower(j - 1);
      }
    }

    // The last non-zero power bounds the number of rounds.
    lemma RoundsBound(k: nat)
      requires Valid() && Exhausted(k) && k >= 1
      ensures Pow(denom, 2 * k - 1) <= Scaled()
    {
      assert PowerTerm(k - 1) > 0;
    }

    lemma {:induction false} TermsDecrease(j: nat, k: nat)
      requires Valid() && j <= k
      ensures Term(k) <= Term(j)
      decreases k
    {
      if j < k {
        TermsDecrease(j, k - 1);
        PowersShrink(k);
        FloorAntitone(PowerTerm(k), 2 * k - 1, 2 * k + 1);
        if PowerTerm(k - 1) == 0 {
          StaysExhausted(k - 1, k);
        } else {
          FloorMonotone(PowerTerm(k), PowerTerm(k - 1), 2 * k - 1);
        }
      }
    }

    // Every term fits the array when the multiplier is below 100 times the denominator.
    lemma TermBelow(k: nat)
      requires Valid() && multiplier < BASE * denom
      ensures Term(k) < Whole(size)
    {
      TermsDecrease(0, k);
      assert Pow(denom, 1) == denom * Pow(denom, 0) == denom;
      ShiftedProduct(multiplier, size - 1);
      MulStrict(multiplier, BASE * denom, Whole(size - 1));
      Regroup(denom, Whole(size - 1));
      FloorBelow(Scaled(), denom, Whole(size));
      FloorAtMost(PowerTerm(0), 1);
    }

    lemma Regroup(d: int, w: int)
      ensures BASE * d * w == d * (w * BASE)
    {}

    lemma AccumulatorNext(start: int, k: nat, before: int, after: int)
      requires Valid() && before == Accumulator(start, k)
      requires CurrentSign(k) > 0 ==> Wraps(after, before + Term(k), Whole(size))
      requires CurrentSign(k) <= 0 ==> Wraps(after, before - Term(k), Whole(size))
      ensures after == Accumulator(start, k + 1)
    {}

    // How many whole 100^size the accumulator is away from the exact sum.
    ghost function WholesAway(start: int, k: nat): int
      requires Valid()
    {
      if k == 0 then 0
      else if Step(Accumulator(start, k - 1), k - 1) >= Whole(size) then WholesAway(start, k - 1) - 1
      else if Step(Accumulator(start, k - 1), k - 1) < 0 then WholesAway(start, k - 1) + 1
      else WholesAway(start, k - 1)
    }

    lemma {:induction false} AccumulatorCongruent(start: int, k: nat)
      requires Valid() && 0 <= start < Whole(size) && multiplier < BASE * denom
      ensures 0 <= Accumulator(start, k) < Whole(size)
      ensures Accumulator(start, k) == start + Sum(k) + Multiple(WholesAway(start, k), Whole(size))
    {
      if k > 0 {
        AccumulatorCongruent(start, k - 1);
        TermBelow(k - 1);
        MultipleNext(WholesAway(start, k - 1), Whole(size));
      } else {
        MultipleNext(0, Whole(size));
      }
    }

    // The accumulator is the start value plus the series, modulo 100^size.
    lemma AccumulatorModulo(start: int, k: nat)
      requires Valid() && 0 <= start < Whole(size) && multiplier < BASE * denom
      ensures Accumulator(start, k) == (start + Sum(k)) % Whole(size)
    {
      AccumulatorCongruent(start, k);
      MultipleResidue(Accumulator(start, k), start + Sum(k), WholesAway(start, k), Whole(size));
    }

    // Nothing is lost exactly when the exact partial sums all fit, and then they are kept.
    lemma {:induction false} AccumulatorExact(start: int, k: nat)
      requires Valid() && 0 <= start < Whole(size)
      ensures Dropped(start, k) == 0 <==> Fits(start, k)
      ensures Fits(start, k) ==> Accumulator(start, k) == start + Sum(k)
    {
      if k > 0 {
        AccumulatorExact(start, k - 1);
        OneMore(start, k - 1);
      }
    }

    lemma OneMore(start: int, k: nat)
      requires Valid()
      ensures Fits(start, k + 1) <==> Fits(start, k) && 0 <= start + Sum(k + 1) < Whole(size)
    {
      assert k + 1 <= k + 1;
    }

    // The round that finds nothing left changes nothing.
    lemma NothingMore(start: int, k: nat)
      requires Valid() && PowerTerm(k) == 0
      requires 0 <= start < Whole(size) && multiplier < BASE * denom
      ensures Accumulator(start, k + 1) == Accumulator(start, k)
      ensures Dropped(start, k + 1) == Dropped(start, k)
    {
      StaysExhausted(k, k);
      AccumulatorCongruent(start, k);
    }

    // Non-increasing alternating terms keep every partial sum between 0 and the
    // first term, and, from the first on, at least the first two terms' difference.
    lemma {:induction false} PartialSumRange(k: nat)
      requires Valid() && sign > 0
      ensures InRange(k, Sum(k), Term(0), Term(1), if k == 0 then 0 else Term(k - 1))
    {
      if k >= 1 {
        SumStep(k);
        TermsDecrease(0, 1);
      }
      if k >= 2 {
        PartialSumRange(k - 1);
        TermsDecrease(k - 2, k - 1);
        RangeStep(k, Sum(k - 1), Term(0), Term(1), Term(k - 2), Term(k - 1));
      }
    }

    lemma SumStep(k: nat)
      requires Valid() && sign > 0 && k >= 1
      ensures Sum(k) == if k % 2 == 1 then Sum(k - 1) + Term(k - 1) else Sum(k - 1) - Term(k - 1)
    {
      SignAlternates(k - 1);
    }

    // What the lemma above says of a sum of k terms with these first, second and last terms.
    static ghost predicate InRange(k: nat, sum: int, first: nat, second: nat, last: nat)
    {
      && 0 <= sum <= first
      && (k >= 1 ==> first - second <= sum)
      && (k == 1 ==> sum == first == last)
      && (k >= 1 && k % 2 == 0 ==> sum <= first - last)
      && (k >= 3 && k % 2 == 1 ==> first - second + last <= sum)
    }

    static lemma RangeStep(k: nat, before: int, first: nat, second: nat, previous: nat, last: nat)
      requires k >= 2 && last <= previous && second <= first && (k == 2 ==> last == second)
      requires InRange(k - 1, before, first, second, previous)
      ensures InRange(k, if k % 2 == 1 then before + last else before - last, first, second, last)
    {}

    // Reversing the sign negates every partial sum.
    lemma {:induction false} NegatedSum(k: nat)
      requires Valid() && sign != 0
      ensures Sum(k) == -this.(sign := -sign).Sum(k)
    {
      if k > 0 {
        NegatedSum(k - 1);
        var other := this.(sign := -sign);
        SignAlternates(k - 1);
        other.SignAlternates(k - 1);
        assert other.Term(k - 1) == Term(k - 1);
      }
    }
  }
}
