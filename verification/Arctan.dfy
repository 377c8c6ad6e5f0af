// The arrays and loops of core-project/prog2/prog2.c.
module ArctanProgram {
  import opened Arithmetic
  import opened Digits
  import opened ArctanSeries
  import opened LongDivision
  import opened Ripple

  class PiProgram {
    const size: nat
    const pi: array<int>
    const powers: array<int>
    const term: array<int>

    ghost predicate Valid()
    {
      && size >= 1
      && pi.Length == powers.Length == term.Length == size
      && pi != powers && pi != term && powers != term
    }

    constructor (size: nat)
      requires size >= 1
      ensures Valid() && this.size == size
      ensures fresh(pi) && fresh(powers) && fresh(term)
      ensures forall x :: 0 <= x < size ==> pi[x] == 0
    {
      this.size := size;
      pi := new int[size](_ => 0);
      powers := new int[size];
      term := new int[size];
    }

    // The body that both division loops share: a quotient cell, and the remainder at
    // the weight of the next cell.
    method DivideCell(temp: nat, d: nat) returns (cell: int, remain: nat)
      requires d > 0
      ensures cell == Floor(temp, d) && remain == Scale(temp, d)
    {
      CellArithmetic(temp, d);
      cell := temp / d;
      remain := (temp - d * cell) * BASE;
    }

    // The first inner loop: long division of powers by denom2 in place, `first`
    // entering at cell 0. Starting at adv gives what starting at 0 would give.
    // `peak` is the largest intermediate dividend.
    method DividePowers(adv: nat, first: nat, denom2: nat) returns (ghost peak: int)
      requires Valid() && adv < size && denom2 > 0
      requires AreDigits(powers[..])
      requires forall x :: 0 <= x < adv ==> powers[x] == 0
      requires Enters(powers[..], first, denom2) && (first != 0 ==> adv == 0)
      modifies powers
      ensures powers[..] == Quotient(old(powers[..]), first, denom2)
      ensures 0 <= peak < BASE * denom2
    {
      ghost var was := powers[..];
      ghost var quotient := Quotient(was, first, denom2);
      var remain := first;
      var x := adv;
      peak := 0;
      if adv > 0 {
        ZerosStay(was, denom2, adv);
      }
      while x < size
        invariant adv <= x <= size
        invariant forall y :: 0 <= y < x ==> powers[y] == quotient[y]
        invariant forall y :: x <= y < size ==> powers[y] == was[y]
        invariant remain == Remain(was[..x], first, denom2)
        invariant 0 <= peak < BASE * denom2
      {
        DivisionCell(was, first, denom2, x);
        var temp := powers[x] + remain;
        powers[x], remain := DivideCell(temp, denom2);
        peak := if temp > peak then temp else peak;
        x := x + 1;
      }
    }

    // The second inner loop: long division of powers by divisor into term. The cells
    // of term before adv are not written; they must still be zero from earlier rounds.
    method DivideTerm(adv: nat, divisor: nat) returns (ghost peak: int)
      requires Valid() && adv < size && divisor > 0
      requires AreDigits(powers[..])
      requires forall x :: 0 <= x < adv ==> powers[x] == 0 && term[x] == 0
      modifies term
      ensures term[..] == Quotient(powers[..], 0, divisor)
      ensures 0 <= peak < BASE * divisor
    {
      ghost var source := powers[..];
      ghost var quotient := Quotient(source, 0, divisor);
      var remain := 0;
      var x := adv;
      peak := 0;
      NothingEnters(source, divisor);
      ZerosStay(source, divisor, adv);
      while x < size
        invariant adv <= x <= size
        invariant forall y :: 0 <= y < x ==> term[y] == quotient[y]
        invariant remain == Remain(source[..x], 0, divisor)
        invariant 0 <= peak < BASE * divisor
      {
        DivisionCell(source, 0, divisor, x);
        var temp := powers[x] + remain;
        term[x], remain := DivideCell(temp, divisor);
        peak := if temp > peak then temp else peak;
        x := x + 1;
      }
    }

    // The ripple-carry loop. The carry out of cell 0 is what the program drops.
    method AddTerm() returns (carry: int)
      requires Valid() && AreDigits(pi[..]) && AreDigits(term[..])
      modifies pi
      ensures Added(pi[..], old(pi[..]), term[..], carry)
    {
      ghost var was := pi[..];
      ghost var added := term[..];
      ghost var sums := SumCells(was, added);
      carry := 0;
      var x := size - 1;
      while x >= 0
        invariant -1 <= x < size
        invariant pi[..x + 1] == was[..x + 1] && pi[x + 1..] == sums[x + 1..]
        invariant carry == CarryFrom(was, added, x + 1)
      {
        SumAt(was, added, x);
        var sum := pi[x] + term[x] + carry;
        carry := 0;
        if sum >= BASE {
          carry := 1;
          sum := sum - BASE;
        }
        pi[x] := sum;
        x := x - 1;
      }
      assert pi[..] == sums;
      AllAdded(was, added);
    }

    // The ripple-borrow loop. The borrow out of cell 0 is what the program drops.
    method SubtractTerm() returns (borrow: int)
      requires Valid() && AreDigits(pi[..]) && AreDigits(term[..])
      modifies pi
      ensures Subtracted(pi[..], old(pi[..]), term[..], borrow)
    {
      ghost var was := pi[..];
      ghost var taken := term[..];
      ghost var differences := DifferenceCells(was, taken);
      borrow := 0;
      var x := size - 1;
      while x >= 0
        invariant -1 <= x < size
        invariant pi[..x + 1] == was[..x + 1] && pi[x + 1..] == differences[x + 1..]
        invariant borrow == BorrowFrom(was, taken, x + 1)
      {
        DifferenceAt(was, taken, x);
        var sum := pi[x] - term[x] - borrow;
        borrow := 0;
        if sum < 0 {
          borrow := 1;
          sum := sum + BASE;
        }
        pi[x] := sum;
        x := x - 1;
      }
      assert pi[..] == differences;
      AllSubtracted(was, taken);
    }

    // Whether a cell from adv on is non-zero, and the first such cell.
    method SkipLeadingZeros(adv: nat) returns (notZero: bool, next: nat)
      requires Valid() && adv < size && AreDigits(powers[..])
      requires forall x :: 0 <= x < adv ==> powers[x] == 0
      ensures notZero <==> Value(powers[..]) != 0
      ensures next < size && next <= LeadingZeros(powers[..])
      ensures notZero ==> powers[next] != 0
    {
      notZero := false;
      next := adv;
      var x := adv;
      while x < size
        invariant adv <= x <= size && !notZero
        invariant forall y :: 0 <= y < x ==> powers[y] == 0
      {
        if powers[x] != 0 {
          notZero := true;
          break;
        }
        x := x + 1;
      }
      ZeroValue(powers[..]);
      if notZero {
        assert powers[..][x] != 0;
        while powers[next] == 0
          invariant next <= x
          invariant forall y :: 0 <= y < next ==> powers[y] == 0
          decreases x - next
        {
          next := next + 1;
        }
      }
    }

    // What holds at the head of the outer loop before round k.
    ghost predicate BeforeRound(arc: Series, k: nat, adv: nat, first: int)
      requires arc.Valid()
      reads this, powers, term
    {
      && Valid() && arc.size == size && adv < size
      && AreDigits(powers[..])
      && (forall x :: 0 <= x < adv ==> powers[x] == 0 && term[x] == 0)
      && (k == 0 ==> adv == 0 && Value(powers[..]) == 0 && first == arc.First())
      && (k > 0 ==> first == 0 && Value(powers[..]) == arc.PowerTerm(k - 1))
    }

    // The first division of round k: powers comes to denote PowerTerm(k).
    method RoundPowers(ghost arc: Series, ghost k: nat, adv: nat, first: nat, denom2: nat) returns (ghost peak: int)
      requires arc.Valid() && BeforeRound(arc, k, adv, first)
      requires arc.multiplier < BASE * arc.denom && denom2 == arc.Square()
      modifies powers
      ensures AreDigits(powers[..])
      ensures Value(powers[..]) == arc.PowerTerm(k)
      ensures forall x :: 0 <= x < adv ==> powers[x] == 0
      ensures 0 <= peak < BASE * denom2
    {
      ghost var was := powers[..];
      PowersOfRound(arc, k, was, first, denom2);
      DivisionBounds(was, first, denom2);
      peak := DividePowers(adv, first, denom2);
      if adv > 0 {
        ZerosStay(was, denom2, adv);
        assert forall x :: 0 <= x < adv ==> powers[x] == powers[..][x];
      }
    }

    static lemma PowersOfRound(arc: Series, k: nat, was: seq<int>, first: nat, denom2: nat)
      requires arc.Valid() && |was| == arc.size && AreDigits(was)
      requires arc.multiplier < BASE * arc.denom && denom2 == arc.Square()
      requires k == 0 ==> Value(was) == 0 && first == arc.First()
      requires k > 0 ==> first == 0 && Value(was) == arc.PowerTerm(k - 1)
      ensures denom2 > 0 && Enters(was, first, denom2)
      ensures Value(Quotient(was, first, denom2)) == arc.PowerTerm(k)
    {
      MultipleIsProduct(arc.denom, arc.denom);
      MultipleIsProduct(arc.multiplier, arc.denom);
      MulMono(2, arc.denom, arc.denom);
      DivisionValue(was, first, denom2);
      if k == 0 {
        ZeroValue(was);
        MulStrict(arc.multiplier, BASE * arc.denom, arc.denom);
        MulAssoc(BASE, arc.denom, arc.denom);
        arc.FirstPower();
      } else {
        ShiftedBit(|was| - 1);
        arc.NextPower(k - 1);
        NothingEnters(was, denom2);
      }
    }

    static lemma TermOfRound(arc: Series, k: nat, now: seq<int>, divisor: nat)
      requires arc.Valid() && divisor == 2 * k + 1
      requires now != [] && AreDigits(now) && Value(now) == arc.PowerTerm(k)
      ensures AreDigits(Quotient(now, 0, divisor))
      ensures Value(Quotient(now, 0, divisor)) == arc.Term(k)
      ensures forall x :: 0 <= x < LeadingZeros(now) ==> Quotient(now, 0, divisor)[x] == 0
    {
      NothingEnters(now, divisor);
      DivisionBounds(now, 0, divisor);
      DivisionValue(now, 0, divisor);
      ShiftedBit(|now| - 1);
      ZerosStay(now, divisor, LeadingZeros(now));
    }

    // Adds or subtracts term, as the sign says. The carry or borrow out of cell 0 is lost.
    method Accumulate(sign: int)
      requires Valid() && AreDigits(pi[..]) && AreDigits(term[..])
      modifies pi
      ensures AreDigits(pi[..])
      ensures sign > 0 ==> Wraps(Value(pi[..]), old(Value(pi[..])) + Value(term[..]), Whole(size))
      ensures sign <= 0 ==> Wraps(Value(pi[..]), old(Value(pi[..])) - Value(term[..]), Whole(size))
    {
      ghost var was := pi[..];
      if sign > 0 {
        var carry := AddTerm();
        CarryOut(pi[..], was, term[..], carry);
      } else {
        var borrow := SubtractTerm();
        BorrowOut(pi[..], was, term[..], borrow);
      }
    }

    method ClearPowers()
      requires Valid()
      modifies powers
      ensures AreDigits(powers[..]) && Value(powers[..]) == 0
    {
      for x := 0 to size
        invariant forall y :: 0 <= y < x ==> powers[y] == 0
      {
        powers[x] := 0;
      }
      ZeroValue(powers[..]);
    }

    // One pass of the outer loop: round k of the series.
    method Round(ghost arc: Series, ghost k: nat, ghost start: int,
                 adv: nat, remain: nat, denom2: nat, divisor: nat, sign: int)
      returns (notZero: bool, next: nat, ghost peak: int)
      requires arc.Valid() && arc.multiplier < BASE * arc.denom
      requires BeforeRound(arc, k, adv, remain)
      requires denom2 == arc.Square() && divisor == 2 * k + 1 && sign == arc.CurrentSign(k)
      requires AreDigits(pi[..]) && Value(pi[..]) == arc.Accumulator(start, k)
      modifies pi, powers, term
      ensures BeforeRound(arc, k + 1, next, 0)
      ensures notZero <==> arc.PowerTerm(k) != 0
      ensures AreDigits(pi[..]) && AreDigits(term[..])
      ensures Value(pi[..]) == arc.Accumulator(start, k + 1)
      ensures 0 <= peak < BASE * denom2 || 0 <= peak < BASE * divisor
    {
      peak := RoundPowers(arc, k, adv, remain, denom2);
      ghost var now := powers[..];
      ghost var peak2 := DivideTerm(adv, divisor);
      peak := if peak2 > peak then peak2 else peak;
      TermOfRound(arc, k, now, divisor);
      ghost var zeros := LeadingZeros(now);
      assert forall x :: 0 <= x < zeros ==> term[..][x] == 0;
      ghost var before := Value(pi[..]);
      Accumulate(sign);
      arc.AccumulatorNext(start, k, before, Value(pi[..]));
      notZero, next := SkipLeadingZeros(adv);
    }

    // denom^2, and what round 0 enters at the first cell.
    static method Products(ghost arc: Series, denom: nat, multiplier: nat) returns (denom2: nat, first: nat)
      requires denom == arc.denom && multiplier == arc.multiplier
      ensures denom2 == arc.Square() && first == arc.First()
    {
      MultipleIsProduct(denom, denom);
      MultipleIsProduct(multiplier, denom);
      denom2 := denom * denom;
      first := multiplier * denom;
    }

    // One call of arctan. trips counts the passes of the outer loop, peak is the
    // largest intermediate dividend.
    method Arctan(multiplier: nat, denom: nat, sign: int) returns (ghost trips: nat, ghost peak: int)
      requires Valid() && AreDigits(pi[..])
      requires denom >= 2 && multiplier < BASE * denom
      modifies pi, powers, term
      ensures AreDigits(pi[..]) && AreDigits(powers[..]) && AreDigits(term[..])
      ensures var arc := Series(multiplier, denom, sign, size);
              && trips >= 1 && arc.Exhausted(trips - 1)
              && Value(pi[..]) == arc.Accumulator(old(Value(pi[..])), trips - 1)
              && 0 <= peak < arc.Peak(trips)
    {
      ghost var arc := Series(multiplier, denom, sign, size);
      ghost var start := Value(pi[..]);
      ValueBounds(pi[..]);
      ClearPowers();
      var current := sign;
      var divisor := 1;
      var denom2, remain := Products(arc, denom, multiplier);
      var adv: nat := 0;
      var notZero := true;
      trips, peak := 0, 0;
      while notZero
        invariant BeforeRound(arc, trips, adv, remain)
        invariant arc.Counted(trips, notZero, current, divisor, peak)
        invariant AreDigits(pi[..]) && Value(pi[..]) == arc.Accumulator(start, trips)
        invariant trips > 0 ==> AreDigits(term[..])
        decreases notZero, arc.Left(trips)
      {
        ghost var round;
        var more: bool;
        more, adv, round := Round(arc, trips, start, adv, remain, denom2, divisor, current);
        arc.LeftShrinks(trips);
        arc.NextCounted(trips, current, divisor, peak, more, round);
        peak := if round > peak then round else peak;
        remain := 0;
        current := -current;
        divisor := divisor + 2;
        trips := trips + 1;
        notZero := more;
      }
      arc.LastCounted(trips, current, divisor, peak);
      arc.NothingMore(start, trips - 1);
    }
  }
}
