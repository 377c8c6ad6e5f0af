// Addition and subtraction with the carry or borrow rippling from the last cell to
// the first (core-project/prog2/prog2.c:159-192).
module Ripple {
  import opened Digits

  // What is kept of n when a carry or borrow out of `whole` is lost.
  ghost function Wrapped(n: int, whole: int): int {
    if n >= whole then n - whole else if n < 0 then n + whole else n
  }

  ghost predicate Wraps(kept: int, n: int, whole: int) {
    && (n >= whole ==> kept == n - whole)
    && (n < 0 ==> kept == n + whole)
    && (0 <= n < whole ==> kept == n)
  }

  // The weight of a carry or borrow out of the first of n cells.
  ghost function Lost(bit: int, n: nat): int {
    if bit == 0 then 0 else Whole(n)
  }

  // At the weight of a position, a cell and the carry out of it make up what came in.
  lemma {:induction false} CellWeight(cell: int, next: int, da: int, db: int, carry: int, n: nat)
    requires 0 <= next <= 1 && 0 <= carry <= 1 && cell + next * BASE == da + db + carry
    ensures Shifted(cell, n) + Lost(next, n + 1) == Shifted(da, n) + Shifted(db, n) + Lost(carry, n)
  {
    if n > 0 {
      CellWeight(cell, next, da, db, carry, n - 1);
    }
  }

  lemma {:induction false} BorrowWeight(cell: int, next: int, da: int, db: int, borrow: int, n: nat)
    requires 0 <= next <= 1 && 0 <= borrow <= 1 && cell - next * BASE == da - db - borrow
    ensures Shifted(cell, n) - Lost(next, n + 1) == Shifted(da, n) - Shifted(db, n) - Lost(borrow, n)
  {
    if n > 0 {
      BorrowWeight(cell, next, da, db, borrow, n - 1);
    }
  }

  ghost predicate Added(sum: seq<int>, a: seq<int>, b: seq<int>, carry: int)
  {
    && |sum| == |a| == |b|
    && AreDigits(sum)
    && 0 <= carry <= 1
    && Value(sum) + Lost(carry, |a|) == Value(a) + Value(b)
  }

  ghost predicate Subtracted(difference: seq<int>, a: seq<int>, b: seq<int>, borrow: int)
  {
    && |difference| == |a| == |b|
    && AreDigits(difference)
    && 0 <= borrow <= 1
    && Value(difference) - Lost(borrow, |a|) == Value(a) - Value(b)
  }

  lemma AddCell(sum: seq<int>, a: seq<int>, b: seq<int>, carry: int, da: int, db: int)
    requires Added(sum, a, b, carry) && 0 <= da < BASE && 0 <= db < BASE
    ensures var cell := da + db + carry;
            && (cell >= BASE ==> Added([cell - BASE] + sum, [da] + a, [db] + b, 1))
            && (cell < BASE ==> Added([cell] + sum, [da] + a, [db] + b, 0))
  {
    var cell := da + db + carry;
    var next := if cell >= BASE then 1 else 0;
    ValuePrepend(da, a);
    ValuePrepend(db, b);
    ValuePrepend(cell - next * BASE, sum);
    CellWeight(cell - next * BASE, next, da, db, carry, |a|);
  }

  lemma SubtractCell(difference: seq<int>, a: seq<int>, b: seq<int>, borrow: int, da: int, db: int)
    requires Subtracted(difference, a, b, borrow) && 0 <= da < BASE && 0 <= db < BASE
    ensures var cell := da - db - borrow;
            && (cell < 0 ==> Subtracted([cell + BASE] + difference, [da] + a, [db] + b, 1))
            && (cell >= 0 ==> Subtracted([cell] + difference, [da] + a, [db] + b, 0))
  {
    var cell := da - db - borrow;
    var next := if cell < 0 then 1 else 0;
    ValuePrepend(da, a);
    ValuePrepend(db, b);
    ValuePrepend(cell + next * BASE, difference);
    BorrowWeight(cell + next * BASE, next, da, db, borrow, |a|);
  }

  // The carry that leaves cell x to the left.
  ghost function CarryFrom(a: seq<int>, b: seq<int>, x: nat): int
    requires |a| == |b| && x <= |a|
    decreases |a| - x
  {
    if x < |a| && a[x] + b[x] + CarryFrom(a, b, x + 1) >= BASE then 1 else 0
  }

  ghost function SumCell(a: seq<int>, b: seq<int>, x: nat): int
    requires |a| == |b| && x < |a|
  {
    a[x] + b[x] + CarryFrom(a, b, x + 1) - (if CarryFrom(a, b, x) == 1 then BASE else 0)
  }

  // The borrow that leaves cell x to the left.
  ghost function BorrowFrom(a: seq<int>, b: seq<int>, x: nat): int
    requires |a| == |b| && x <= |a|
    decreases |a| - x
  {
    if x < |a| && a[x] - b[x] - BorrowFrom(a, b, x + 1) < 0 then 1 else 0
  }

  ghost function DifferenceCell(a: seq<int>, b: seq<int>, x: nat): int
    requires |a| == |b| && x < |a|
  {
    a[x] - b[x] - BorrowFrom(a, b, x + 1) + (if BorrowFrom(a, b, x) == 1 then BASE else 0)
  }

  ghost function SumCells(a: seq<int>, b: seq<int>): (s: seq<int>)
    requires |a| == |b|
    ensures |s| == |a|
  {
    seq(|a|, x requires 0 <= x < |a| => SumCell(a, b, x))
  }

  ghost function DifferenceCells(a: seq<int>, b: seq<int>): (s: seq<int>)
    requires |a| == |b|
    ensures |s| == |a|
  {
    seq(|a|, x requires 0 <= x < |a| => DifferenceCell(a, b, x))
  }

  // What the loops compute at cell x.
  lemma SumAt(a: seq<int>, b: seq<int>, x: nat)
    requires |a| == |b| && x < |a|
    ensures var sum := a[x] + b[x] + CarryFrom(a, b, x + 1);
            && (sum >= BASE ==> CarryFrom(a, b, x) == 1 && SumCells(a, b)[x] == sum - BASE)
            && (sum < BASE ==> CarryFrom(a, b, x) == 0 && SumCells(a, b)[x] == sum)
  {}

  lemma DifferenceAt(a: seq<int>, b: seq<int>, x: nat)
    requires |a| == |b| && x < |a|
    ensures var sum := a[x] - b[x] - BorrowFrom(a, b, x + 1);
            && (sum < 0 ==> BorrowFrom(a, b, x) == 1 && DifferenceCells(a, b)[x] == sum + BASE)
            && (sum >= 0 ==> BorrowFrom(a, b, x) == 0 && DifferenceCells(a, b)[x] == sum)
  {}

  lemma HeadAndTail(s: seq<int>, x: nat)
    requires x < |s|
    ensures [s[x]] + s[x + 1..] == s[x..]
  {}

  // Cell by cell, from the last to the first, the cells add up.
  lemma {:induction false} CellsAdded(a: seq<int>, b: seq<int>, x: nat)
    requires |a| == |b| && AreDigits(a) && AreDigits(b) && x <= |a|
    ensures Added(SumCells(a, b)[x..], a[x..], b[x..], CarryFrom(a, b, x))
    decreases |a| - x
  {
    if x < |a| {
      var s := SumCells(a, b);
      CellsAdded(a, b, x + 1);
      SumAt(a, b, x);
      AddedFrom(s, a, b, x, CarryFrom(a, b, x + 1), CarryFrom(a, b, x));
    }
  }

  lemma AddedFrom(s: seq<int>, a: seq<int>, b: seq<int>, x: nat, carry: int, next: int)
    requires |s| == |a| == |b| && x < |a| && AreDigits(a) && AreDigits(b)
    requires Added(s[x + 1..], a[x + 1..], b[x + 1..], carry)
    requires next == if a[x] + b[x] + carry >= BASE then 1 else 0
    requires s[x] == a[x] + b[x] + carry - next * BASE
    ensures Added(s[x..], a[x..], b[x..], next)
  {
    HeadAndTail(s, x);
    HeadAndTail(a, x);
    HeadAndTail(b, x);
    AddCell(s[x + 1..], a[x + 1..], b[x + 1..], carry, a[x], b[x]);
  }

  lemma {:induction false} CellsSubtracted(a: seq<int>, b: seq<int>, x: nat)
    requires |a| == |b| && AreDigits(a) && AreDigits(b) && x <= |a|
    ensures Subtracted(DifferenceCells(a, b)[x..], a[x..], b[x..], BorrowFrom(a, b, x))
    decreases |a| - x
  {
    if x < |a| {
      var s := DifferenceCells(a, b);
      CellsSubtracted(a, b, x + 1);
      DifferenceAt(a, b, x);
      SubtractedFrom(s, a, b, x, BorrowFrom(a, b, x + 1), BorrowFrom(a, b, x));
    }
  }

  lemma SubtractedFrom(s: seq<int>, a: seq<int>, b: seq<int>, x: nat, borrow: int, next: int)
    requires |s| == |a| == |b| && x < |a| && AreDigits(a) && AreDigits(b)
    requires Subtracted(s[x + 1..], a[x + 1..], b[x + 1..], borrow)
    requires next == if a[x] - b[x] - borrow < 0 then 1 else 0
    requires s[x] == a[x] - b[x] - borrow + next * BASE
    ensures Subtracted(s[x..], a[x..], b[x..], next)
  {
    HeadAndTail(s, x);
    HeadAndTail(a, x);
    HeadAndTail(b, x);
    SubtractCell(s[x + 1..], a[x + 1..], b[x + 1..], borrow, a[x], b[x]);
  }

  lemma AllAdded(a: seq<int>, b: seq<int>)
    requires |a| == |b| && AreDigits(a) && AreDigits(b)
    ensures Added(SumCells(a, b), a, b, CarryFrom(a, b, 0))
  {
    CellsAdded(a, b, 0);
    assert SumCells(a, b)[0..] == SumCells(a, b) && a[0..] == a && b[0..] == b;
  }

  lemma AllSubtracted(a: seq<int>, b: seq<int>)
    requires |a| == |b| && AreDigits(a) && AreDigits(b)
    ensures Subtracted(DifferenceCells(a, b), a, b, BorrowFrom(a, b, 0))
  {
    CellsSubtracted(a, b, 0);
    assert DifferenceCells(a, b)[0..] == DifferenceCells(a, b) && a[0..] == a && b[0..] == b;
  }

  // The carry leaves cell 0 exactly when the sum no longer fits.
  lemma CarryOut(sum: seq<int>, a: seq<int>, b: seq<int>, carry: int)
    requires Added(sum, a, b, carry) && AreDigits(a) && AreDigits(b)
    ensures Wraps(Value(sum), Value(a) + Value(b), Whole(|a|))
    ensures carry == 1 <==> Value(a) + Value(b) >= Whole(|a|)
  {
    ValueBounds(sum);
    ValueBounds(a);
    ValueBounds(b);
  }

  // The borrow leaves cell 0 exactly when the difference is negative.
  lemma BorrowOut(difference: seq<int>, a: seq<int>, b: seq<int>, borrow: int)
    requires Subtracted(difference, a, b, borrow) && AreDigits(a) && AreDigits(b)
    ensures Wraps(Value(difference), Value(a) - Value(b), Whole(|a|))
    ensures borrow == 1 <==> Value(a) < Value(b)
  {
    ValueBounds(difference);
    ValueBounds(a);
    ValueBounds(b);
  }
}
