// The digit printers of core-project/prog2/prog2.c:86-124 and their hand-edited
// assembly in core-project/prog2/prog2.S, over the bytes written to standard output.
module Printing {
  import opened Arithmetic
  import opened Digits

  const ZERO_CHAR := 48

  class Console {
    var out: seq<int>

    // putchar writes the low byte of its argument.
    method PutChar(c: int)
      modifies this
      ensures out == old(out) + [c % 256]
    {
      out := out + [c % 256];
    }
  }

  // The digits PrintVal emits: decimal, most significant first, no padding. A negative
  // value gets the one character below '0' that its remainder selects.
  function ValText(val: int): (text: seq<int>)
    ensures |text| >= 1
    decreases if val > 9 then val else 0
  {
    if val > 9 then ValText(val / 10) + [ZERO_CHAR + val % 10] else [ZERO_CHAR + TruncRem(val, 10)]
  }

  // The two digits PrintShort emits.
  function PairText(num: int): (text: seq<int>)
    ensures |text| == 2
  {
    [ZERO_CHAR + TruncRem(TruncDiv(num, 10), 10), ZERO_CHAR + TruncRem(num, 10)]
  }

  function PairsText(cells: seq<int>): (text: seq<int>)
    ensures |text| == 2 * |cells|
  {
    if cells == [] then [] else PairsText(cells[..|cells| - 1]) + PairText(cells[|cells| - 1])
  }

  // What Print emits.
  function PrintText(cells: seq<int>): seq<int>
    requires |cells| >= 1
  {
    [51, 46] + PairsText(cells[1..]) + [10]
  }

  method PrintVal(console: Console, val: int)
    modifies console
    ensures console.out == old(console.out) + ValText(val)
    decreases if val > 9 then val else 0
  {
    ghost var was := console.out;
    TruncDivRem(val, 10);
    if val > 9 {
      PrintVal(console, val / 10);
    }
    console.PutChar(ZERO_CHAR + TruncRem(val, 10));
    if val > 9 {
      assert was + ValText(val / 10) + [ZERO_CHAR + val % 10] == was + (ValText(val / 10) + [ZERO_CHAR + val % 10]);
    }
  }

  // Fills the digit buffer from the last digit, then emits it from the first.
  method PrintShort(console: Console, num: int)
    modifies console
    ensures console.out == old(console.out) + PairText(num)
  {
    var digits := new int[BASE_DIGITS + 1];
    var rest := num;
    ghost var rests := [num, TruncDiv(num, 10), TruncDiv(TruncDiv(num, 10), 10)];
    for x := 0 to BASE_DIGITS
      invariant rest == rests[x] && console.out == old(console.out)
      invariant forall y :: 0 <= y < x ==> digits[y] == TruncRem(rests[y], 10)
    {
      digits[x] := TruncRem(rest, 10);
      rest := TruncDiv(rest, 10);
    }
    ghost var was := console.out;
    var x := BASE_DIGITS - 1;
    while x >= 0
      invariant -1 <= x < BASE_DIGITS
      invariant forall y :: 0 <= y < BASE_DIGITS ==> digits[y] == TruncRem(rests[y], 10)
      invariant console.out == was + PairText(num)[..1 - x]
    {
      assert PairText(num)[..2 - x] == PairText(num)[..1 - x] + [ZERO_CHAR + digits[x]];
      console.PutChar(ZERO_CHAR + digits[x]);
      x := x - 1;
    }
    assert x == -1 && PairText(num)[..1 - x] == PairText(num);
  }

  lemma OnePairMore(before: seq<int>, cells: seq<int>, x: nat)
    requires 1 <= x < |cells|
    ensures before + PairsText(cells[1..x]) + PairText(cells[x]) == before + PairsText(cells[1..x + 1])
  {
    assert cells[1..x + 1][..x - 1] == cells[1..x];
  }

  method Print(console: Console, num: array<int>)
    requires num.Length >= 1
    modifies console
    ensures console.out == old(console.out) + PrintText(num[..])
  {
    ghost var was := console.out;
    ghost var cells := num[..];
    console.PutChar(51);
    console.PutChar(46);
    for x := 1 to num.Length
      invariant num[..] == cells
      invariant console.out == was + [51, 46] + PairsText(cells[1..x])
    {
      PrintShort(console, num[x]);
      OnePairMore(was + [51, 46], cells, x);
    }
    console.PutChar(10);
    assert cells[1..num.Length] == cells[1..];
  }

  // The number a text of decimal digits denotes.
  ghost function DecimalValue(text: seq<int>): int {
    if text == [] then 0 else DecimalValue(text[..|text| - 1]) * 10 + (text[|text| - 1] - ZERO_CHAR)
  }

  ghost predicate AllDigits(text: seq<int>) {
    forall i :: 0 <= i < |text| ==> ZERO_CHAR <= text[i] < ZERO_CHAR + 10
  }

  lemma DecimalAppend(text: seq<int>, c: int)
    ensures DecimalValue(text + [c]) == DecimalValue(text) * 10 + (c - ZERO_CHAR)
  {
    assert (text + [c])[..|text|] == text;
  }

  // PrintVal prints the number it is given, without leading zeros.
  lemma {:induction false} ValTextDenotes(val: nat)
    ensures AllDigits(ValText(val)) && DecimalValue(ValText(val)) == val
    ensures val > 0 ==> ValText(val)[0] != ZERO_CHAR
  {
    if val > 9 {
      ValTextDenotes(val / 10);
      DecimalAppend(ValText(val / 10), ZERO_CHAR + val % 10);
    } else {
      DecimalAppend([], ZERO_CHAR + val);
    }
  }

  // The pairs printed after the point are the cells, read as one decimal number.
  lemma {:induction false} PairsTextDenotes(cells: seq<int>)
    requires AreDigits(cells)
    ensures AllDigits(PairsText(cells)) && DecimalValue(PairsText(cells)) == Value(cells)
  {
    if cells != [] {
      var front, d := cells[..|cells| - 1], cells[|cells| - 1];
      PairsTextDenotes(front);
      PairAppended(PairsText(front), d);
      PairIsDigits(d);
      DigitsConcat(PairsText(front), PairText(d));
    }
  }

  lemma PairIsDigits(d: int)
    requires 0 <= d < BASE
    ensures PairText(d) == [ZERO_CHAR + d / 10] + [ZERO_CHAR + d % 10]
    ensures AllDigits(PairText(d))
  {
    assert d / 10 < 10;
  }

  // A pair appended multiplies what was read before by 100.
  lemma PairAppended(text: seq<int>, d: int)
    requires 0 <= d < BASE
    ensures DecimalValue(text + PairText(d)) == DecimalValue(text) * BASE + d
  {
    PairIsDigits(d);
    var tens, ones := ZERO_CHAR + d / 10, ZERO_CHAR + d % 10;
    assert text + PairText(d) == (text + [tens]) + [ones];
    DecimalAppend(text, tens);
    DecimalAppend(text + [tens], ones);
  }

  // Read without its point and newline, the whole printed line denotes the value of the
  // cells, exactly when the first cell is the 3 that Print writes unconditionally.
  lemma PrintDenotes(cells: seq<int>)
    requires AreDigits(cells) && |cells| >= 1
    ensures var text := PrintText(cells);
            && text[1] == 46 && text[|text| - 1] == 10
            && AllDigits([text[0]] + text[2..|text| - 1])
            && (DecimalValue([text[0]] + text[2..|text| - 1]) == Value(cells) <==> cells[0] == 3)
  {
    var text, n := PrintText(cells), |cells| - 1;
    assert text[2..|text| - 1] == PairsText(cells[1..]);
    ThreeAndPairs(cells[1..]);
    assert cells == [cells[0]] + cells[1..];
    ValuePrepend(cells[0], cells[1..]);
    ShiftedTells(cells[0], 3, n);
  }

  // The digits printed, without the point.
  lemma ThreeAndPairs(cells: seq<int>)
    requires AreDigits(cells)
    ensures AllDigits([51] + PairsText(cells))
    ensures DecimalValue([51] + PairsText(cells)) == Shifted(3, |cells|) + Value(cells)
  {
    OneDigit(51);
    PairsAfter([51], cells);
    PairsTextDenotes(cells);
    DigitsConcat([51], PairsText(cells));
  }

  lemma DigitsConcat(a: seq<int>, b: seq<int>)
    requires AllDigits(a) && AllDigits(b)
    ensures AllDigits(a + b)
  {}

  lemma OneDigit(c: int)
    ensures DecimalValue([c]) == c - ZERO_CHAR
  {
    assert [c][..0] == [];
  }

  lemma ShiftedTells(c: int, d: int, n: nat)
    ensures Shifted(c, n) == Shifted(d, n) <==> c == d
  {
    ShiftedProduct(c, n);
    ShiftedProduct(d, n);
    if c < d {
      MulStrict(c, d, Whole(n));
    } else if c > d {
      MulStrict(d, c, Whole(n));
    }
  }

  // Each pair appended multiplies what was read before by 100.
  lemma {:induction false} PairsAfter(text: seq<int>, cells: seq<int>)
    requires AreDigits(cells)
    ensures DecimalValue(text + PairsText(cells)) == Shifted(DecimalValue(text), |cells|) + Value(cells)
  {
    if cells == [] {
      assert text + PairsText(cells) == text;
    } else {
      var front, d := cells[..|cells| - 1], cells[|cells| - 1];
      PairsAfter(text, front);
      PairAppended(text + PairsText(front), d);
      assert text + PairsText(cells) == (text + PairsText(front)) + PairText(d);
    }
  }
}
