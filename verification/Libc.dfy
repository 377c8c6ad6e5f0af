// The string routines of core-project/prog2/libc.c, which read memory one aligned
// 64-bit word at a time.
module Libc {
  import opened Arithmetic
  import opened MachineWords
  import opened Printing

  // Byte-addressed memory; an address outside the map may not be read.
  type Memory = map<nat, bv8>

  // All eight bytes of the aligned word at p can be read.
  ghost predicate Readable(mem: Memory, p: nat) {
    forall i :: p <= i < p + 8 ==> i in mem
  }

  // The address of the aligned word that holds p.
  ghost function WordOf(p: nat): nat {
    if p < 8 then 0 else 8 + WordOf(p - 8)
  }

  lemma {:induction false} WordOfAligns(p: nat)
    ensures WordOf(p) == p - p % 8
    decreases p
  {
    if p >= 8 {
      WordOfAligns(p - 8);
    }
  }

  // Every aligned word from the one that holds `from` to the one that holds `to`.
  ghost predicate ReadableWords(mem: Memory, from: nat, to: nat) {
    forall i: nat :: WordOf(from) <= i < WordOf(to) + 8 ==> i in mem
  }

  // What may be read once a part of the words may be.
  lemma ReadableFrom(mem: Memory, s: nat, to: nat, c: nat)
    requires ReadableWords(mem, s, to) && s <= c <= to
    ensures ReadableWords(mem, c, to) && Readable(mem, c - c % 8) && c in mem
  {
    WordOfAligns(s);
    WordOfAligns(c);
    WordOfAligns(to);
  }

  // The little-endian word at p.
  function LoadWord(mem: Memory, p: nat): bv64
    requires Readable(mem, p)
  {
    Assemble(mem[p], mem[p + 1], mem[p + 2], mem[p + 3], mem[p + 4], mem[p + 5], mem[p + 6], mem[p + 7])
  }

  function Assemble(b0: bv8, b1: bv8, b2: bv8, b3: bv8, b4: bv8, b5: bv8, b6: bv8, b7: bv8): bv64 {
    (b0 as bv64) | ((b1 as bv64) << 8) | ((b2 as bv64) << 16) | ((b3 as bv64) << 24)
    | ((b4 as bv64) << 32) | ((b5 as bv64) << 40) | ((b6 as bv64) << 48) | ((b7 as bv64) << 56)
  }

  lemma MaskSelects(b0: bv8, b1: bv8, b2: bv8, b3: bv8, b4: bv8, b5: bv8, b6: bv8, b7: bv8)
    ensures var w := Assemble(b0, b1, b2, b3, b4, b5, b6, b7);
            && (w & 0x00000000000000ff == 0 <==> b0 == 0)
            && (w & 0x000000000000ff00 == 0 <==> b1 == 0)
            && (w & 0x0000000000ff0000 == 0 <==> b2 == 0)
            && (w & 0x00000000ff000000 == 0 <==> b3 == 0)
            && (w & 0x000000ff00000000 == 0 <==> b4 == 0)
            && (w & 0x0000ff0000000000 == 0 <==> b5 == 0)
            && (w & 0x00ff000000000000 == 0 <==> b6 == 0)
            && (w & 0xff00000000000000 == 0 <==> b7 == 0)
  {}

  lemma ShiftSelects(b0: bv8, b1: bv8, b2: bv8, b3: bv8, b4: bv8, b5: bv8, b6: bv8, b7: bv8)
    ensures var w := Assemble(b0, b1, b2, b3, b4, b5, b6, b7);
            && (w & 0xff == b0 as bv64)
            && ((w >> 8) & 0xff == b1 as bv64)
            && ((w >> 16) & 0xff == b2 as bv64)
            && ((w >> 24) & 0xff == b3 as bv64)
            && ((w >> 32) & 0xff == b4 as bv64)
            && ((w >> 40) & 0xff == b5 as bv64)
            && ((w >> 48) & 0xff == b6 as bv64)
            && ((w >> 56) & 0xff == b7 as bv64)
  {}

  // The byte at c, as the C code sees it.
  function CharAt(mem: Memory, c: nat): int
    requires c in mem
  {
    mem[c] as int
  }

  lemma WidenedByte(b: bv8)
    ensures (b as bv64) as int == b as int
  {}

  // Loads the aligned word that holds c and shifts the byte of c down.
  method LLReadChar(mem: Memory, c: nat) returns (r: int)
    requires Readable(mem, c - c % 8)
    ensures c in mem && r == CharAt(mem, c)
  {
    var p := c - c % 8;
    var w := LoadWord(mem, p);
    ShiftSelects(mem[p], mem[p + 1], mem[p + 2], mem[p + 3], mem[p + 4], mem[p + 5], mem[p + 6], mem[p + 7]);
    match c % 8 {
      case 0 => w := w >> 0;
      case 1 => w := w >> 8;
      case 2 => w := w >> 16;
      case 3 => w := w >> 24;
      case 4 => w := w >> 32;
      case 5 => w := w >> 40;
      case 6 => w := w >> 48;
      case _ => w := w >> 56;
    }
    WidenedByte(mem[c]);
    r := (w & 0xff) as int;
  }

  // One aligned load; each masked test of the word is a test of one byte.
  method ReadWord(mem: Memory, p: nat) returns (w: bv64)
    requires Readable(mem, p)
    ensures w & 0x00000000000000ff == 0 <==> mem[p] == 0
    ensures w & 0x000000000000ff00 == 0 <==> mem[p + 1] == 0
    ensures w & 0x0000000000ff0000 == 0 <==> mem[p + 2] == 0
    ensures w & 0x00000000ff000000 == 0 <==> mem[p + 3] == 0
    ensures w & 0x000000ff00000000 == 0 <==> mem[p + 4] == 0
    ensures w & 0x0000ff0000000000 == 0 <==> mem[p + 5] == 0
    ensures w & 0x00ff000000000000 == 0 <==> mem[p + 6] == 0
    ensures w & 0xff00000000000000 == 0 <==> mem[p + 7] == 0
  {
    MaskSelects(mem[p], mem[p + 1], mem[p + 2], mem[p + 3], mem[p + 4], mem[p + 5], mem[p + 6], mem[p + 7]);
    w := LoadWord(mem, p);
  }

  // The aligned word at p, between those of s and of the NUL, may be read.
  lemma WordReadable(mem: Memory, s: nat, nul: nat, p: nat)
    requires ReadableWords(mem, s, nul) && p % 8 == 0 && s - s % 8 <= p <= nul
    ensures Readable(mem, p)
  {
    WordOfAligns(s);
    WordOfAligns(nul);
  }

  // The masked tests of one word, from the byte at `entry` on.
  method ScanWord(mem: Memory, p: nat, entry: nat) returns (k: nat)
    requires Readable(mem, p) && entry < 8
    ensures entry <= k <= 8 && (k < 8 ==> mem[p + k] == 0)
    ensures forall i :: p + entry <= i < p + k ==> i in mem && mem[i] != 0
  {
    var w := ReadWord(mem, p);
    if entry <= 0 && w & 0x00000000000000ff == 0 { return 0; }
    if entry <= 1 && w & 0x000000000000ff00 == 0 { return 1; }
    if entry <= 2 && w & 0x0000000000ff0000 == 0 { return 2; }
    if entry <= 3 && w & 0x00000000ff000000 == 0 { return 3; }
    if entry <= 4 && w & 0x000000ff00000000 == 0 { return 4; }
    if entry <= 5 && w & 0x0000ff0000000000 == 0 { return 5; }
    if entry <= 6 && w & 0x00ff000000000000 == 0 { return 6; }
    if w & 0xff00000000000000 == 0 { return 7; }
    k := 8;
  }

  // The Duff's device: the first word is entered at the byte of s, later ones at byte 0.
  // It reads no word before the one that holds s or after the one that holds the NUL.
  method LLStrLen(mem: Memory, s: nat, ghost nul: nat) returns (l: int)
    requires s <= nul && ReadableWords(mem, s, nul) && nul in mem && mem[nul] == 0
    ensures 0 <= l <= nul - s
    ensures s + l in mem && mem[s + l] == 0
    ensures forall i :: s <= i < s + l ==> i in mem && mem[i] != 0
  {
    var p := s - s % 8;
    l := -(s % 8);
    var entry := s % 8;
    while true
      invariant p % 8 == 0 && p == s + l && s - s % 8 <= p
      invariant p <= nul && 0 <= entry < 8 && (entry == 0 || entry == s - p)
      invariant s <= p + entry
      invariant forall i :: s <= i < p + entry ==> i in mem && mem[i] != 0
      decreases nul - p
    {
      WordReadable(mem, s, nul, p);
      var k := ScanWord(mem, p, entry);
      if k < 8 {
        return l + k;
      }
      l := l + 8;
      p := p + 8;
      entry := 0;
    }
  }

  predicate IsSpace(c: int)
    ensures 0 <= c < 256 ==> (IsSpace(c) <==> c == 32 || 9 <= c < 14)
  {
    assert -TWO64 <= c - 9 < TWO64 ==> Wrap(c - 9) == if c < 9 then c - 9 + TWO64 else c - 9;
    c == 32 || Wrap(c - 9) < 5
  }

  predicate IsDigit(c: int)
    ensures 0 <= c < 256 ==> (IsDigit(c) <==> 48 <= c < 58)
  {
    assert -TWO64 <= c - 48 < TWO64 ==> Wrap(c - 48) == if c < 48 then c - 48 + TWO64 else c - 48;
    Wrap(c - 48) < 10
  }

  // A 64-bit register after an operation whose exact result is n.
  function Wrap64(n: int): (w: int)
    ensures Fits64(w)
    ensures Fits64(n) ==> w == n
  {
    Wrap(n + TWO63) - TWO63
  }

  // The characters from s up to, not including, the NUL.
  ghost function TextAt(mem: Memory, s: nat, nul: nat): (text: seq<int>)
    requires s <= nul && ReadableWords(mem, s, nul)
    ensures |text| == nul - s
    decreases nul - s
  {
    if s == nul then []
    else
      ReadableFrom(mem, s, nul, s + 1);
      ReadableFrom(mem, s, nul, s);
      [CharAt(mem, s)] + TextAt(mem, s + 1, nul)
  }

  lemma {:induction false} TextCharacters(mem: Memory, s: nat, nul: nat, i: nat)
    requires s <= nul && ReadableWords(mem, s, nul) && i < nul - s
    ensures s + i in mem && TextAt(mem, s, nul)[i] == CharAt(mem, s + i)
    decreases nul - s
  {
    ReadableFrom(mem, s, nul, s + i);
    ReadableFrom(mem, s, nul, s + 1);
    if i > 0 {
      TextCharacters(mem, s + 1, nul, i - 1);
    }
  }

  // What atol reads from a text: leading space, an optional sign, the digits that follow.
  ghost function SkipSpaces(text: seq<int>): (rest: seq<int>)
  {
    if text != [] && IsSpace(text[0]) then SkipSpaces(text[1..]) else text
  }

  ghost function SkipSign(text: seq<int>): seq<int> {
    if text != [] && (text[0] == 45 || text[0] == 43) then text[1..] else text
  }

  ghost predicate Negative(text: seq<int>) {
    text != [] && text[0] == 45
  }

  // The value of the digits at the front of text, after `before`.
  ghost function Magnitude(text: seq<int>, before: int): int
    decreases |text|
  {
    if text != [] && IsDigit(text[0]) then Magnitude(text[1..], 10 * before + (text[0] - 48)) else before
  }

  ghost function Meaning(text: seq<int>): int {
    var rest := SkipSpaces(text);
    var m := Magnitude(SkipSign(rest), 0);
    if Negative(rest) then -m else m
  }

  // Wrapping an operand first does not change a wrapped result.
  lemma WrapStep(exact: int, w: int, d: int)
    requires w == Wrap64(-exact)
    ensures Wrap64(10 * w - d) == Wrap64(-(10 * exact + d))
    ensures Wrap64(-w) == Wrap64(exact)
  {
    WrapIsRemainder(-exact + TWO63);
    WrapIsRemainder(10 * w - d + TWO63);
    WrapIsRemainder(-(10 * exact + d) + TWO63);
    WrapIsRemainder(-w + TWO63);
    WrapIsRemainder(exact + TWO63);
    var k := (-exact + TWO63) / TWO64;
    assert w == -exact - TWO64 * k;
    ModShift(-(10 * exact + d) + TWO63, -10 * k, TWO64);
    ModShift(exact + TWO63, k, TWO64);
  }

  // The first character and the rest of a text in memory.
  lemma TextStep(mem: Memory, s: nat, nul: nat)
    requires s < nul && ReadableWords(mem, s, nul)
    ensures s in mem && ReadableWords(mem, s + 1, nul)
    ensures TextAt(mem, s, nul) == [CharAt(mem, s)] + TextAt(mem, s + 1, nul)
    ensures TextAt(mem, s, nul)[1..] == TextAt(mem, s + 1, nul)
  {
    ReadableFrom(mem, s, nul, s + 1);
    ReadableFrom(mem, s, nul, s);
  }

  method SkipBlanks(mem: Memory, start: nat, ghost nul: nat) returns (s: nat)
    requires start <= nul && ReadableWords(mem, start, nul) && nul in mem && mem[nul] == 0
    ensures start <= s <= nul && ReadableWords(mem, s, nul)
    ensures TextAt(mem, s, nul) == SkipSpaces(TextAt(mem, start, nul))
  {
    s := start;
    ReadableFrom(mem, start, nul, s);
    var c := LLReadChar(mem, s);
    while IsSpace(c)
      invariant start <= s <= nul && ReadableWords(mem, s, nul) && s in mem && c == CharAt(mem, s)
      invariant SkipSpaces(TextAt(mem, s, nul)) == SkipSpaces(TextAt(mem, start, nul))
      decreases nul - s
    {
      TextStep(mem, s, nul);
      s := s + 1;
      ReadableFrom(mem, start, nul, s);
      c := LLReadChar(mem, s);
    }
    if s < nul {
      TextStep(mem, s, nul);
    }
  }

  // The digit loop accumulates the number negated.
  method AccumulateDigits(mem: Memory, start: nat, ghost nul: nat) returns (n: int, ghost exact: int)
    requires start <= nul && ReadableWords(mem, start, nul) && nul in mem && mem[nul] == 0
    ensures 0 <= exact == Magnitude(TextAt(mem, start, nul), 0)
    ensures n == Wrap64(-Magnitude(TextAt(mem, start, nul), 0))
  {
    n, exact := 0, 0;
    var s := start;
    ReadableFrom(mem, start, nul, s);
    var c := LLReadChar(mem, s);
    while IsDigit(c)
      invariant start <= s <= nul && ReadableWords(mem, s, nul) && s in mem && c == CharAt(mem, s)
      invariant 0 <= exact
      invariant Magnitude(TextAt(mem, s, nul), exact) == Magnitude(TextAt(mem, start, nul), 0)
      invariant n == Wrap64(-exact)
      decreases nul - s
    {
      TextStep(mem, s, nul);
      WrapStep(exact, n, c - 48);
      n := Wrap64(10 * n - (c - 48));
      exact := 10 * exact + (c - 48);
      s := s + 1;
      ReadableFrom(mem, start, nul, s);
      c := LLReadChar(mem, s);
    }
    if s < nul {
      TextStep(mem, s, nul);
    }
  }

  // atol, with the wrap-around of 64-bit registers: the number the text means whenever
  // that fits, including -2^63, and that number modulo 2^64 otherwise.
  method Atol(mem: Memory, start: nat, ghost nul: nat) returns (n: int)
    requires start <= nul && ReadableWords(mem, start, nul) && nul in mem && mem[nul] == 0
    ensures n == Wrap64(Meaning(TextAt(mem, start, nul)))
  {
    var s := SkipBlanks(mem, start, nul);
    var neg := false;
    ReadableFrom(mem, s, nul, s);
    var c := LLReadChar(mem, s);
    if s < nul {
      TextStep(mem, s, nul);
    }
    match c {
      case 45 => neg := true; s := s + 1;
      case 43 => s := s + 1;
      case _ =>
    }
    ghost var exact;
    n, exact := AccumulateDigits(mem, s, nul);
    if !neg {
      WrapStep(exact, n, 0);
      n := Wrap64(-n);
    }
  }

  // The digits read so far, for every number of digits read.
  lemma {:induction false} MagnitudePrefix(text: seq<int>, before: nat, k: nat)
    requires AllDigits(text) && k <= |text|
    ensures before <= Magnitude(text[..k], before) <= Magnitude(text, before)
    decreases |text|
  {
    if k == 0 {
      if text != [] {
        MagnitudePrefix(text[1..], 10 * before + (text[0] - 48), 0);
      }
    } else {
      assert text[..k][1..] == text[1..][..k - 1];
      MagnitudePrefix(text[1..], 10 * before + (text[0] - 48), k - 1);
    }
  }

  // Accumulating negated never overflows on the way to a number as low as -2^63, while
  // accumulating upwards would: 2^63 does not fit.
  lemma NegatedNeverOverflows(text: seq<int>, k: nat)
    requires AllDigits(text) && k <= |text|
    requires Fits64(-Magnitude(text, 0))
    ensures Fits64(-Magnitude(text[..k], 0))
    ensures k < |text| ==> Fits64(-10 * Magnitude(text[..k], 0))
    ensures Fits64(-TWO63) && !Fits64(TWO63)
  {
    MagnitudePrefix(text, 0, k);
    if k < |text| {
      MagnitudePrefix(text, 0, k + 1);
      MagnitudeNext(text, 0, k);
    }
  }

  lemma {:induction false} MagnitudeNext(text: seq<int>, before: nat, k: nat)
    requires AllDigits(text) && k < |text|
    ensures Magnitude(text[..k + 1], before) == 10 * Magnitude(text[..k], before) + (text[k] - 48)
    decreases |text|
  {
    assert text[..k + 1][1..] == text[1..][..k];
    if k > 0 {
      assert text[..k][1..] == text[1..][..k - 1];
      MagnitudeNext(text[1..], 10 * before + (text[0] - 48), k - 1);
    }
  }

  // Printer and parser undo each other: the text of PrintVal means the number printed.
  lemma PrintedTextMeans(val: nat)
    ensures Meaning(ValText(val)) == val
  {
    var text := ValText(val);
    ValTextDenotes(val);
    SignedTextMeans(text, []);
    assert text + [] == text;
  }

  // A minus sign negates the digits behind it, a plus sign does not, and what follows the
  // digits does not count.
  lemma SignedTextMeans(digits: seq<int>, rest: seq<int>)
    requires AllDigits(digits) && (rest == [] || !IsDigit(rest[0]))
    ensures Meaning([45] + (digits + rest)) == -DecimalValue(digits)
    ensures Meaning([43] + (digits + rest)) == DecimalValue(digits)
    ensures digits != [] ==> Meaning(digits + rest) == DecimalValue(digits)
  {
    DigitsAlone(digits, rest);
    SignAhead(45, digits + rest);
    SignAhead(43, digits + rest);
    if digits != [] {
      NoSignAhead(digits + rest);
    }
  }

  lemma DigitsAlone(digits: seq<int>, rest: seq<int>)
    requires AllDigits(digits) && (rest == [] || !IsDigit(rest[0]))
    ensures Magnitude(digits + rest, 0) == DecimalValue(digits)
  {
    DigitsEnd(digits, rest, 0);
    DigitsMean(digits, 0);
    TensOfZero(|digits|);
  }

  lemma NoSignAhead(text: seq<int>)
    requires text != [] && 48 <= text[0] < 58
    ensures Meaning(text) == Magnitude(text, 0)
  {
    assert SkipSpaces(text) == text && SkipSign(text) == text;
  }

  lemma SignAhead(sign: int, text: seq<int>)
    requires sign == 45 || sign == 43
    ensures Meaning([sign] + text) == if sign == 45 then -Magnitude(text, 0) else Magnitude(text, 0)
  {
    assert SkipSpaces([sign] + text) == [sign] + text;
    assert ([sign] + text)[1..] == text;
  }

  // Space in front of a text does not count.
  lemma SpaceInFront(space: int, text: seq<int>)
    requires space == 32 || 9 <= space <= 13
    ensures Meaning([space] + text) == Meaning(text)
  {
    assert ([space] + text)[1..] == text;
  }

  lemma {:induction false} DigitsEnd(digits: seq<int>, rest: seq<int>, before: nat)
    requires AllDigits(digits) && (rest == [] || !IsDigit(rest[0]))
    ensures Magnitude(digits + rest, before) == Magnitude(digits, before)
    decreases |digits|
  {
    if digits == [] {
      assert digits + rest == rest;
    } else {
      assert (digits + rest)[1..] == digits[1..] + rest;
      DigitsEnd(digits[1..], rest, 10 * before + (digits[0] - 48));
    }
  }

  lemma {:induction false} DigitsMean(text: seq<int>, before: nat)
    requires AllDigits(text)
    ensures Magnitude(text, before) == TensShifted(before, |text|) + DecimalValue(text)
    decreases |text|
  {
    if text != [] {
      DigitsMean(text[1..], 10 * before + (text[0] - 48));
      FirstDigit(text);
      TensSplit(before, text[0] - 48, |text| - 1);
    }
  }

  ghost function TensShifted(d: int, n: nat): int {
    if n == 0 then d else TensShifted(d, n - 1) * 10
  }

  lemma {:induction false} TensOfZero(n: nat)
    ensures TensShifted(0, n) == 0
  {
    if n > 0 {
      TensOfZero(n - 1);
    }
  }

  lemma {:induction false} TensSplit(before: int, d: int, n: nat)
    ensures TensShifted(10 * before + d, n) == TensShifted(before, n + 1) + TensShifted(d, n)
  {
    if n > 0 {
      TensSplit(before, d, n - 1);
    }
  }

  lemma {:induction false} FirstDigit(text: seq<int>)
    requires text != []
    ensures DecimalValue(text) == TensShifted(text[0] - 48, |text| - 1) + DecimalValue(text[1..])
  {
    var n := |text| - 1;
    if n > 0 {
      FirstDigit(text[..n]);
      assert text[..n][1..] == text[1..][..n - 1];
      assert DecimalValue(text[1..]) == DecimalValue(text[1..][..n - 1]) * 10 + (text[n] - 48);
    } else {
      assert text[..0] == [] && text[1..] == [];
    }
  }
}
