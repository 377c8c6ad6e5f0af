// core-project/decoder.cc:65-93: sign extension by way of the hexadecimal text of a value.
module SignExtension {
  import opened Arithmetic
  import opened MachineWords

  function HexDigit(d: nat): char
    requires d < 16
  {
    "0123456789abcdef"[d]
  }

  function HexValue(c: char): nat {
    if '0' <= c <= '9' then c as int - '0' as int
    else if 'a' <= c <= 'f' then c as int - 'a' as int + 10
    else 0
  }

  // What `o << hex << v` writes.
  function Hex(v: nat): (s: string)
    ensures |s| >= 1
  {
    if v < 16 then [HexDigit(v)] else Hex(v / 16) + [HexDigit(v % 16)]
  }

  // What `i >> hex` reads.
  function ParseHex(s: string): nat {
    if s == [] then 0 else 16 * ParseHex(s[..|s| - 1]) + HexValue(s[|s| - 1])
  }

  function Repeat(n: nat, c: char): (s: string)
    ensures |s| == n
  {
    if n == 0 then [] else Repeat(n - 1, c) + [c]
  }

  // Bit k of v.
  predicate BitSet(v: nat, k: nat) {
    if k == 0 then v % 2 == 1 else BitSet(v / 2, k - 1)
  }

  lemma DigitRoundTrip(d: nat)
    requires d < 16
    ensures HexValue(HexDigit(d)) == d
  {}

  lemma {:induction false} ParseOfHex(v: nat)
    ensures ParseHex(Hex(v)) == v
  {
    DigitRoundTrip(v % 16);
    if v >= 16 {
      ParseOfHex(v / 16);
      assert Hex(v)[..|Hex(v)| - 1] == Hex(v / 16);
      assert v == 16 * (v / 16) + v % 16;
    } else {
      assert [HexDigit(v)][..0] == [];
    }
  }

  // The text has at most n digits exactly when the value is below 16^n.
  lemma {:induction false} HexLength(v: nat, n: nat)
    requires n >= 1
    ensures |Hex(v)| <= n <==> v < Pow(16, n)
  {
    if n == 1 {
      assert Pow(16, 1) == 16;
    } else if v < 16 {
      PowGrows(16, 1, n);
    } else {
      HexLength(v / 16, n - 1);
    }
  }

  lemma {:induction false} ParsePadded(k: nat, b: string)
    ensures ParseHex(Repeat(k, '0') + b) == ParseHex(b)
    ensures ParseHex(Repeat(k, 'f') + b) == ParseHex(b) + Pow(16, k + |b|) - Pow(16, |b|)
    decreases |b|
  {
    if b == [] {
      ParseRepeat(k);
      assert Repeat(k, '0') + b == Repeat(k, '0') && Repeat(k, 'f') + b == Repeat(k, 'f');
    } else {
      var front := b[..|b| - 1];
      assert (Repeat(k, '0') + b)[..k + |b| - 1] == Repeat(k, '0') + front;
      assert (Repeat(k, 'f') + b)[..k + |b| - 1] == Repeat(k, 'f') + front;
      ParsePadded(k, front);
    }
  }

  lemma {:induction false} ParseRepeat(n: nat)
    ensures ParseHex(Repeat(n, '0')) == 0
    ensures ParseHex(Repeat(n, 'f')) == Pow(16, n) - 1
  {
    if n > 0 {
      ParseRepeat(n - 1);
      assert Repeat(n, '0')[..n - 1] == Repeat(n - 1, '0');
      assert Repeat(n, 'f')[..n - 1] == Repeat(n - 1, 'f');
    }
  }

  // The top bit of an n-digit value says whether it lies in the upper half.
  lemma {:induction false} TopBit(v: nat, n: nat)
    requires n >= 1 && v < Pow(16, n)
    ensures BitSet(v, 4 * n - 1) <==> v >= 8 * Pow(16, n - 1)
  {
    assert BitSet(v, 4 * n - 1) == BitSet(v / 2, 4 * n - 2)
        == BitSet(v / 2 / 2, 4 * n - 3) == BitSet(v / 2 / 2 / 2, 4 * n - 4);
    if n == 1 {
      assert Pow(16, 0) == 1 && Pow(16, 1) == 16;
    } else {
      assert BitSet(v / 2 / 2 / 2, 4 * n - 4) == BitSet(v / 2 / 2 / 2 / 2, 4 * n - 5);
      assert v / 2 / 2 / 2 / 2 == v / 16;
      TopBit(v / 16, n - 1);
    }
  }

  // How many values n hexadecimal digits tell apart, and how many of them are not negative.
  ghost function Range(size: nat): nat {
    Pow(16, size / 4)
  }

  ghost function HalfRange(size: nat): int
    requires size >= 4
  {
    8 * Pow(16, size / 4 - 1)
  }

  // The effect of sign_extend on a value of `size` bits.
  ghost function Extended(v: Word, size: nat): Word {
    if size % 4 == 0 && 4 <= size <= 32 && HalfRange(size) <= v < Range(size)
    then Wrap(v - Range(size)) else v
  }

  lemma PaddedText(v: Word, n: nat)
    requires 1 <= n <= 8 && |Hex(v)| == n
    ensures ParseHex(Repeat(16 - n, '0') + Hex(v)) == v
    ensures ParseHex(Repeat(16 - n, 'f') + Hex(v)) == v + TWO64 - Pow(16, n)
  {
    ParseOfHex(v);
    ParsePadded(16 - n, Hex(v));
    SixteenDigits();
  }

  lemma WrapBelow(v: int, r: int)
    requires 0 <= v < r <= TWO64
    ensures Wrap(v - r) == v + TWO64 - r
  {}

  // The text the program builds denotes the extended value.
  lemma ExtendedByText(v: Word, size: nat)
    requires size <= 32 && |Hex(v)| * 4 == size
    ensures ParseHex(Repeat(16 - |Hex(v)|, if BitSet(v, size - 1) then 'f' else '0') + Hex(v)) == Extended(v, size)
  {
    ShorterText(v, size);
    PaddedText(v, |Hex(v)|);
    PowGrows(16, |Hex(v)|, 16);
    SixteenDigits();
    assert Range(size) == Pow(16, |Hex(v)|);
    WrapBelow(v, Range(size));
    if BitSet(v, size - 1) {
    }
  }

  lemma SixteenDigits()
    ensures Pow(16, 16) == TWO64
  {
    assert Pow(16, 4) == 0x1_0000;
    PowAdd(16, 4, 4);
    PowAdd(16, 8, 8);
  }

  // A text of fewer than n digits stands for a value whose top bit is clear.
  lemma ShorterText(v: Word, size: nat)
    requires 4 <= size <= 32 && size % 4 == 0
    ensures |Hex(v)| * 4 == size ==> v < Range(size) && (BitSet(v, size - 1) <==> v >= HalfRange(size))
    ensures |Hex(v)| * 4 != size ==> v < HalfRange(size) || v >= Range(size)
  {
    var n := size / 4;
    HexLength(v, n);
    if |Hex(v)| == n {
      TopBit(v, n);
    } else if n == 1 {
      assert |Hex(v)| > 1;
    } else {
      HexLength(v, n - 1);
    }
  }

  // decoder.cc:65-93. The shift by `size - 1` that a value of just `size` bits takes is
  // defined for sizes up to 32.
  method SignExtend(immedVal: Word, size: nat) returns (retVal: Word)
    requires size <= 32 || |Hex(immedVal)| * 4 != size
    ensures retVal == Extended(immedVal, size)
  {
    var temp := Hex(immedVal);
    var numBits := |temp| * 4;
    if numBits == size {
      ExtendedByText(immedVal, size);
      var ch1 := if BitSet(immedVal, size - 1) then 'f' else '0';
      temp := Repeat(16 - |temp|, ch1) + temp;
      retVal := ParseHex(temp);
    } else {
      if 4 <= size <= 32 && size % 4 == 0 {
        ShorterText(immedVal, size);
      }
      retVal := immedVal;
    }
  }

  // The encoding of a number in `size` bits, with zeros above.
  ghost function ZeroExtended(x: int, size: nat): Word
    requires size in {8, 16, 32} && -HalfRange(size) <= x < HalfRange(size)
  {
    HalfOfRange(size);
    if x < 0 then x + Range(size) else x
  }

  // For a number that fits `size` bits, sign_extend turns its zero-extended encoding, and
  // its sign-extended one, into its 64-bit encoding.
  lemma ExtendsBothEncodings(x: int, size: nat)
    requires size in {8, 16, 32} && -HalfRange(size) <= x < HalfRange(size)
    ensures Extended(ZeroExtended(x, size), size) == Wrap(x)
    ensures Extended(Wrap(x), size) == Wrap(x)
  {
    HalfOfRange(size);
  }

  lemma HalfOfRange(size: nat)
    requires size in {8, 16, 32}
    ensures Range(size) == 2 * HalfRange(size)
    ensures Range(8) == 0x100 && Range(16) == 0x1_0000 && Range(32) == 0x1_0000_0000
  {
    assert Pow(16, 2) == 0x100;
    assert Pow(16, 4) == 0x1_0000;
    PowAdd(16, 4, 4);
  }

  // Conversely these are the only inputs it extends: on every other one the result, which
  // is the input, stands for no number of `size` bits.
  lemma OnlyTheseEncodings(v: Word, size: nat, x: int)
    requires size in {8, 16, 32} && -HalfRange(size) <= x < HalfRange(size)
    requires Extended(v, size) == Wrap(x)
    ensures v == Wrap(x) || v == ZeroExtended(x, size)
  {
    HalfOfRange(size);
    WrapNear(x);
    WrapNear(v - Range(size));
  }
}
