// What the bitwise and additive operations of the micro-ops do to particular values.
module BitwiseFacts {
  import opened Arithmetic
  import opened MachineWords
  import opened Uops

  lemma {:induction false} AndZero(x: nat, n: nat)
    ensures Bitwise(And, x, 0, n) == 0
  {
    if n > 0 {
      AndZero(x / 2, n - 1);
    }
  }

  lemma {:induction false} BitwiseZero(o: Mnemonic, n: nat)
    ensures Bitwise(o, 0, 0, n) == 0
  {
    if n > 0 {
      BitwiseZero(o, n - 1);
    }
  }

  lemma {:induction false} AndItself(x: nat, n: nat)
    requires x < Pow(2, n)
    ensures Bitwise(And, x, x, n) == x
  {
    if n > 0 {
      AndItself(x / 2, n - 1);
    }
  }

  // Zero is neutral for or and exclusive or.
  lemma {:induction false} OrZero(o: Mnemonic, x: nat, n: nat)
    requires (o.Or? || o.Xor?) && x < Pow(2, n)
    ensures Bitwise(o, x, 0, n) == x
  {
    if n > 0 {
      OrZero(o, x / 2, n - 1);
    }
  }

  lemma {:induction false} OrOnes(x: nat, n: nat)
    ensures Bitwise(Or, x, Pow(2, n) - 1, n) == Pow(2, n) - 1
  {
    if n > 0 {
      OrOnes(x / 2, n - 1);
      assert (Pow(2, n) - 1) / 2 == Pow(2, n - 1) - 1 && (Pow(2, n) - 1) % 2 == 1;
    }
  }

  lemma XorOne(v: nat, n: nat)
    ensures Bitwise(Xor, 0, v, n + 1) != Bitwise(Xor, 1, v, n + 1)
  {
    assert Bitwise(Xor, 0, v, n + 1) % 2 != Bitwise(Xor, 1, v, n + 1) % 2;
  }

  lemma WrapSteps(x: int)
    ensures Wrap(x + 1) != Wrap(x)
  {
    WrapOnce(x, 1);
    WrapNear(Wrap(x) + 1 - TWO64);
  }

  // One and three, and one and zero, give different results with every operation.
  lemma AluTells(o: Mnemonic)
    requires IsAlu(o)
    ensures Alu(o, 1, 3) != Alu(o, 1, 0)
  {
    match o {
      case Add =>
        WrapNear(4);
        WrapNear(1);
      case Sub =>
        WrapNear(-2);
        WrapNear(1);
      case And =>
        OneThree(And);
        OneZero(And);
      case Or =>
        OneThree(Or);
        OneZero(Or);
      case Xor =>
        OneThree(Xor);
        OneZero(Xor);
      case _ =>
    }
  }

  lemma OneThree(o: Mnemonic)
    requires o.And? || o.Or? || o.Xor?
    ensures BitwiseWord(o, 1, 3) == if o.And? then 1 else if o.Or? then 3 else 2
  {
    BitwiseZero(o, 62);
    assert Bitwise(o, 0, 1, 63) == 2 * Bitwise(o, 0, 0, 62) + (if o.And? then 0 else 1);
    assert Bitwise(o, 1, 3, 64) == 2 * Bitwise(o, 0, 1, 63) + (if o.Xor? then 0 else 1);
  }

  lemma OneZero(o: Mnemonic)
    requires o.And? || o.Or? || o.Xor?
    ensures BitwiseWord(o, 1, 0) == if o.And? then 0 else 1
  {
    BitwiseZero(o, 63);
    assert Bitwise(o, 1, 0, 64) == 2 * Bitwise(o, 0, 0, 63) + (if o.And? then 0 else 1);
  }

  // And with 0, and or with all ones, leave nothing of the other value.
  lemma AbsorbedAlike(o: Mnemonic, v: Word, x: Word, y: Word)
    requires (o.And? && v == 0) || (o.Or? && v == TWO64 - 1)
    ensures Alu(o, x, v) == Alu(o, y, v)
  {
    WordBits();
    if o.And? {
      AndZero(x, 64);
      AndZero(y, 64);
    } else {
      OrOnes(x, 64);
      OrOnes(y, 64);
    }
  }

  // Two values that an operation with a given source tells apart, unless it absorbs.
  lemma AluSeparates(o: Mnemonic, v: Word) returns (x: Word, y: Word)
    requires IsAlu(o) && !o.Mov? && !(o.And? && v == 0) && !(o.Or? && v == TWO64 - 1)
    ensures Alu(o, x, v) != Alu(o, y, v)
  {
    x, y := 0, 1;
    match o {
      case Add => WrapSteps(v);
      case Sub =>
        var negated: int := 0 - v as int;
        WrapSteps(negated);
      case Xor => XorOne(v, 63);
      case And =>
        x, y := v, 0;
        AndSeparates(v);
      case Or =>
        y := TWO64 - 1;
        OrSeparates(v);
      case _ =>
    }
  }

  lemma AndSeparates(v: Word)
    ensures BitwiseWord(And, v, v) == v && BitwiseWord(And, 0, v) == 0
  {
    WordBits();
    AndItself(v, 64);
    AndZero(v, 64);
    BitwiseWordCommutes(And, v, 0);
  }

  lemma OrSeparates(v: Word)
    ensures BitwiseWord(Or, 0, v) == v && BitwiseWord(Or, TWO64 - 1, v) == TWO64 - 1
  {
    WordBits();
    OrZero(Or, v, 64);
    OrOnes(v, 64);
    BitwiseWordCommutes(Or, v, TWO64 - 1);
    BitwiseWordCommutes(Or, v, 0);
  }

  // Every value is the result of every operation.
  lemma AluReaches(o: Mnemonic, z: Word) returns (x: Word, v: Word)
    requires IsAlu(o)
    ensures Alu(o, x, v) == z
  {
    x, v := z, 0;
    WordBits();
    match o {
      case Mov => x, v := 0, z;
      case And =>
        v := z;
        AndItself(z, 64);
      case Or => OrZero(Or, z, 64);
      case Xor => OrZero(Xor, z, 64);
      case _ => WrapNear(z);
    }
  }
}
