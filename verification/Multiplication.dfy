// Signed multiplication: its micro-ops (core-project/decoder.cc:155-197), the operands
// dispatch gives them (core-project/dispatch.cc:68-129 and 264-277) and what execute makes
// of them (core-project/execute.cc:459-501).
module Multiplication {
  import opened Arithmetic
  import opened MachineWords
  import opened SignExtension
  import opened Uops
  import opened Instructions
  import opened Cracking

  // The number a register holds as a long long.
  function AsSigned(w: Word): int {
    if w < TWO63 then w else w - TWO64
  }

  // A multiplication with two or three operands. With two, the carry is computed from the
  // result that has already replaced the first operand.
  ghost function MultiplyStep(s: State, u: Uop): State
    requires u.opcode.Imul? && (u.src.Imul2R? || u.src.Imul2I? || u.src.Imul3?)
  {
    var value1 := if u.src.Imul2I? then u.immed else ReadReg(s, u.reg1, u);
    var value3 := if u.reg3.NoReg? then u.immed else ReadReg(s, u.reg3, u);
    var factor := if u.src.Imul3? then value3 else ReadReg(s, u.reg2, u);
    var result := Wrap(Multiple(value1, factor));
    var exact := Multiple(AsSigned(value1), AsSigned(if u.src.Imul3? then value3 else result));
    var t := WriteReg(s, u.reg2, result);
    t.(arch := t.arch.(cf := exact != AsSigned(result)))
  }

  // A register is multiplied by a register, or set to the product of a register and a
  // register or an immediate, modulo 2^64; no other register changes, nor memory nor ZF.
  lemma ImulMeans(s: State, i: Instruction, p: Place)
    requires i.mnemonic.Imul? && IsRegister(i.op0) && IsRegister(i.op1)
    requires i.op2.kind.NoOperand? || IsRegister(i.op2) || IsImmediate(i.op2)
    ensures var a, t := s.arch, MultiplyStep(s, CrackImul(i, p)).arch;
            var n, x := i.op0.base.n, a.regs[i.op1.base.n];
            && t.regs[n] == (if i.op2.kind.NoOperand? then a.regs[n] * x
                             else if i.op2.kind.OpReg? then a.regs[i.op2.base.n] * x
                             else Number(i.op2.lval, i.op2.size) * x) % TWO64
            && (forall m :: 0 <= m < 16 && m != n ==> t.regs[m] == a.regs[m])
            && t.mem == a.mem && t.zf == a.zf
  {
    var a, u := s.arch, CrackImul(i, p);
    var x := a.regs[i.op1.base.n];
    if i.op2.kind.NoOperand? {
      ProductMeans(x, a.regs[i.op0.base.n]);
    } else if i.op2.kind.OpReg? {
      ProductMeans(x, a.regs[i.op2.base.n]);
    } else {
      ExtendedNumber(i.op2.lval, i.op2.size);
      ProductMeans(x, Extended(i.op2.lval, i.op2.size));
      WrappedFactor(Number(i.op2.lval, i.op2.size), x);
    }
  }

  lemma ProductMeans(x: Word, y: Word)
    ensures Wrap(Multiple(x, y)) == y * x % TWO64
  {
    MultipleIsProduct(x, y);
    WrapIsRemainder(y * x);
  }

  // Wrapping a factor does not change a wrapped product.
  lemma WrappedFactor(n: int, x: int)
    ensures Wrap(n) * x % TWO64 == n * x % TWO64
  {
    WrapIsRemainder(n);
    var k := n / TWO64;
    assert n == TWO64 * k + Wrap(n);
    assert n * x == Wrap(n) * x + TWO64 * (k * x) by {
      Distribute(x, TWO64 * k, Wrap(n));
      MulAssoc(TWO64, k, x);
    }
    ModShift(Wrap(n) * x, k * x, TWO64);
  }

  // With three operands the carry tells whether the signed product does not fit 64 bits.
  lemma CarryOfThree(s: State, i: Instruction, p: Place)
    requires i.mnemonic.Imul? && IsRegister(i.op0) && IsRegister(i.op1)
    requires IsRegister(i.op2) || IsImmediate(i.op2)
    ensures var a, t := s.arch, MultiplyStep(s, CrackImul(i, p)).arch;
            var y := if i.op2.kind.OpReg? then AsSigned(a.regs[i.op2.base.n]) else Number(i.op2.lval, i.op2.size);
            t.cf <==> !Fits64(AsSigned(a.regs[i.op1.base.n]) * y)
  {
    var x := s.arch.regs[i.op1.base.n];
    if i.op2.kind.OpReg? {
      SignedProduct(x, s.arch.regs[i.op2.base.n]);
    } else {
      ExtendedNumber(i.op2.lval, i.op2.size);
      WrapNear(Number(i.op2.lval, i.op2.size));
      SignedProduct(x, Extended(i.op2.lval, i.op2.size));
    }
  }

  lemma SignedProduct(x: Word, y: Word)
    ensures Multiple(AsSigned(x), AsSigned(y)) == AsSigned(Wrap(Multiple(x, y))) <==> Fits64(AsSigned(x) * AsSigned(y))
  {
    MultipleIsProduct(AsSigned(x), AsSigned(y));
    ProductMeans(x, y);
    SignedWord(x);
    SignedWord(y);
    WrappedFactor(AsSigned(x), y);
    WrappedFactor(AsSigned(y), AsSigned(x));
    var product := AsSigned(y) * AsSigned(x);
    WrapIsRemainder(product);
    if Fits64(product) {
      WrapNear(product);
    }
  }

  lemma SignedWord(w: Word)
    ensures Wrap(AsSigned(w)) == w
  {
    WrapNear(AsSigned(w));
  }

  // With two operands it does not: it is clear exactly when the result is 0 or the source is
  // 1, so that it is set for 2 times 2.
  lemma CarryOfTwo(s: State, i: Instruction, p: Place)
    requires i.mnemonic.Imul? && IsRegister(i.op0) && IsRegister(i.op1) && i.op2.kind.NoOperand?
    ensures var a, t := s.arch, MultiplyStep(s, CrackImul(i, p)).arch;
            !t.cf <==> t.regs[i.op0.base.n] == 0 || a.regs[i.op1.base.n] == 1
  {
    var x, y := s.arch.regs[i.op1.base.n], s.arch.regs[i.op0.base.n];
    KeptProduct(x, Wrap(Multiple(x, y)));
  }

  lemma KeptProduct(x: Word, w: Word)
    ensures Multiple(AsSigned(x), AsSigned(w)) == AsSigned(w) <==> w == 0 || x == 1
  {
    MultipleIsProduct(AsSigned(x), AsSigned(w));
    SameProduct(AsSigned(w), AsSigned(x));
  }

  lemma SameProduct(a: int, b: int)
    ensures a * b == a <==> a == 0 || b == 1
  {
    if a * b == a {
      Distribute(a, b, -1);
      assert a * (b - 1) == 0;
    }
  }
}
