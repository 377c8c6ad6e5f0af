// What the operations of core-project/execute.cc:376-679 compute, in terms of numbers and
// bits, and what addressing and memory operands amount to.
module OperationLaws {
  import opened Arithmetic
  import opened MachineWords
  import opened SignExtension
  import opened Uops
  import opened Instructions

  // Addition and subtraction undo each other modulo 2^64; a move takes the source.
  lemma AddAndSubtract(x: Word, y: Word)
    ensures Alu(Mov, x, y) == y
    ensures Alu(Add, x, y) == (x + y) % TWO64
    ensures (Alu(Sub, x, y) + y) % TWO64 == x
  {
    WrapIsRemainder(x + y);
    WrapNear(x - y);
    QuotientUnique(if x < y then x + TWO64 else x, TWO64, if x < y then 1 else 0, x);
  }

  // Each bit of a bitwise operation comes from the same bit of both values.
  lemma EachBit(x: Word, y: Word, k: nat)
    requires k < 64
    ensures BitSet(Alu(And, x, y), k) <==> BitSet(x, k) && BitSet(y, k)
    ensures BitSet(Alu(Or, x, y), k) <==> BitSet(x, k) || BitSet(y, k)
    ensures BitSet(Alu(Xor, x, y), k) <==> BitSet(x, k) != BitSet(y, k)
  {
    BitwiseBit(And, x, y, 64, k);
    BitwiseBit(Or, x, y, 64, k);
    BitwiseBit(Xor, x, y, 64, k);
  }

  lemma {:induction false} BitwiseBit(o: Mnemonic, x: nat, y: nat, n: nat, k: nat)
    requires (o.And? || o.Or? || o.Xor?) && k < n
    ensures BitSet(Bitwise(o, x, y, n), k) <==>
            if o.And? then BitSet(x, k) && BitSet(y, k)
            else if o.Or? then BitSet(x, k) || BitSet(y, k)
            else BitSet(x, k) != BitSet(y, k)
  {
    assert Bitwise(o, x, y, n) / 2 == Bitwise(o, x / 2, y / 2, n - 1);
    if k > 0 {
      BitwiseBit(o, x / 2, y / 2, n - 1, k - 1);
    }
  }

  lemma {:induction false} SomeBit(v: nat, n: nat) returns (k: nat)
    requires 0 < v < Pow(2, n)
    ensures k < n && BitSet(v, k)
  {
    if v % 2 == 1 {
      k := 0;
    } else {
      k := SomeBit(v / 2, n - 1);
      k := k + 1;
    }
  }

  // A word is zero exactly when none of its bits is set.
  lemma ZeroHasNoBits(v: Word)
    ensures v == 0 <==> forall k: nat :: k < 64 ==> !BitSet(v, k)
  {
    WordBits();
    if v != 0 {
      var k := SomeBit(v, 64);
      assert BitSet(v, k);
      assert exists k: nat :: k < 64 && BitSet(v, k);
    } else {
      forall k: nat | k < 64
        ensures !BitSet(v, k)
      {
        NoBitOfZero(k);
      }
      assert forall k: nat :: k < 64 ==> !BitSet(v, k);
    }
  }

  lemma {:induction false} NoBitOfZero(k: nat)
    ensures !BitSet(0, k)
  {
    if k > 0 {
      NoBitOfZero(k - 1);
    }
  }

  // The value the source operand of a micro-op delivers.
  function SourceOf(s: State, u: Uop): Word {
    if u.src.RegSrc? then ReadReg(s, u.reg1, u) else u.immed
  }

  // A comparison sets ZF when the difference is zero and CF when it borrows, and changes
  // nothing else.
  lemma CompareMeans(s: State, u: Uop)
    requires u.opcode.Cmp? && (u.src.RegSrc? || u.src.Immed?)
    ensures var x, y, t := ReadReg(s, u.reg2, u), SourceOf(s, u), Step(s, u);
            && (t.arch.zf <==> Alu(Sub, x, y) == 0)
            && (t.arch.cf <==> x < y)
            && t == s.(arch := s.arch.(zf := t.arch.zf, cf := t.arch.cf))
  {
    WrapNear(ReadReg(s, u.reg2, u) - SourceOf(s, u));
  }

  // A test sets ZF when the values have no bit in common, clears CF, and changes nothing else.
  lemma TestMeans(s: State, u: Uop)
    requires u.opcode.Test? && (u.src.RegSrc? || u.src.Immed?)
    ensures var x, y, t := ReadReg(s, u.reg2, u), SourceOf(s, u), Step(s, u);
            && (t.arch.zf <==> forall k: nat :: k < 64 ==> !(BitSet(x, k) && BitSet(y, k)))
            && !t.arch.cf
            && t == s.(arch := s.arch.(zf := t.arch.zf, cf := t.arch.cf))
  {
    BitwiseWordCommutes(And, ReadReg(s, u.reg2, u), SourceOf(s, u));
    CommonBits(ReadReg(s, u.reg2, u), SourceOf(s, u));
  }

  lemma CommonBits(x: Word, y: Word)
    ensures Alu(And, x, y) == 0 <==> forall k: nat :: k < 64 ==> !(BitSet(x, k) && BitSet(y, k))
  {
    var both := Alu(And, x, y);
    ZeroHasNoBits(both);
    if both == 0 {
      forall k: nat | k < 64
        ensures !(BitSet(x, k) && BitSet(y, k))
      {
        EachBit(x, y, k);
        assert !BitSet(both, k);
      }
    } else {
      var k: nat :| k < 64 && BitSet(both, k);
      EachBit(x, y, k);
    }
  }

  // base + index * scale + displacement, where an index without a scale counts once, and
  // rip stands for the address of the next instruction.
  lemma AddressArithmetic(op: Operand, regs: Gprs, p: Place)
    requires IsMemory(op)
    ensures EffectiveAddress(op, regs, p.Next()) ==
            (RegisterIn(op.base, regs, p) + RegisterIn(op.index, regs, p) * Factor(op) + Displacement(op)) % TWO64
    ensures Factor(op) == if op.scale == 0 then 1 else op.scale
  {
    RegisterMeans(op.base, regs, p);
    RegisterMeans(op.index, regs, p);
    MultipleIsProduct(Factor(op), RegisterIn(op.index, regs, p));
    var sum := RegisterIn(op.base, regs, p) + RegisterIn(op.index, regs, p) * Factor(op) + Displacement(op);
    assert EffectiveAddress(op, regs, p.Next()) == Wrap(sum);
    WrapIsRemainder(sum);
  }

  // What a register of an address holds; no register counts as 0.
  function RegisterIn(r: Reg, regs: Gprs, p: Place): int {
    match r
    case Gpr(n) => regs[n]
    case Rip => (p.address + p.opsize) % TWO64
    case _ => 0
  }

  lemma RegisterMeans(r: Reg, regs: Gprs, p: Place)
    ensures RegisterValue(r, regs, p.Next()) == RegisterIn(r, regs, p)
  {
    WrapIsRemainder(p.address + p.opsize);
  }

  // A word that a move stores is what a move from the same address loads, by way of the
  // micro-ops, and no other word changes.
  lemma StoredIsLoaded(s: State, store: Uop, load: Uop)
    requires store.opcode.Store? && store.src.RegSrc? && load.opcode.Load? && load.src.RegSrc? && load.reg2.ScratchLs?
    requires ReadReg(s, load.reg1, load) == ReadReg(s, store.reg2, store)
    ensures Step(Step(s, store), load).scratch == ReadReg(s, store.reg1, store)
    ensures forall a: Word :: a != ReadReg(s, store.reg2, store) ==>
              Fetch(Step(s, store).arch.mem, a) == Fetch(s.arch.mem, a)
  {}
}
