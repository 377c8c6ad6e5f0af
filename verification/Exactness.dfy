// Exactly which translations of core-project/decoder.cc:95-508 are right. Wrong are: an
// address that adds a register to itself unscaled, which is added once; an address without
// base and index, and an immediate stored without an index, which take an operand nothing
// set; the comparison of a memory word with a register, which is made the wrong way round;
// and an operation on a memory word, which is not loaded.
module Exactness {
  import opened Arithmetic
  import opened MachineWords
  import opened SignExtension
  import opened Uops
  import opened BitwiseFacts
  import opened Instructions
  import opened Cracking
  import opened DecoderModel

  predicate MistakesOperand(op: Operand) {
    op.kind.OpMem? && (IsDoubled(op) || IsAbsolute(op))
  }

  predicate MistakesAddress(i: Instruction) {
    MistakesOperand(i.op0) || MistakesOperand(i.op1)
  }

  predicate ComparesMemoryWithRegister(i: Instruction) {
    i.mnemonic.Cmp? && i.op0.kind.OpMem? && i.op1.kind.OpReg?
  }

  // A test against zero has one result, whatever the address.
  ghost predicate TestsAgainstZero(i: Instruction)
    requires IsWellFormed(i)
  {
    i.mnemonic.Test? && i.op1.kind.OpImm? && Number(i.op1.lval, i.op1.size) == 0
  }

  predicate WritesMemory(i: Instruction) {
    IsAlu(i.mnemonic) && i.op0.kind.OpMem?
  }

  // Reads the memory word it writes. The translation works on what the scratch register
  // happens to hold instead of the word.
  predicate UpdatesMemory(i: Instruction) {
    WritesMemory(i) && !i.mnemonic.Mov?
  }

  // The result does not depend on the word: and with 0, or with -1.
  ghost predicate Absorbs(i: Instruction)
    requires IsWellFormed(i)
  {
    i.op1.kind.OpImm? &&
    var n := Number(i.op1.lval, i.op1.size);
    (i.mnemonic.And? && n == 0) || (i.mnemonic.Or? && n == -1)
  }

  // The translation takes an operand nothing set for the immediate.
  predicate StoresUnset(i: Instruction) {
    WritesMemory(i) && i.op1.kind.OpImm? && i.op0.index.NoReg?
  }

  ghost predicate IsExact(i: Instruction)
    requires IsWellFormed(i)
  {
    && (!MistakesAddress(i) || TestsAgainstZero(i))
    && !ComparesMemoryWithRegister(i)
    && (!UpdatesMemory(i) || Absorbs(i))
    && !StoresUnset(i)
  }

  // ---- the address, from states in which an unset operand holds what register 0 holds ----

  ghost predicate UnsetIsRegister0(s: State) {
    s.junk == s.arch.regs[0]
  }

  // An absolute address is added to an operand nothing set.
  lemma AbsoluteAddress(s: State, m: Operand, p: Place)
    requires IsMemory(m) && IsAbsolute(m)
    ensures Run(s, AddressUops(m, p)) == s.(loadStore := Wrap(s.junk + Displacement(m)))
  {
    var start := [Moved(NoReg, LoadStoreReg, p)];
    RunOne(s, start[0]);
    OffsetIsDisplacement(m);
    WrapNear(s.junk);
    if OffsetOf(m) != 0 {
      var u := Added(NoReg, Wrap(Displacement(m)), Immed, p);
      RunOneMore(s, start, u);
      AddTerm(Run(s, start), NoReg, Wrap(Displacement(m)), Immed, p, s.junk, Displacement(m));
    } else {
      assert AddressUops(m, p) == start;
    }
  }

  lemma AddressTaken(s: State, m: Operand, p: Place)
    requires IsMemory(m) && (IsAbsolute(m) ==> UnsetIsRegister0(s))
    ensures Run(s, AddressUops(m, p)) == s.(loadStore := EffectiveAddress(Singled(m), s.arch.regs, p.Next()))
  {
    if IsAbsolute(m) {
      AbsoluteAddress(s, m, p);
      MultipleZero(Factor(m));
      assert PartialAddress(Singled(m), s.arch.regs, p.Next(), true, true, true) == s.junk + Displacement(m);
    } else {
      AddressMeans(m, p);
      assert LeavesFrom(s, AddressUops(m, p), Singled(m), p, true, true, true);
    }
  }

  lemma AddressKeepsArch(s: State, m: Operand, p: Place)
    requires IsMemory(m)
    ensures Run(s, AddressUops(m, p)).arch == s.arch
  {
    if IsAbsolute(m) {
      AbsoluteAddress(s, m, p);
    } else {
      AddressTaken(s, m, p);
    }
  }

  // ---- a state that tells the wrong forms from what they are taken for ----

  function Ones(): Gprs {
    seq(16, i => 1)
  }

  // The value of the source operand, when it is not in memory.
  ghost function SourceValue(i: Instruction): Word
    requires IsWellFormed(i)
  {
    if i.op1.kind.OpImm? then Wrap(Number(i.op1.lval, i.op1.size)) else 1
  }

  function OtherThan(v: Word): Word {
    if v == 0 then 1 else 0
  }

  ghost function WordThere(i: Instruction): Word
    requires IsWellFormed(i)
  {
    if !IsAlu(i.mnemonic) && MistakesAddress(i) then SourceValue(i) else 3
  }

  ghost function Witness(i: Instruction, p: Place): Arch
    requires IsWellFormed(i) && IsMemory(MemoryOperand(i))
  {
    var there := EffectiveAddress(MemoryOperand(i), Ones(), p.Next());
    var elsewhere := EffectiveAddress(Singled(MemoryOperand(i)), Ones(), p.Next());
    Arch(Ones(), imap[elsewhere := OtherThan(SourceValue(i))][there := WordThere(i)], false, false)
  }

  // With every register 1, and an unset operand 1, a mistaken address shows.
  lemma AddressTells(m: Operand, next: Word)
    requires IsMemory(m) && MistakesOperand(m)
    ensures EffectiveAddress(m, Ones(), next) != EffectiveAddress(Singled(m), Ones(), next)
  {
    if IsDoubled(m) {
      DoubledTells(m, next);
    } else {
      AbsoluteTells(m, next);
    }
  }

  lemma DoubledTells(m: Operand, next: Word)
    requires IsMemory(m) && IsDoubled(m)
    ensures EffectiveAddress(m, Ones(), next) != EffectiveAddress(Singled(m), Ones(), next)
  {
    MultipleNext(0, 1);
    MultipleNext(0, 0);
    assert PartialAddress(m, Ones(), next, true, true, true) == 2 + Displacement(m);
    assert PartialAddress(Singled(m), Ones(), next, true, true, true) == 1 + Displacement(m);
    WrapSteps(1 + Displacement(m));
  }

  lemma AbsoluteTells(m: Operand, next: Word)
    requires IsMemory(m) && IsAbsolute(m)
    ensures EffectiveAddress(m, Ones(), next) != EffectiveAddress(Singled(m), Ones(), next)
  {
    MultipleZero(Factor(m));
    assert PartialAddress(m, Ones(), next, true, true, true) == Displacement(m);
    assert PartialAddress(Singled(m), Ones(), next, true, true, true) == 1 + Displacement(m);
    WrapSteps(Displacement(m));
  }

  lemma CompareTells(i: Instruction, p: Place)
    requires IsWellFormed(i) && IsMemory(MemoryOperand(i)) && (i.mnemonic.Cmp? || i.mnemonic.Test?) && !IsExact(i)
    ensures Exec(i, p, Witness(i, p)) != Exec(Meant(i), p, Witness(i, p))
  {
    if !MistakesAddress(i) {
      ReversedTells(i, p);
    } else if i.mnemonic.Cmp? {
      MistakenCompareTells(i, p);
    } else {
      MistakenTestTells(i, p);
    }
  }

  lemma ReversedTells(i: Instruction, p: Place)
    requires IsWellFormed(i) && ComparesMemoryWithRegister(i) && !MistakesAddress(i)
    ensures Exec(i, p, Witness(i, p)).cf != Exec(Meant(i), p, Witness(i, p)).cf
  {
    assert Singled(i.op0) == i.op0;
    assert Value(i.op0, Witness(i, p), p.Next()) == 3 && Value(i.op1, Witness(i, p), p.Next()) == 1;
  }

  lemma MistakenCompareTells(i: Instruction, p: Place)
    requires IsWellFormed(i) && i.mnemonic.Cmp? && MistakesAddress(i)
    ensures Exec(i, p, Witness(i, p)).zf != Exec(Meant(i), p, Witness(i, p)).zf
  {
    WitnessValues(i, p);
  }

  lemma MistakenTestTells(i: Instruction, p: Place)
    requires IsWellFormed(i) && i.mnemonic.Test? && MistakesAddress(i) && !TestsAgainstZero(i)
    ensures Exec(i, p, Witness(i, p)).zf != Exec(Meant(i), p, Witness(i, p)).zf
  {
    WitnessValues(i, p);
    TestTells(i, SourceValue(i));
  }

  // The operands of a comparison, and those of what it is taken for.
  lemma WitnessValues(i: Instruction, p: Place)
    requires IsWellFormed(i) && (i.mnemonic.Cmp? || i.mnemonic.Test?) && MistakesAddress(i)
    ensures var a, v := Witness(i, p), SourceValue(i);
            && Value(MemoryOperand(i), a, p.Next()) == v
            && Value(Singled(MemoryOperand(i)), a, p.Next()) == OtherThan(v)
            && Value(OtherOperand(i), a, p.Next()) == v
  {
    AddressTells(MemoryOperand(i), p.Next());
  }

  lemma TestTells(i: Instruction, v: Word)
    requires IsWellFormed(i) && !TestsAgainstZero(i) && i.mnemonic.Test? && v == SourceValue(i)
    ensures BitwiseWord(And, v, v) != 0 && BitwiseWord(And, v, OtherThan(v)) == BitwiseWord(And, OtherThan(v), v) == 0
  {
    if i.op1.kind.OpImm? {
      ImmediateZero(i);
    }
    AndSeparates(v);
    BitwiseWordCommutes(And, v, 0);
  }

  lemma ImmediateZero(i: Instruction)
    requires IsWellFormed(i) && i.op1.kind.OpImm?
    ensures SourceValue(i) == 0 <==> Number(i.op1.lval, i.op1.size) == 0
    ensures SourceValue(i) == TWO64 - 1 <==> Number(i.op1.lval, i.op1.size) == -1
  {
    ExtendedNumber(i.op1.lval, i.op1.size);
    HalfOfRange(i.op1.size);
    WrapNear(Number(i.op1.lval, i.op1.size));
  }

  lemma LoadTells(i: Instruction, p: Place)
    requires IsWellFormed(i) && MistakesAddress(i) && IsAlu(i.mnemonic) && i.op0.kind.OpReg?
    ensures Exec(i, p, Witness(i, p)) != Exec(Meant(i), p, Witness(i, p))
  {
    var a, next := Witness(i, p), p.Next();
    AddressTells(i.op1, next);
    AluTells(i.mnemonic);
    assert Value(i.op1, a, next) == 3;
    assert Value(Singled(i.op1), a, next) == 0;
    RegisterTells(i.op0.base.n, a, Alu(i.mnemonic, 1, 3), Alu(i.mnemonic, 1, 0));
  }

  lemma LeaTells(i: Instruction, p: Place)
    requires IsWellFormed(i) && MistakesAddress(i) && i.mnemonic.Lea?
    ensures Exec(i, p, Witness(i, p)) != Exec(Meant(i), p, Witness(i, p))
  {
    var a, next := Witness(i, p), p.Next();
    AddressTells(i.op1, next);
    RegisterTells(i.op0.base.n, a, EffectiveAddress(i.op1, Ones(), next),
                  EffectiveAddress(Singled(i.op1), Ones(), next));
  }

  lemma RegisterTells(n: GprIndex, a: Arch, v: Word, w: Word)
    requires v != w
    ensures a.(regs := a.regs[n := v]) != a.(regs := a.regs[n := w])
  {
    assert a.regs[n := v][n] != a.regs[n := w][n];
  }

  // ---- instructions that do not write memory ----

  lemma ReadTaken(s: State, i: Instruction, p: Place)
    requires HasEffect(i) && IsMemory(MemoryOperand(i)) && UnsetIsRegister0(s)
    ensures Run(s, Crack(i, p)).arch == Exec(Meant(i), p, s.arch)
  {
    var address, effect := AddressUops(MemoryOperand(i), p), EffectUops(i, p);
    AddressTaken(s, MemoryOperand(i), p);
    EffectMeans(i, p);
    MemoryForm(i, p);
    RunConcat(s, address, effect);
    assert CompletesFrom(Run(s, address), effect, Meant(i), p);
  }

  lemma MemoryForm(i: Instruction, p: Place)
    requires IsWellFormed(i) && IsMemory(MemoryOperand(i))
    ensures Crack(i, p) == AddressUops(MemoryOperand(i), p) + EffectUops(i, p)
    ensures MemoryOperand(Meant(i)) == Singled(MemoryOperand(i))
  {}

  lemma ReadWrong(i: Instruction, p: Place)
    requires IsWellFormed(i) && !WritesMemory(i) && !IsExact(i)
    ensures !Implements(Crack(i, p), i, p)
  {
    if i.mnemonic.Cmp? || i.mnemonic.Test? {
      CompareTells(i, p);
    } else if i.mnemonic.Lea? {
      LeaTells(i, p);
    } else {
      LoadTells(i, p);
    }
    var s := State(Witness(i, p), 0, 0, 1);
    ReadTaken(s, i, p);
    assert !ImplementsFrom(s, Crack(i, p), i, p);
  }

  // Whatever word a test against zero is made to read, its result is the same.
  lemma TestOfZeroRight(i: Instruction, p: Place)
    requires IsWellFormed(i) && TestsAgainstZero(i) && i.op0.kind.OpMem?
    ensures Implements(Crack(i, p), i, p)
  {
    forall s
      ensures ImplementsFrom(s, Crack(i, p), i, p)
    {
      var address, effect := AddressUops(i.op0, p), EffectUops(i, p);
      MemoryForm(i, p);
      RunConcat(s, address, effect);
      AddressKeepsArch(s, i.op0, p);
      TestOfZero(Run(s, address), i, p);
      WrapNear(0);
      AndZero(Value(i.op0, s.arch, p.Next()), 64);
    }
  }

  lemma TestOfZero(t: State, i: Instruction, p: Place)
    requires IsWellFormed(i) && TestsAgainstZero(i) && i.op0.kind.OpMem?
    ensures Run(t, EffectUops(i, p)).arch == SetFlags(t.arch, true, false)
  {
    var v := Applied(Test, NoReg, ScratchLs, 0, Immed, p);
    ExtendedNumber(i.op1.lval, i.op1.size);
    WrapNear(0);
    assert EffectUops(i, p) == [Loaded(p), v];
    AfterLoad(t, v, p);
    StepCompare(AfterLoaded(t), v);
    ZeroTested(t.arch, Fetch(t.arch.mem, t.loadStore));
  }

  lemma ZeroTested(a: Arch, x: Word)
    ensures Compared(Test, a, x, 0) == SetFlags(a, true, false)
  {
    AndSeparates(x);
    TestCommutes(a, x, 0);
  }

  // ---- instructions that write memory ----

  // What the translation stores comes from the scratch register and the source, or an
  // operand nothing set.
  ghost function SourceTaken(s: State, i: Instruction, p: Place): Word
    requires IsWellFormed(i)
  {
    if StoresUnset(i) then s.junk else Value(i.op1, s.arch, p.Next())
  }

  lemma StoreTaken(s: State, i: Instruction, p: Place)
    requires IsWellFormed(i) && WritesMemory(i) && (IsAbsolute(i.op0) ==> UnsetIsRegister0(s))
    ensures var a := s.arch;
            Run(s, Crack(i, p)).arch ==
              a.(mem := a.mem[EffectiveAddress(Singled(i.op0), a.regs, p.Next())
                              := Alu(i.mnemonic, s.scratch, SourceTaken(s, i, p))])
  {
    var address, effect := AddressUops(i.op0, p), EffectUops(i, p);
    AddressTaken(s, i.op0, p);
    MemoryForm(i, p);
    RunConcat(s, address, effect);
    StoreEffect(Run(s, address), i, p);
  }

  lemma StoreEffect(t: State, i: Instruction, p: Place)
    requires IsWellFormed(i) && WritesMemory(i)
    ensures Run(t, EffectUops(i, p)).arch ==
            t.arch.(mem := t.arch.mem[t.loadStore := Alu(i.mnemonic, t.scratch, SourceTaken(t, i, p))])
  {
    if i.op1.kind.OpImm? {
      ExtendedNumber(i.op1.lval, i.op1.size);
    }
    var u := if i.op1.kind.OpReg? || StoresUnset(i) then Applied(i.mnemonic, i.op1.base, ScratchLs, 0, RegSrc, p)
             else Applied(i.mnemonic, NoReg, ScratchLs, Extended(i.op1.lval, i.op1.size), Immed, p);
    assert EffectUops(i, p) == [u, Stored(p)];
    OperandStep(t, u);
    RunTwo(t, u, Stored(p));
  }

  lemma OperandStep(t: State, u: Uop)
    requires IsAlu(u.opcode) && u.reg2.ScratchLs? && (u.src.RegSrc? || u.src.Immed?)
    ensures Step(t, u) ==
            t.(scratch := Alu(u.opcode, t.scratch, if u.src.RegSrc? then ReadReg(t, u.reg1, u) else u.immed))
  {}

  lemma StoreRight(i: Instruction, p: Place)
    requires IsWellFormed(i) && WritesMemory(i) && IsExact(i)
    ensures Implements(Crack(i, p), i, p)
  {
    forall s
      ensures ImplementsFrom(s, Crack(i, p), i, p)
    {
      StoreTaken(s, i, p);
      if UpdatesMemory(i) {
        ImmediateZero(i);
        AbsorbedAlike(i.mnemonic, SourceValue(i), s.scratch, Value(i.op0, s.arch, p.Next()));
      }
    }
  }

  lemma StoreWrong(i: Instruction, p: Place)
    requires IsWellFormed(i) && WritesMemory(i) && !IsExact(i)
    ensures !Implements(Crack(i, p), i, p)
  {
    if StoresUnset(i) {
      StoreUnset(i, p);
    } else if MistakesAddress(i) {
      StoreElsewhere(i, p);
    } else {
      StoreStale(i, p);
    }
  }

  // What was not set can be such that another value is stored.
  lemma StoreUnset(i: Instruction, p: Place)
    requires IsWellFormed(i) && StoresUnset(i)
    ensures !Implements(Crack(i, p), i, p)
  {
    var right := Alu(i.mnemonic, 0, SourceValue(i));
    var x, v := AluReaches(i.mnemonic, OtherThan(right));
    var s := State(Arch(seq(16, n => v), imap[], false, false), 0, x, v);
    StoreTaken(s, i, p);
    var elsewhere := EffectiveAddress(Singled(i.op0), s.arch.regs, p.Next());
    assert Run(s, Crack(i, p)).arch.mem == imap[elsewhere := OtherThan(right)];
    assert Exec(i, p, s.arch).mem == imap[EffectiveAddress(i.op0, s.arch.regs, p.Next()) := right];
    assert elsewhere in Run(s, Crack(i, p)).arch.mem;
    assert !ImplementsFrom(s, Crack(i, p), i, p);
  }

  // The value goes to another word.
  lemma StoreElsewhere(i: Instruction, p: Place)
    requires IsWellFormed(i) && WritesMemory(i) && !StoresUnset(i) && MistakesOperand(i.op0)
    ensures !Implements(Crack(i, p), i, p)
  {
    var elsewhere := EffectiveAddress(Singled(i.op0), Ones(), p.Next());
    var stored := Alu(i.mnemonic, 0, SourceValue(i));
    var s := State(Arch(Ones(), imap[elsewhere := OtherThan(stored)], false, false), 0, 0, 1);
    AddressTells(i.op0, p.Next());
    StoreTaken(s, i, p);
    assert Exec(i, p, s.arch).mem[elsewhere] == OtherThan(stored);
    assert !ImplementsFrom(s, Crack(i, p), i, p);
  }

  // The scratch register holds something else than the word.
  lemma StoreStale(i: Instruction, p: Place)
    requires IsWellFormed(i) && UpdatesMemory(i) && !StoresUnset(i) && !MistakesAddress(i) && !Absorbs(i)
    ensures !Implements(Crack(i, p), i, p)
  {
    if i.op1.kind.OpImm? {
      ImmediateZero(i);
    }
    var x, y := AluSeparates(i.mnemonic, SourceValue(i));
    StoreOfStale(i, p, x, y);
  }

  lemma StoreOfStale(i: Instruction, p: Place, x: Word, y: Word)
    requires IsWellFormed(i) && WritesMemory(i) && !StoresUnset(i) && !MistakesAddress(i)
    requires Alu(i.mnemonic, x, SourceValue(i)) != Alu(i.mnemonic, y, SourceValue(i))
    ensures !Implements(Crack(i, p), i, p)
  {
    var there := EffectiveAddress(i.op0, Ones(), p.Next());
    var s := State(Arch(Ones(), imap[there := y], false, false), 0, x, 0);
    StoreTaken(s, i, p);
    assert Exec(i, p, s.arch).mem[there] == Alu(i.mnemonic, y, SourceValue(i));
    assert !ImplementsFrom(s, Crack(i, p), i, p);
  }

  // ---- all instructions ----

  // Every well-formed instruction is taken by some branch.
  lemma WellFormedHandled(i: Instruction)
    requires IsWellFormed(i)
    ensures Handled(i)
  {}

  // The translation of an instruction does what the instruction does, from every state, if
  // and only if the instruction is of an exact form.
  lemma TranslationRight(i: Instruction, p: Place)
    requires IsWellFormed(i)
    ensures Implements(Crack(i, p), i, p) <==> IsExact(i)
  {
    if WritesMemory(i) {
      if IsExact(i) {
        StoreRight(i, p);
      } else {
        StoreWrong(i, p);
      }
    } else if !IsExact(i) {
      ReadWrong(i, p);
    } else if MistakesAddress(i) {
      TestOfZeroRight(i, p);
    } else {
      CrackMeans(i, p);
      assert Meant(i) == i;
    }
  }

  function Places(addrs: seq<Word>, sizes: seq<nat>): (places: seq<Place>)
    requires |addrs| == |sizes|
    ensures |places| == |addrs|
  {
    seq(|addrs|, k requires 0 <= k < |addrs| => Place(addrs[k], sizes[k]))
  }

  // A straight-line program of exact instructions, broken up as the decoder breaks it up,
  // does what the program does.
  lemma ProgramTranslated(parts: seq<seq<Uop>>, opcodes: seq<Instruction>, addrs: seq<Word>, sizes: seq<nat>, s: State)
    requires |parts| == |opcodes| == |addrs| == |sizes| && AreCracked(parts, opcodes, addrs, sizes)
    requires forall k :: 0 <= k < |opcodes| ==> IsWellFormed(opcodes[k]) && IsExact(opcodes[k])
    ensures Run(s, Flatten(parts)).arch == ExecAll(opcodes, Places(addrs, sizes), s.arch)
  {
    forall k | 0 <= k < |opcodes|
      ensures Implements(parts[k], opcodes[k], Places(addrs, sizes)[k])
    {
      assert IsCracked(parts[k], opcodes[k], Place(addrs[k], sizes[k]));
      TranslationRight(opcodes[k], Place(addrs[k], sizes[k]));
    }
    ProgramPreserved(opcodes, Places(addrs, sizes), parts, s);
  }
}
