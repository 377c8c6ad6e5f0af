// core-project/decoder.cc:95-508: instructions are broken into micro-ops.
module Cracking {
  import opened Arithmetic
  import opened MachineWords
  import opened SignExtension
  import opened Uops
  import opened Instructions

  // ---- what the pushed micro-ops do ----

  function Moved(from: Reg, to: Reg, p: Place): Uop {
    Uop(Mov, from, to, NoReg, 0, RegSrc, p.opsize, p.address)
  }

  // A move of a register starts an address.
  lemma StartAddress(op: Operand, p: Place, r: Reg, index: bool, base: bool)
    requires IsMemory(op) && index != base
    requires index ==> r == op.index && Factor(op) == 1 && r.Gpr?
    requires base ==> r == op.base && !r.NoReg?
    ensures LeavesAddress([Moved(r, LoadStoreReg, p)], op, p, index, base, false)
  {
    forall s
      ensures LeavesFrom(s, [Moved(r, LoadStoreReg, p)], op, p, index, base, false)
    {
      RunOneMore(s, [], Moved(r, LoadStoreReg, p));
      assert [] + [Moved(r, LoadStoreReg, p)] == [Moved(r, LoadStoreReg, p)];
      MultipleNext(0, RegisterValue(r, s.arch.regs, p.Next()));
    }
  }

  // A move and a multiplication start a scaled address.
  lemma StartScaled(op: Operand, p: Place, k: Word, base: bool)
    requires IsMemory(op) && op.index.Gpr?
    requires if base then op.base == op.index && k == Factor(op) + 1 else k == Factor(op)
    ensures LeavesAddress([Moved(op.index, LoadStoreReg, p), Multiplied(k, p)], op, p, true, base, false)
  {
    var u, v := Moved(op.index, LoadStoreReg, p), Multiplied(k, p);
    forall s
      ensures LeavesFrom(s, [u, v], op, p, true, base, false)
    {
      RunTwo(s, u, v);
      var index := RegisterValue(op.index, s.arch.regs, p.Next());
      MultipleNext(Factor(op), index);
      assert PartialAddress(op, s.arch.regs, p.Next(), true, base, false) == Multiple(k, index);
    }
  }

  function Multiplied(k: Word, p: Place): Uop {
    Uop(Imul, NoReg, LoadStoreReg, NoReg, k, LoadMul, p.opsize, p.address)
  }

  function Added(r: Reg, immed: Word, src: Source, p: Place): Uop {
    Uop(Add, r, LoadStoreReg, NoReg, immed, src, p.opsize, p.address)
  }

  lemma WrapAdd(x: int, y: int)
    ensures Wrap(Wrap(x) + Wrap(y)) == Wrap(x + y)
  {
    WrapOnce(x, Wrap(y));
    WrapOnce(y, x);
  }

  lemma ReadsValue(s: State, r: Reg, u: Uop, next: Word)
    requires (r.Gpr? || r.Rip?) && next == Wrap(u.address + u.opsize)
    ensures ReadReg(s, r, u) == RegisterValue(r, s.arch.regs, next)
  {}

  // One more term of the address.
  lemma AddTerm(s: State, r: Reg, immed: Word, src: Source, p: Place, sum: int, term: int)
    requires s.loadStore == Wrap(sum)
    requires src.RegSrc? ==> ReadReg(s, r, Added(r, immed, src, p)) == Wrap(term)
    requires src.Immed? ==> immed == Wrap(term)
    requires src.RegSrc? || src.Immed?
    ensures Step(s, Added(r, immed, src, p)) == s.(loadStore := Wrap(sum + term))
  {
    WrapAdd(sum, term);
  }

  lemma AddBase(uops: seq<Uop>, op: Operand, p: Place)
    requires IsMemory(op) && !op.base.NoReg? && LeavesAddress(uops, op, p, true, false, false)
    ensures LeavesAddress(uops + [Added(op.base, 0, RegSrc, p)], op, p, true, true, false)
  {
    var u := Added(op.base, 0, RegSrc, p);
    forall s
      ensures LeavesFrom(s, uops + [u], op, p, true, true, false)
    {
      assert LeavesFrom(s, uops, op, p, true, false, false);
      RunOneMore(s, uops, u);
      AddBaseFrom(s, Run(s, uops), op, p);
    }
  }

  lemma AddBaseFrom(s: State, t: State, op: Operand, p: Place)
    requires IsMemory(op) && !op.base.NoReg?
    requires t == s.(loadStore := Wrap(PartialAddress(op, s.arch.regs, p.Next(), true, false, false)))
    ensures Step(t, Added(op.base, 0, RegSrc, p)) ==
            s.(loadStore := Wrap(PartialAddress(op, s.arch.regs, p.Next(), true, true, false)))
  {
    var base := RegisterValue(op.base, s.arch.regs, p.Next());
    WrapNear(base);
    ReadsValue(t, op.base, Added(op.base, 0, RegSrc, p), p.Next());
    AddTerm(t, op.base, 0, RegSrc, p, PartialAddress(op, s.arch.regs, p.Next(), true, false, false), base);
  }

  lemma NoBase(uops: seq<Uop>, op: Operand, p: Place)
    requires IsMemory(op) && op.base.NoReg? && LeavesAddress(uops, op, p, true, false, false)
    ensures LeavesAddress(uops, op, p, true, true, false)
  {
    forall s
      ensures LeavesFrom(s, uops, op, p, true, true, false)
    {
      assert LeavesFrom(s, uops, op, p, true, false, false);
    }
  }

  lemma NoIndex(uops: seq<Uop>, op: Operand, p: Place, disp: bool)
    requires IsMemory(op) && op.index.NoReg? && LeavesAddress(uops, op, p, false, true, disp)
    ensures LeavesAddress(uops, op, p, true, true, disp)
  {
    MultipleZero(Factor(op));
    forall s
      ensures LeavesFrom(s, uops, op, p, true, true, disp)
    {
      assert LeavesFrom(s, uops, op, p, false, true, disp);
    }
  }

  lemma {:induction false} MultipleZero(m: nat)
    ensures Multiple(m, 0) == 0
  {
    if m > 0 {
      MultipleZero(m - 1);
    }
  }

  lemma AddDisplacement(uops: seq<Uop>, op: Operand, p: Place)
    requires IsMemory(op) && LeavesAddress(uops, op, p, true, true, false)
    ensures LeavesAddress(uops + [Added(NoReg, Wrap(Displacement(op)), Immed, p)], op, p, true, true, true)
  {
    var u := Added(NoReg, Wrap(Displacement(op)), Immed, p);
    forall s
      ensures LeavesFrom(s, uops + [u], op, p, true, true, true)
    {
      assert LeavesFrom(s, uops, op, p, true, true, false);
      RunOneMore(s, uops, u);
      AddTerm(Run(s, uops), NoReg, Wrap(Displacement(op)), Immed, p,
              PartialAddress(op, s.arch.regs, p.Next(), true, true, false), Displacement(op));
    }
  }

  lemma NoDisplacement(uops: seq<Uop>, op: Operand, p: Place)
    requires IsMemory(op) && Displacement(op) == 0 && LeavesAddress(uops, op, p, true, true, false)
    ensures LeavesAddress(uops, op, p, true, true, true)
  {
    forall s
      ensures LeavesFrom(s, uops, op, p, true, true, true)
    {
      assert LeavesFrom(s, uops, op, p, true, true, false);
    }
  }

  // How an address starts whose base and index are the same register,
  ghost function DoubledStart(m: Operand, p: Place): seq<Uop> {
    if m.scale == 0 then [Moved(m.base, LoadStoreReg, p)]
    else [Moved(m.base, LoadStoreReg, p), Multiplied(m.scale + 1, p)]
  }

  lemma DoubledStartMeans(m: Operand, p: Place)
    requires IsMemory(m) && m.index.Gpr? && m.base == m.index
    ensures LeavesAddress(DoubledStart(m, p), Singled(m), p, true, true, false)
  {
    if m.scale != 0 {
      StartScaled(m, p, m.scale + 1, true);
    } else {
      StartAddress(Singled(m), p, m.base, false, true);
      NoIndex(DoubledStart(m, p), Singled(m), p, false);
    }
  }

  // and one with an index of its own.
  ghost function IndexedStart(m: Operand, p: Place): seq<Uop> {
    if m.scale == 0 then [Moved(m.index, LoadStoreReg, p)]
    else [Moved(m.index, LoadStoreReg, p), Multiplied(m.scale, p)]
  }

  lemma IndexedStartMeans(m: Operand, p: Place)
    requires IsMemory(m) && m.index.Gpr? && m.base != m.index
    ensures LeavesAddress(IndexedStart(m, p), m, p, true, false, false)
  {
    if m.scale != 0 {
      StartScaled(m, p, m.scale, false);
    } else {
      StartAddress(m, p, m.index, true, false);
    }
  }

  // The int the decoder takes a displacement for.
  ghost function OffsetOf(m: Operand): int {
    ToInt32(Extended(m.lval, m.offset))
  }

  lemma OffsetIsDisplacement(m: Operand)
    requires IsMemory(m)
    ensures OffsetOf(m) == Displacement(m)
  {
    if m.offset != 0 {
      ExtendedNumber(m.lval, m.offset);
    }
  }

  // The addition of a displacement, if there is one to add.
  ghost function OffsetUops(present: bool, m: Operand, p: Place): seq<Uop> {
    if present then [Added(NoReg, Wrap(OffsetOf(m)), Immed, p)] else []
  }

  lemma OffsetMeans(start: seq<Uop>, present: bool, m: Operand, p: Place)
    requires IsMemory(m) && LeavesAddress(start, Singled(m), p, true, true, false)
    requires present || OffsetOf(m) == 0
    ensures ComputesAddress(start + OffsetUops(present, m, p), Singled(m), p)
  {
    OffsetIsDisplacement(m);
    SingledKeeps(m);
    if present {
      AddDisplacement(start, Singled(m), p);
    } else {
      assert start + [] == start;
      NoDisplacement(start, Singled(m), p);
    }
  }

  lemma SingledKeeps(m: Operand)
    requires IsMemory(m)
    ensures IsMemory(Singled(m)) && Displacement(Singled(m)) == Displacement(m)
  {
  }

  // The addition of a base to a scaled index, if there is one to add.
  ghost function BaseUops(m: Operand, p: Place): seq<Uop> {
    if m.base.NoReg? then [] else [Added(m.base, 0, RegSrc, p)]
  }

  // The micro-ops that compute the address of a memory operand (decoder.cc:312-320,
  // 383-395 and 438-461).
  ghost function AddressUops(m: Operand, p: Place): seq<Uop> {
    if m.index.NoReg? then [Moved(m.base, LoadStoreReg, p)] + OffsetUops(OffsetOf(m) != 0, m, p)
    else if m.base == m.index then DoubledStart(m, p) + OffsetUops(m.offset != 0, m, p)
    else IndexedStart(m, p) + BaseUops(m, p) + OffsetUops(m.offset != 0, m, p)
  }

  // They compute base + index * scale + displacement, unless a register is to be added to
  // itself unscaled: then they add it once.
  lemma AddressMeans(m: Operand, p: Place)
    requires IsMemory(m) && !IsAbsolute(m)
    ensures ComputesAddress(AddressUops(m, p), Singled(m), p)
  {
    OffsetIsDisplacement(m);
    if m.index.NoReg? {
      StartAddress(m, p, m.base, false, true);
      NoIndex([Moved(m.base, LoadStoreReg, p)], m, p, false);
      OffsetMeans([Moved(m.base, LoadStoreReg, p)], OffsetOf(m) != 0, m, p);
    } else if m.base == m.index {
      DoubledStartMeans(m, p);
      OffsetMeans(DoubledStart(m, p), m.offset != 0, m, p);
    } else {
      IndexedAddressMeans(m, p);
    }
  }

  lemma IndexedAddressMeans(m: Operand, p: Place)
    requires IsMemory(m) && m.index.Gpr? && m.base != m.index
    ensures ComputesAddress(AddressUops(m, p), m, p)
  {
    var start := IndexedStart(m, p);
    IndexedStartMeans(m, p);
    OffsetIsDisplacement(m);
    if m.base.NoReg? {
      NoBase(start, m, p);
      assert start + [] == start;
      OffsetMeans(start, m.offset != 0, m, p);
    } else {
      AddBase(start, m, p);
      OffsetMeans(start + [Added(m.base, 0, RegSrc, p)], m.offset != 0, m, p);
    }
  }

  // ---- the micro-ops after the address ----

  function Loaded(p: Place): Uop {
    Uop(Load, LoadStoreReg, ScratchLs, NoReg, 0, RegSrc, p.opsize, p.address)
  }

  function Stored(p: Place): Uop {
    Uop(Store, ScratchLs, LoadStoreReg, NoReg, 0, RegSrc, p.opsize, p.address)
  }

  function Applied(mn: Mnemonic, from: Reg, to: Reg, immed: Word, src: Source, p: Place): Uop {
    Uop(mn, from, to, NoReg, immed, src, p.opsize, p.address)
  }

  // The word at the address goes to the scratch register.
  ghost function AfterLoaded(s: State): State {
    s.(scratch := Fetch(s.arch.mem, s.loadStore))
  }

  lemma StepLoad(s: State, p: Place)
    ensures Step(s, Loaded(p)) == AfterLoaded(s)
  {}

  lemma AfterLoad(s: State, v: Uop, p: Place)
    ensures Run(s, [Loaded(p), v]) == Step(AfterLoaded(s), v)
  {
    RunTwo(s, Loaded(p), v);
    StepLoad(s, p);
  }

  // What comparing or testing x with y leaves.
  ghost function Compared(o: Mnemonic, a: Arch, x: Word, y: Word): Arch {
    if o.Cmp? then SetFlags(a, x == y, x < y) else SetFlags(a, BitwiseWord(And, x, y) == 0, false)
  }

  lemma TestCommutes(a: Arch, x: Word, y: Word)
    ensures Compared(Test, a, x, y) == Compared(Test, a, y, x)
  {
    BitwiseWordCommutes(And, x, y);
  }

  // The operation of a compare or test micro-op.
  lemma StepCompare(s: State, v: Uop)
    requires v.opcode.Cmp? || v.opcode.Test?
    requires v.src.RegSrc? || v.src.Immed?
    ensures Step(s, v).arch
         == Compared(v.opcode, s.arch, ReadReg(s, v.reg2, v), if v.src.RegSrc? then ReadReg(s, v.reg1, v) else v.immed)
  {
    TestCommutes(s.arch, ReadReg(s, v.reg2, v), if v.src.RegSrc? then ReadReg(s, v.reg1, v) else v.immed);
  }

  lemma ExecCompares(i: Instruction, p: Place, a: Arch)
    requires IsWellFormed(i) && (i.mnemonic.Cmp? || i.mnemonic.Test?)
    ensures Exec(i, p, a) == Compared(i.mnemonic, a, Value(i.op0, a, p.Next()), Value(i.op1, a, p.Next()))
  {}

  lemma CompletesLea(i: Instruction, p: Place)
    requires IsWellFormed(i) && i.mnemonic.Lea?
    ensures Completes([Applied(Mov, LoadStoreReg, i.op0.base, 0, RegSrc, p)], i, p)
  {
    var u := Applied(Mov, LoadStoreReg, i.op0.base, 0, RegSrc, p);
    forall s
      ensures CompletesFrom(s, [u], i, p)
    {
      RunOne(s, u);
    }
  }

  lemma CompletesLoad(i: Instruction, p: Place)
    requires IsWellFormed(i) && IsAlu(i.mnemonic) && i.op1.kind.OpMem?
    ensures Completes([Loaded(p), Applied(i.mnemonic, ScratchLs, i.op0.base, 0, RegSrc, p)], i, p)
  {
    var u, v := Loaded(p), Applied(i.mnemonic, ScratchLs, i.op0.base, 0, RegSrc, p);
    forall s
      ensures CompletesFrom(s, [u, v], i, p)
    {
      AfterLoad(s, v, p);
      if s.loadStore == EffectiveAddress(i.op1, s.arch.regs, p.Next()) {
        LoadedOperand(s, i, p);
      }
    }
  }

  lemma LoadedOperand(s: State, i: Instruction, p: Place)
    requires IsWellFormed(i) && IsAlu(i.mnemonic) && i.op1.kind.OpMem?
    requires s.loadStore == EffectiveAddress(i.op1, s.arch.regs, p.Next())
    ensures Step(AfterLoaded(s), Applied(i.mnemonic, ScratchLs, i.op0.base, 0, RegSrc, p)).arch == Exec(i, p, s.arch)
  {
    var n := i.op0.base.n;
    assert Value(i.op0, s.arch, p.Next()) == s.arch.regs[n];
    assert Value(i.op1, s.arch, p.Next()) == AfterLoaded(s).scratch;
  }

  lemma CompletesStore(i: Instruction, p: Place, immed: Word, src: Source)
    requires IsWellFormed(i) && i.mnemonic.Mov? && i.op0.kind.OpMem?
    requires if i.op1.kind.OpReg? then src.RegSrc? else src.Immed? && immed == Wrap(Number(i.op1.lval, i.op1.size))
    ensures Completes([Applied(Mov, i.op1.base, ScratchLs, immed, src, p), Stored(p)], i, p)
  {
    var u, v := Applied(Mov, i.op1.base, ScratchLs, immed, src, p), Stored(p);
    forall s
      ensures CompletesFrom(s, [u, v], i, p)
    {
      RunTwo(s, u, v);
    }
  }

  lemma CompletesCompare(i: Instruction, p: Place)
    requires IsWellFormed(i) && (i.mnemonic.Cmp? || i.mnemonic.Test?)
    requires i.op0.kind.OpReg? && i.op1.kind.OpMem?
    ensures Completes([Loaded(p), Applied(i.mnemonic, ScratchLs, i.op0.base, 0, RegSrc, p)], i, p)
  {
    var u, v := Loaded(p), Applied(i.mnemonic, ScratchLs, i.op0.base, 0, RegSrc, p);
    forall s
      ensures CompletesFrom(s, [u, v], i, p)
    {
      AfterLoad(s, v, p);
      if s.loadStore == EffectiveAddress(i.op1, s.arch.regs, p.Next()) {
        ComparedLoaded(s, i, p);
      }
    }
  }

  lemma ComparedLoaded(s: State, i: Instruction, p: Place)
    requires IsWellFormed(i) && (i.mnemonic.Cmp? || i.mnemonic.Test?)
    requires i.op0.kind.OpReg? && i.op1.kind.OpMem?
    requires s.loadStore == EffectiveAddress(i.op1, s.arch.regs, p.Next())
    ensures Step(AfterLoaded(s), Applied(i.mnemonic, ScratchLs, i.op0.base, 0, RegSrc, p)).arch == Exec(i, p, s.arch)
  {
    StepCompare(AfterLoaded(s), Applied(i.mnemonic, ScratchLs, i.op0.base, 0, RegSrc, p));
    ExecCompares(i, p, s.arch);
    assert Value(i.op0, s.arch, p.Next()) == s.arch.regs[i.op0.base.n];
    assert Value(i.op1, s.arch, p.Next()) == AfterLoaded(s).scratch;
  }

  lemma CompletesTestRegister(i: Instruction, p: Place)
    requires IsWellFormed(i) && i.mnemonic.Test? && i.op0.kind.OpMem? && i.op1.kind.OpReg?
    ensures Completes([Loaded(p), Applied(Test, ScratchLs, i.op1.base, 0, RegSrc, p)], i, p)
  {
    var u, v := Loaded(p), Applied(Test, ScratchLs, i.op1.base, 0, RegSrc, p);
    forall s
      ensures CompletesFrom(s, [u, v], i, p)
    {
      AfterLoad(s, v, p);
      StepCompare(AfterLoaded(s), v);
      ExecCompares(i, p, s.arch);
      TestCommutes(s.arch, Value(i.op0, s.arch, p.Next()), Value(i.op1, s.arch, p.Next()));
    }
  }

  lemma CompletesCompareImmediate(i: Instruction, p: Place, immed: Word)
    requires IsWellFormed(i) && (i.mnemonic.Cmp? || i.mnemonic.Test?)
    requires i.op0.kind.OpMem? && i.op1.kind.OpImm? && immed == Wrap(Number(i.op1.lval, i.op1.size))
    ensures Completes([Loaded(p), Applied(i.mnemonic, NoReg, ScratchLs, immed, Immed, p)], i, p)
  {
    var u, v := Loaded(p), Applied(i.mnemonic, NoReg, ScratchLs, immed, Immed, p);
    forall s
      ensures CompletesFrom(s, [u, v], i, p)
    {
      AfterLoad(s, v, p);
      StepCompare(AfterLoaded(s), v);
      ExecCompares(i, p, s.arch);
    }
  }

  // The operand beside the memory operand.
  ghost function OtherOperand(i: Instruction): Operand {
    if i.op0.kind.OpMem? then i.op1 else i.op0
  }

  // The operation itself, from a register or an immediate operand.
  ghost function OperandUop(mn: Mnemonic, op: Operand, fromReg: Reg, toReg: Reg, toImmed: Reg, p: Place): Uop {
    if !op.base.NoReg? then Applied(mn, fromReg, toReg, 0, RegSrc, p)
    else Applied(mn, NoReg, toImmed, Extended(op.lval, op.size), Immed, p)
  }

  // Whether the operand is loaded, stored or only its address taken (decoder.cc:286-295).
  function LoadOrStore(i: Instruction): Mnemonic {
    if i.op1.kind.NoOperand? then Load
    else if i.mnemonic.Lea? then Lea
    else if i.op0.kind.OpMem? then Store
    else Load
  }

  ghost function EffectUops(i: Instruction, p: Place): seq<Uop> {
    var m, other := MemoryOperand(i), OtherOperand(i);
    if !m.index.NoReg? && i.mnemonic.Lea? then
      [Applied(Mov, LoadStoreReg, if m.base == m.index then i.op0.base else other.base, 0, RegSrc, p)]
    else if i.mnemonic.Cmp? || i.mnemonic.Test? then
      [Loaded(p), OperandUop(i.mnemonic, other, ScratchLs, other.base, ScratchLs, p)]
    else if LoadOrStore(i).Load? then
      [Loaded(p), Applied(i.mnemonic, ScratchLs, i.op0.base, 0, RegSrc, p)]
    else if LoadOrStore(i).Store? && m.index.NoReg? then
      [Applied(i.mnemonic, i.op1.base, ScratchLs, 0, RegSrc, p), Stored(p)]
    else if !m.index.NoReg? then
      [OperandUop(i.mnemonic, other, other.base, ScratchLs, ScratchLs, p), Stored(p)]
    else
      [Applied(Mov, LoadStoreReg, i.op0.base, 0, RegSrc, p)]
  }

  lemma EffectMeans(i: Instruction, p: Place)
    requires HasEffect(i) && (i.op0.kind.OpMem? || i.op1.kind.OpMem?)
    ensures Completes(EffectUops(i, p), Meant(i), p)
  {
    var w, other := Meant(i), OtherOperand(i);
    if other.kind.OpImm? {
      ExtendedNumber(other.lval, other.size);
    }
    if i.mnemonic.Lea? {
      CompletesLea(w, p);
    } else if i.mnemonic.Cmp? || i.mnemonic.Test? {
      CompareMeans(i, p);
    } else if i.op1.kind.OpMem? {
      CompletesLoad(w, p);
    } else {
      var immediate := i.op1.kind.OpImm?;
      CompletesStore(w, p, if immediate then Extended(other.lval, other.size) else 0,
                     if immediate then Immed else RegSrc);
    }
  }

  lemma CompareMeans(i: Instruction, p: Place)
    requires HasEffect(i) && (i.op0.kind.OpMem? || i.op1.kind.OpMem?)
    requires i.mnemonic.Cmp? || i.mnemonic.Test?
    ensures Completes(EffectUops(i, p), Meant(i), p)
  {
    var w, other := Meant(i), OtherOperand(i);
    if other.kind.OpImm? {
      ExtendedNumber(other.lval, other.size);
      CompletesCompareImmediate(w, p, Extended(other.lval, other.size));
    } else if i.mnemonic.Test? && i.op0.kind.OpMem? {
      CompletesTestRegister(w, p);
    } else {
      CompletesCompare(w, p);
    }
  }

  // ---- all instructions ----

  ghost function CrackImul(i: Instruction, p: Place): Uop {
    if i.op2.kind.OpReg? then Uop(Imul, i.op1.base, i.op0.base, i.op2.base, 0, Imul3, p.opsize, p.address)
    else if !i.op2.kind.NoOperand? then
      Uop(Imul, i.op1.base, i.op0.base, NoReg, Extended(i.op2.lval, i.op2.size), Imul3, p.opsize, p.address)
    else if i.op1.kind.OpReg? then Uop(Imul, i.op1.base, i.op0.base, NoReg, 0, Imul2R, p.opsize, p.address)
    else if !i.op1.kind.NoOperand? then
      Uop(Imul, NoReg, i.op0.base, NoReg, Extended(i.op2.lval, i.op2.size), Imul2I, p.opsize, p.address)
    else Uop(Imul, i.op0.base, NoReg, NoReg, 0, Imul1, p.opsize, p.address)
  }

  // The micro-ops of an instruction; None for the forms no branch takes.
  ghost function Crack(i: Instruction, p: Place): seq<Uop> {
    if i.op0.kind.NoOperand? && i.op1.kind.NoOperand? then [Applied(i.mnemonic, NoReg, NoReg, 0, NoSrc, p)]
    else if i.mnemonic.Imul? then [CrackImul(i, p)]
    else if i.op0.kind.OpReg? && i.op1.kind.OpReg? then [Applied(i.mnemonic, i.op1.base, i.op0.base, 0, RegSrc, p)]
    else if i.op0.kind.OpJImm? then [Applied(i.mnemonic, NoReg, NoReg, Extended(i.op0.lval, i.op0.size), Immed, p)]
    else if i.op1.kind.NoOperand? && !i.op0.kind.OpMem? then
      [if i.mnemonic.Pop? then Applied(i.mnemonic, NoReg, i.op0.base, 0, RegSrc, p)
       else Applied(i.mnemonic, i.op0.base, NoReg, 0, RegSrc, p)]
    else if i.op0.kind.OpReg? && i.op1.kind.OpConst? then [Applied(i.mnemonic, NoReg, i.op0.base, 1, Immed, p)]
    else if i.op1.kind.OpImm? && i.op0.kind.OpReg? then
      [Applied(i.mnemonic, NoReg, i.op0.base, Extended(i.op1.lval, i.op1.size), Immed, p)]
    else if i.op0.kind.OpMem? || i.op1.kind.OpMem? then AddressUops(MemoryOperand(i), p) + EffectUops(i, p)
    else []
  }

  // Some branch takes the instruction and moves on to the next one.
  predicate Handled(i: Instruction) {
    || (i.op0.kind.NoOperand? && i.op1.kind.NoOperand?) || i.mnemonic.Imul? || i.op0.kind.OpJImm?
    || (i.op0.kind.OpReg? && (i.op1.kind.OpReg? || i.op1.kind.OpConst? || i.op1.kind.OpImm?))
    || i.op1.kind.NoOperand? || i.op0.kind.OpMem? || i.op1.kind.OpMem?
  }

  // The one micro-op of a register destination and a register or immediate source.
  ghost function RegisterUop(i: Instruction, p: Place): Uop {
    if i.op1.kind.OpReg? then Applied(i.mnemonic, i.op1.base, i.op0.base, 0, RegSrc, p)
    else Applied(i.mnemonic, NoReg, i.op0.base, Extended(i.op1.lval, i.op1.size), Immed, p)
  }

  lemma RegisterUopMeans(s: State, i: Instruction, p: Place)
    requires IsWellFormed(i) && i.op0.kind.OpReg? && !i.op1.kind.OpMem?
    ensures Step(s, RegisterUop(i, p)).arch == Exec(i, p, s.arch)
  {
    if i.op1.kind.OpImm? {
      ExtendedNumber(i.op1.lval, i.op1.size);
    }
    if !IsAlu(i.mnemonic) {
      StepCompare(s, RegisterUop(i, p));
      BitwiseWordCommutes(And, Value(i.op0, s.arch, p.Next()), Value(i.op1, s.arch, p.Next()));
    }
  }

  lemma RegisterFormMeans(i: Instruction, p: Place)
    requires IsWellFormed(i) && i.op0.kind.OpReg? && !i.op1.kind.OpMem?
    ensures Implements([RegisterUop(i, p)], i, p)
  {
    forall s
      ensures ImplementsFrom(s, [RegisterUop(i, p)], i, p)
    {
      RunOne(s, RegisterUop(i, p));
      RegisterUopMeans(s, i, p);
    }
  }

  lemma MemoryFormMeans(i: Instruction, p: Place)
    requires InDomain(i) && (i.op0.kind.OpMem? || i.op1.kind.OpMem?)
    ensures Implements(AddressUops(MemoryOperand(i), p) + EffectUops(i, p), Meant(i), p)
  {
    AddressMeans(MemoryOperand(i), p);
    EffectMeans(i, p);
    AddressThenEffect(AddressUops(MemoryOperand(i), p), EffectUops(i, p), Meant(i), p);
  }

  lemma CrackForms(i: Instruction, p: Place)
    requires IsWellFormed(i)
    ensures i.op0.kind.OpMem? || i.op1.kind.OpMem? ==>
              Crack(i, p) == AddressUops(MemoryOperand(i), p) + EffectUops(i, p)
    ensures !i.op0.kind.OpMem? && !i.op1.kind.OpMem? ==> Crack(i, p) == [RegisterUop(i, p)] && Meant(i) == i
  {}

  // The translation preserves what the instruction is taken for.
  lemma CrackMeans(i: Instruction, p: Place)
    requires InDomain(i)
    ensures Implements(Crack(i, p), Meant(i), p)
  {
    CrackForms(i, p);
    if i.op0.kind.OpMem? || i.op1.kind.OpMem? {
      MemoryFormMeans(i, p);
    } else {
      RegisterFormMeans(i, p);
    }
  }
}
