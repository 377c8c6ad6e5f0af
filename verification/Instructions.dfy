// What an instruction means: the operands as the disassembler reports them, effective
// addresses (section 3.7.5 of the Intel Software Developer's Manual, volume 1) and effects.
module Instructions {
  import opened Arithmetic
  import opened MachineWords
  import opened SignExtension
  import opened Uops

  datatype OperandKind = NoOperand | OpReg | OpMem | OpImm | OpJImm | OpConst

  type Scale = n: nat | n < 256

  // `scale` is 0 when there is no scaling; `offset` is the size of the displacement in bits
  // and `size` that of an immediate, whose value is in `lval`.
  datatype Operand = Operand(
    kind: OperandKind, base: Reg, index: Reg, scale: Scale, offset: nat, size: nat, lval: Word)

  datatype Instruction = Instruction(mnemonic: Mnemonic, op0: Operand, op1: Operand, op2: Operand)

  // Where an instruction was decoded, and its length.
  datatype Place = Place(address: Word, opsize: nat) {
    function Next(): Word {
      Wrap(address + opsize)
    }
  }

  // lval encodes a number of `size` bits, with zeros or with copies of its sign above.
  ghost predicate Encodes(lval: Word, size: nat) {
    size in {8, 16, 32} && (lval < Range(size) || lval >= TWO64 - HalfRange(size))
  }

  ghost function Number(lval: Word, size: nat): int
    requires Encodes(lval, size)
  {
    if lval < HalfRange(size) then lval
    else if lval < Range(size) then lval - Range(size)
    else lval - TWO64
  }

  // sign_extend yields the 64-bit encoding of the number, which survives the assignment to
  // a 32-bit int.
  lemma ExtendedNumber(lval: Word, size: nat)
    requires Encodes(lval, size)
    ensures -HalfRange(size) <= Number(lval, size) < HalfRange(size)
    ensures Extended(lval, size) == Wrap(Number(lval, size))
    ensures ToInt32(Extended(lval, size)) == Number(lval, size)
  {
    HalfOfRange(size);
  }

  // The conversion to a 32-bit signed integer.
  function ToInt32(v: Word): int {
    var low := v % 0x1_0000_0000;
    if low < 0x8000_0000 then low else low - 0x1_0000_0000
  }

  predicate IsRegister(op: Operand) {
    op.kind.OpReg? && op.base.Gpr?
  }

  ghost predicate IsImmediate(op: Operand) {
    op.kind.OpImm? && op.base.NoReg? && Encodes(op.lval, op.size)
  }

  // A memory operand with a base, an index, both or neither; an index carries a scale.
  ghost predicate IsMemory(op: Operand) {
    && op.kind.OpMem?
    && (op.base.Gpr? || op.base.Rip? || op.base.NoReg?)
    && (op.index.Gpr? || op.index.NoReg?)
    && op.scale in {0, 2, 4, 8}
    && (Encodes(op.lval, op.offset) || (op.offset == 0 && op.lval == 0))
  }

  // Two memory forms the translation gets wrong: a register added to itself unscaled,
  predicate IsDoubled(op: Operand) {
    op.index == op.base && op.index.Gpr? && op.scale == 0
  }

  // and an address that is the displacement alone.
  predicate IsAbsolute(op: Operand) {
    op.index.NoReg? && op.base.NoReg?
  }

  function RegisterValue(r: Reg, regs: Gprs, next: Word): Word {
    match r
    case Gpr(n) => regs[n]
    case Rip => next
    case _ => 0
  }

  function Factor(op: Operand): nat {
    if op.scale == 0 then 1 else op.scale
  }

  ghost function Displacement(op: Operand): int
    requires IsMemory(op)
  {
    if op.offset == 0 then 0 else Number(op.lval, op.offset)
  }

  // The parts of an effective address that have been added up so far.
  ghost function PartialAddress(op: Operand, regs: Gprs, next: Word, index: bool, base: bool, disp: bool): int
    requires IsMemory(op)
  {
    (if index then Multiple(Factor(op), RegisterValue(op.index, regs, next)) else 0)
    + (if base then RegisterValue(op.base, regs, next) else 0)
    + (if disp then Displacement(op) else 0)
  }

  // base + index * scale + displacement, modulo 2^64
  ghost function EffectiveAddress(op: Operand, regs: Gprs, next: Word): Word
    requires IsMemory(op)
  {
    Wrap(PartialAddress(op, regs, next, true, true, true))
  }

  ghost predicate IsOperand(op: Operand) {
    IsRegister(op) || IsImmediate(op) || IsMemory(op)
  }

  ghost function Value(op: Operand, a: Arch, next: Word): Word
    requires IsOperand(op)
  {
    if op.kind.OpReg? then RegisterValue(op.base, a.regs, next)
    else if op.kind.OpImm? then Wrap(Number(op.lval, op.size))
    else Fetch(a.mem, EffectiveAddress(op, a.regs, next))
  }

  ghost function Assign(op: Operand, a: Arch, next: Word, v: Word): Arch
    requires IsRegister(op) || IsMemory(op)
  {
    if op.kind.OpReg? then a.(regs := a.regs[op.base.n := v])
    else a.(mem := a.mem[EffectiveAddress(op, a.regs, next) := v])
  }

  // The instructions with a meaning here: one or two register, immediate or memory
  // operands, at most one of them in memory.
  ghost predicate IsWellFormed(i: Instruction) {
    && i.op2.kind.NoOperand? && IsOperand(i.op1)
    && (IsRegister(i.op0) || (IsMemory(i.op0) && !i.op1.kind.OpMem?))
    && if i.mnemonic.Lea? then IsRegister(i.op0) && i.op1.kind.OpMem?
       else IsAlu(i.mnemonic) || i.mnemonic.Cmp? || i.mnemonic.Test?
  }

  // Those that, once the address is there, are translated to what some instruction does: of
  // those that write memory only moves, and of an immediate only with an index.
  ghost predicate HasEffect(i: Instruction) {
    && IsWellFormed(i)
    && (i.op0.kind.OpMem? ==>
          || i.mnemonic.Cmp? || i.mnemonic.Test?
          || (i.mnemonic.Mov? && (i.op1.kind.OpReg? || i.op0.index.Gpr?)))
  }

  // Of these, those whose address has a base or an index.
  ghost predicate InDomain(i: Instruction) {
    HasEffect(i) && (IsMemory(MemoryOperand(i)) ==> !IsAbsolute(MemoryOperand(i)))
  }

  // What the translation takes an instruction for: it adds a register to itself, unscaled,
  // only once, and compares a memory word with a register the wrong way round. An absolute
  // address starts from an operand nothing set, as if from a register of that value.
  function Singled(op: Operand): Operand {
    if op.kind.OpMem? && IsDoubled(op) then op.(index := NoReg)
    else if op.kind.OpMem? && IsAbsolute(op) then op.(base := Gpr(0))
    else op
  }

  ghost function Meant(i: Instruction): (w: Instruction)
    ensures IsWellFormed(i) ==> IsWellFormed(w)
  {
    var op0, op1 := Singled(i.op0), Singled(i.op1);
    if i.mnemonic.Cmp? && i.op0.kind.OpMem? && i.op1.kind.OpReg? then i.(op0 := op1, op1 := op0)
    else i.(op0 := op0, op1 := op1)
  }

  // The effect of an instruction. Like the simulator it sets flags only on cmp and test.
  ghost function Exec(i: Instruction, place: Place, a: Arch): Arch
    requires IsWellFormed(i)
  {
    var next := place.Next();
    if i.mnemonic.Lea? then Assign(i.op0, a, next, EffectiveAddress(i.op1, a.regs, next))
    else
      var x, y := Value(i.op0, a, next), Value(i.op1, a, next);
      if i.mnemonic.Cmp? then SetFlags(a, x == y, x < y)
      else if i.mnemonic.Test? then SetFlags(a, BitwiseWord(And, x, y) == 0, false)
      else Assign(i.op0, a, next, Alu(i.mnemonic, x, y))
  }

  // A list of micro-ops does what the instruction does, from every state.
  ghost predicate Implements(uops: seq<Uop>, i: Instruction, place: Place)
    requires IsWellFormed(i)
  {
    forall s :: ImplementsFrom(s, uops, i, place)
  }

  ghost predicate ImplementsFrom(s: State, uops: seq<Uop>, i: Instruction, place: Place)
    requires IsWellFormed(i)
  {
    Run(s, uops).arch == Exec(i, place, s.arch)
  }

  ghost function MemoryOperand(i: Instruction): Operand {
    if i.op0.kind.OpMem? then i.op0 else i.op1
  }

  // Micro-ops that finish an instruction once its address is in the load/store register.
  ghost predicate Completes(uops: seq<Uop>, i: Instruction, place: Place)
    requires IsWellFormed(i) && IsMemory(MemoryOperand(i))
  {
    forall s :: CompletesFrom(s, uops, i, place)
  }

  ghost predicate CompletesFrom(s: State, uops: seq<Uop>, i: Instruction, place: Place)
    requires IsWellFormed(i) && IsMemory(MemoryOperand(i))
  {
    s.loadStore == EffectiveAddress(MemoryOperand(i), s.arch.regs, place.Next()) ==>
      Run(s, uops).arch == Exec(i, place, s.arch)
  }

  // Micro-ops that leave an address in the load/store register and change nothing else.
  ghost predicate LeavesAddress(uops: seq<Uop>, op: Operand, place: Place, index: bool, base: bool, disp: bool)
    requires IsMemory(op)
  {
    forall s :: LeavesFrom(s, uops, op, place, index, base, disp)
  }

  ghost predicate LeavesFrom(s: State, uops: seq<Uop>, op: Operand, place: Place, index: bool, base: bool, disp: bool)
    requires IsMemory(op)
  {
    Run(s, uops) == s.(loadStore := Wrap(PartialAddress(op, s.arch.regs, place.Next(), index, base, disp)))
  }

  ghost predicate ComputesAddress(uops: seq<Uop>, op: Operand, place: Place)
    requires IsMemory(op)
  {
    LeavesAddress(uops, op, place, true, true, true)
  }

  lemma AddressThenEffect(address: seq<Uop>, effect: seq<Uop>, i: Instruction, place: Place)
    requires IsWellFormed(i) && IsMemory(MemoryOperand(i))
    requires ComputesAddress(address, MemoryOperand(i), place) && Completes(effect, i, place)
    ensures Implements(address + effect, i, place)
  {
    forall s
      ensures ImplementsFrom(s, address + effect, i, place)
    {
      RunConcat(s, address, effect);
      assert LeavesFrom(s, address, MemoryOperand(i), place, true, true, true);
      assert CompletesFrom(Run(s, address), effect, i, place);
    }
  }

  // ---- a straight-line program ----

  ghost function ExecAll(program: seq<Instruction>, places: seq<Place>, a: Arch): Arch
    requires |places| == |program|
    requires forall k :: 0 <= k < |program| ==> IsWellFormed(program[k])
  {
    if program == [] then a
    else
      var n := |program| - 1;
      Exec(program[n], places[n], ExecAll(program[..n], places[..n], a))
  }

  ghost function Flatten(parts: seq<seq<Uop>>): seq<Uop> {
    if parts == [] then [] else Flatten(parts[..|parts| - 1]) + parts[|parts| - 1]
  }

  // Translating instruction by instruction preserves the meaning of a whole program.
  lemma {:induction false} ProgramPreserved(program: seq<Instruction>, places: seq<Place>, parts: seq<seq<Uop>>,
                                            s: State)
    requires |parts| == |places| == |program|
    requires forall k :: 0 <= k < |program| ==> IsWellFormed(program[k]) && Implements(parts[k], program[k], places[k])
    ensures Run(s, Flatten(parts)).arch == ExecAll(program, places, s.arch)
    decreases |program|
  {
    if program != [] {
      var n := |program| - 1;
      ProgramPreserved(program[..n], places[..n], parts[..n], s);
      RunConcat(s, Flatten(parts[..n]), parts[n]);
      assert Implements(parts[n], program[n], places[n]);
      assert ImplementsFrom(Run(s, Flatten(parts[..n])), parts[n], program[n], places[n]);
    }
  }
}
