// The micro-ops of the core and what they do one after the other: operands are read as in
// core-project/dispatch.cc:66-255, results computed as in core-project/execute.cc:376-679
// and written as in core-project/writeback.cc:65-118.
module Uops {
  import opened Arithmetic
  import opened MachineWords

  type Gprs = s: seq<Word> | |s| == 16 witness [0, 0, 0, 0, 0, 0, 0, 0, 0, 0, 0, 0, 0, 0, 0, 0]
  type GprIndex = n: nat | n < 16

  // The 64-bit registers, and the scratch registers only micro-ops use (common.cc:17-19).
  datatype Reg = NoReg | Gpr(n: GprIndex) | Rip | LoadStoreReg | ScratchLs

  datatype Source = NoSrc | RegSrc | Immed | Imul1 | Imul2R | Imul2I | Imul3 | LoadMul

  datatype Mnemonic = Mov | Add | Sub | And | Or | Xor | Imul | Lea | Cmp | Test | Load | Store | Pop | Other(code: nat)

  datatype Uop = Uop(
    opcode: Mnemonic, reg1: Reg, reg2: Reg, reg3: Reg, immed: Word, src: Source, opsize: nat, address: Word)

  // What a program can observe, as far as it is modelled: registers, memory words and the
  // two flags.
  datatype Arch = Arch(regs: Gprs, mem: imap<Word, Word>, zf: bool, cf: bool)

  // `junk` is what an operand slot holds that nothing filled.
  datatype State = State(arch: Arch, loadStore: Word, scratch: Word, junk: Word)

  function Fetch(mem: imap<Word, Word>, addr: Word): Word {
    if addr in mem then mem[addr] else 0
  }

  // A bitwise operation on the low n bits.
  function Bitwise(o: Mnemonic, x: nat, y: nat, n: nat): (r: nat)
    ensures r < Pow(2, n)
  {
    if n == 0 then 0
    else
      var a, b := x % 2 == 1, y % 2 == 1;
      var bit := if o.And? then a && b else if o.Or? then a || b else a != b;
      2 * Bitwise(o, x / 2, y / 2, n - 1) + (if bit then 1 else 0)
  }

  lemma {:induction false} BitwiseCommutes(o: Mnemonic, x: nat, y: nat, n: nat)
    ensures Bitwise(o, x, y, n) == Bitwise(o, y, x, n)
  {
    if n > 0 {
      BitwiseCommutes(o, x / 2, y / 2, n - 1);
    }
  }

  lemma WordBits()
    ensures Pow(2, 64) == TWO64
  {
    HalfWordBits();
    PowAdd(2, 32, 32);
  }

  lemma HalfWordBits()
    ensures Pow(2, 32) == 0x1_0000_0000
  {
    QuarterWordBits();
    PowAdd(2, 16, 16);
  }

  lemma QuarterWordBits()
    ensures Pow(2, 16) == 0x1_0000
  {
    assert Pow(2, 4) == 16;
    assert Pow(2, 8) == 0x100;
    PowAdd(2, 8, 8);
  }

  function BitwiseWord(o: Mnemonic, x: Word, y: Word): Word {
    WordBits();
    Bitwise(o, x, y, 64)
  }

  lemma BitwiseWordCommutes(o: Mnemonic, x: Word, y: Word)
    ensures BitwiseWord(o, x, y) == BitwiseWord(o, y, x)
  {
    BitwiseCommutes(o, x, y, 64);
  }

  predicate IsAlu(o: Mnemonic) {
    o in {Mov, Add, Sub, And, Or, Xor}
  }

  // The value an operation leaves in its destination.
  function Alu(o: Mnemonic, destination: Word, source: Word): Word
    requires IsAlu(o)
  {
    match o
    case Mov => source
    case Add => Wrap(destination + source)
    case Sub => Wrap(destination - source)
    case _ => BitwiseWord(o, destination, source)
  }

  function ReadReg(s: State, r: Reg, u: Uop): Word {
    match r
    case Gpr(n) => s.arch.regs[n]
    case Rip => Wrap(u.address + u.opsize)
    case LoadStoreReg => s.loadStore
    case ScratchLs => s.scratch
    case NoReg => s.junk
  }

  function WriteReg(s: State, r: Reg, v: Word): State {
    match r
    case Gpr(n) => s.(arch := s.arch.(regs := s.arch.regs[n := v]))
    case LoadStoreReg => s.(loadStore := v)
    case ScratchLs => s.(scratch := v)
    case _ => s
  }

  function SetFlags(a: Arch, zf: bool, cf: bool): Arch {
    a.(zf := zf, cf := cf)
  }

  // One micro-op. The opcodes left out here are not part of this model.
  ghost function Step(s: State, u: Uop): State {
    var value1 := if u.src in {RegSrc, Imul2R, Imul3} then ReadReg(s, u.reg1, u)
                  else if u.src in {Immed, Imul2I, LoadMul} then u.immed
                  else s.junk;
    var value2 := ReadReg(s, u.reg2, u);
    if IsAlu(u.opcode) then WriteReg(s, u.reg2, Alu(u.opcode, value2, value1))
    else if u.opcode.Imul? && u.src.LoadMul? then WriteReg(s, u.reg2, Wrap(Multiple(value1, value2)))
    else if u.opcode.Load? then WriteReg(s, u.reg2, Fetch(s.arch.mem, value1))
    else if u.opcode.Store? then s.(arch := s.arch.(mem := s.arch.mem[value2 := value1]))
    else if u.opcode.Cmp? then s.(arch := SetFlags(s.arch, value2 == value1, value2 < value1))
    else if u.opcode.Test? then s.(arch := SetFlags(s.arch, BitwiseWord(And, value1, value2) == 0, false))
    else s
  }

  ghost function Run(s: State, uops: seq<Uop>): State {
    if uops == [] then s else Step(Run(s, uops[..|uops| - 1]), uops[|uops| - 1])
  }

  lemma RunOneMore(s: State, uops: seq<Uop>, u: Uop)
    ensures Run(s, uops + [u]) == Step(Run(s, uops), u)
  {
    assert (uops + [u])[..|uops|] == uops;
  }

  lemma RunOne(s: State, u: Uop)
    ensures Run(s, [u]) == Step(s, u)
  {
    RunOneMore(s, [], u);
    assert [] + [u] == [u];
  }

  lemma RunTwo(s: State, u: Uop, v: Uop)
    ensures Run(s, [u, v]) == Step(Step(s, u), v)
  {
    RunOne(s, u);
    RunOneMore(s, [u], v);
    assert [u] + [v] == [u, v];
  }

  lemma {:induction false} RunConcat(s: State, a: seq<Uop>, b: seq<Uop>)
    ensures Run(s, a + b) == Run(Run(s, a), b)
    decreases |b|
  {
    if b == [] {
      assert a + b == a;
    } else {
      assert (a + b)[..|a + b| - 1] == a + b[..|b| - 1];
      RunConcat(s, a, b[..|b| - 1]);
    }
  }
}
