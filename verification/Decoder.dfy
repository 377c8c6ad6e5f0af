// core-project/decoder.cc:95-508: the decoder breaks the instructions of a queue into
// micro-ops, which it pushes into the queue of the dispatch stage.
module DecoderModel {
  import opened MachineWords
  import opened SignExtension
  import opened Uops
  import opened Instructions
  import opened Cracking

  // sign_extend shifts by less than the width of an int.
  ghost predicate ShiftDefined(lval: Word, size: nat) {
    size <= 32 || |Hex(lval)| * 4 != size
  }

  ghost predicate ShiftsDefined(i: Instruction) {
    && ShiftDefined(i.op0.lval, i.op0.offset) && ShiftDefined(i.op0.lval, i.op0.size)
    && ShiftDefined(i.op1.lval, i.op1.offset) && ShiftDefined(i.op1.lval, i.op1.size)
    && ShiftDefined(i.op2.lval, i.op2.size)
  }

  class Decoder {
    var ddUopQueue: seq<Uop>
    var sizeBytes: seq<nat>
    var addrQ: seq<Word>

    // The instruction that is being broken up.
    ghost predicate HasFront()
      reads this
    {
      sizeBytes != [] && addrQ != []
    }

    ghost function Front(): Place
      requires HasFront()
      reads this
    {
      Place(addrQ[0], sizeBytes[0])
    }

    constructor (sizeBytes: seq<nat>, addrQ: seq<Word>)
      ensures ddUopQueue == [] && this.sizeBytes == sizeBytes && this.addrQ == addrQ
    {
      ddUopQueue := [];
      this.sizeBytes := sizeBytes;
      this.addrQ := addrQ;
    }

    // decoder.cc:95-111
    method Push2q(mnemonic: Mnemonic, reg1: Reg, reg2: Reg, reg3: Reg, immedVal: Word, source: Source)
      requires HasFront()
      modifies this`ddUopQueue
      ensures ddUopQueue == old(ddUopQueue)
                            + [Uop(mnemonic, reg1, reg2, reg3, immedVal, source, sizeBytes[0], addrQ[0])]
    {
      ddUopQueue := ddUopQueue + [Uop(mnemonic, reg1, reg2, reg3, immedVal, source, sizeBytes[0], addrQ[0])];
    }

    // decoder.cc:312-320, 383-395 and 438-461: the address of a memory operand.
    method PushAddress(m: Operand)
      requires HasFront() && ShiftDefined(m.lval, m.offset)
      modifies this`ddUopQueue
      ensures ddUopQueue == old(ddUopQueue) + AddressUops(m, Front())
    {
      ghost var was, p := ddUopQueue, Front();
      if m.index.NoReg? {
        var extended := SignExtend(m.lval, m.offset);
        Push2q(Mov, m.base, LoadStoreReg, NoReg, 0, RegSrc);
        PushOffset(m, ToInt32(extended) != 0);
        Regroup(was, [Moved(m.base, LoadStoreReg, p)], [], OffsetUops(OffsetOf(m) != 0, m, p));
      } else if m.base == m.index {
        Push2q(Mov, m.base, LoadStoreReg, NoReg, 0, RegSrc);
        if m.scale != 0 {
          Push2q(Imul, NoReg, LoadStoreReg, NoReg, m.scale + 1, LoadMul);
        }
        assert ddUopQueue == was + DoubledStart(m, p);
        PushOffset(m, m.offset != 0);
        Regroup(was, DoubledStart(m, p), [], OffsetUops(m.offset != 0, m, p));
      } else {
        PushIndexed(m);
        PushOffset(m, m.offset != 0);
        Regroup(was, IndexedStart(m, p), BaseUops(m, p), OffsetUops(m.offset != 0, m, p));
      }
    }

    method PushIndexed(m: Operand)
      requires HasFront()
      modifies this`ddUopQueue
      ensures ddUopQueue == old(ddUopQueue) + IndexedStart(m, Front()) + BaseUops(m, Front())
    {
      Push2q(Mov, m.index, LoadStoreReg, NoReg, 0, RegSrc);
      if m.scale != 0 {
        Push2q(Imul, NoReg, LoadStoreReg, NoReg, m.scale, LoadMul);
      }
      assert ddUopQueue == old(ddUopQueue) + IndexedStart(m, Front());
      if !m.base.NoReg? {
        Push2q(Add, m.base, LoadStoreReg, NoReg, 0, RegSrc);
      }
    }

    // The displacement, when there is one to add.
    method PushOffset(m: Operand, present: bool)
      requires HasFront() && ShiftDefined(m.lval, m.offset)
      modifies this`ddUopQueue
      ensures ddUopQueue == old(ddUopQueue) + OffsetUops(present, m, Front())
    {
      if present {
        var extended := SignExtend(m.lval, m.offset);
        Push2q(Add, NoReg, LoadStoreReg, NoReg, Wrap(ToInt32(extended)), Immed);
      }
    }

    // The operation itself, from a register or an immediate operand.
    method PushOperation(mnemonic: Mnemonic, op: Operand, fromReg: Reg, toReg: Reg, toImmed: Reg)
      requires HasFront() && ShiftDefined(op.lval, op.size)
      modifies this`ddUopQueue
      ensures ddUopQueue == old(ddUopQueue) + [OperandUop(mnemonic, op, fromReg, toReg, toImmed, Front())]
    {
      if !op.base.NoReg? {
        Push2q(mnemonic, fromReg, toReg, NoReg, 0, RegSrc);
      } else {
        var immed := SignExtend(op.lval, op.size);
        Push2q(mnemonic, NoReg, toImmed, NoReg, immed, Immed);
      }
    }

    // decoder.cc:324-364, 398-432 and 465-500: the operation, once the address is there.
    method PushEffect(i: Instruction)
      requires HasFront() && ShiftsDefined(i)
      modifies this`ddUopQueue
      ensures ddUopQueue == old(ddUopQueue) + EffectUops(i, Front())
    {
      var m, other := if i.op0.kind.OpMem? then i.op0 else i.op1, if i.op0.kind.OpMem? then i.op1 else i.op0;
      var loadOrStore := LoadOrStore(i);
      if !m.index.NoReg? && i.mnemonic.Lea? {
        Push2q(Mov, LoadStoreReg, if m.base == m.index then i.op0.base else other.base, NoReg, 0, RegSrc);
      } else if i.mnemonic.Cmp? || i.mnemonic.Test? {
        Push2q(Load, LoadStoreReg, ScratchLs, NoReg, 0, RegSrc);
        PushOperation(i.mnemonic, other, ScratchLs, other.base, ScratchLs);
      } else if loadOrStore.Load? {
        Push2q(Load, LoadStoreReg, ScratchLs, NoReg, 0, RegSrc);
        Push2q(i.mnemonic, ScratchLs, i.op0.base, NoReg, 0, RegSrc);
      } else if loadOrStore.Store? && m.index.NoReg? {
        Push2q(i.mnemonic, i.op1.base, ScratchLs, NoReg, 0, RegSrc);
        Push2q(Store, ScratchLs, LoadStoreReg, NoReg, 0, RegSrc);
      } else if !m.index.NoReg? {
        PushOperation(i.mnemonic, other, other.base, ScratchLs, ScratchLs);
        Push2q(Store, ScratchLs, LoadStoreReg, NoReg, 0, RegSrc);
      } else {
        Push2q(Mov, LoadStoreReg, i.op0.base, NoReg, 0, RegSrc);
      }
    }

    // decoder.cc:155-197
    method PushImul(i: Instruction)
      requires HasFront() && ShiftsDefined(i)
      modifies this`ddUopQueue
      ensures ddUopQueue == old(ddUopQueue) + [CrackImul(i, Front())]
    {
      if i.op2.kind.OpReg? {
        Push2q(Imul, i.op1.base, i.op0.base, i.op2.base, 0, Imul3);
      } else if !i.op2.kind.NoOperand? {
        var immed := SignExtend(i.op2.lval, i.op2.size);
        Push2q(Imul, i.op1.base, i.op0.base, NoReg, immed, Imul3);
      } else if i.op1.kind.OpReg? {
        Push2q(Imul, i.op1.base, i.op0.base, NoReg, 0, Imul2R);
      } else if !i.op1.kind.NoOperand? {
        var immed := SignExtend(i.op2.lval, i.op2.size);
        Push2q(Imul, NoReg, i.op0.base, NoReg, immed, Imul2I);
      } else {
        Push2q(Imul, i.op0.base, NoReg, NoReg, 0, Imul1);
      }
    }

    // One turn of the loop of decoder.cc:124-507: the fronts of the two queues are dropped
    // by the branches, so not when no branch takes the instruction.
    method CrackNext(i: Instruction) returns (handled: bool, ghost part: seq<Uop>)
      requires HasFront() && ShiftsDefined(i)
      modifies this
      ensures handled == Handled(i) && IsCracked(part, i, old(Front()))
      ensures ddUopQueue == old(ddUopQueue) + part
      ensures sizeBytes == (if handled then old(sizeBytes)[1..] else old(sizeBytes))
      ensures addrQ == (if handled then old(addrQ)[1..] else old(addrQ))
    {
      part := Crack(i, Front());
      handled := CrackOne(i);
      if handled {
        sizeBytes, addrQ := sizeBytes[1..], addrQ[1..];
      }
    }

    method CrackOne(i: Instruction) returns (handled: bool)
      requires HasFront() && ShiftsDefined(i)
      modifies this`ddUopQueue
      ensures ddUopQueue == old(ddUopQueue) + Crack(i, Front())
      ensures handled == Handled(i)
    {
      handled := true;
      if i.op0.kind.NoOperand? && i.op1.kind.NoOperand? {
        Push2q(i.mnemonic, NoReg, NoReg, NoReg, 0, NoSrc);
      } else if i.mnemonic.Imul? {
        PushImul(i);
      } else if i.op0.kind.OpReg? && i.op1.kind.OpReg? {
        Push2q(i.mnemonic, i.op1.base, i.op0.base, NoReg, 0, RegSrc);
      } else if i.op0.kind.OpJImm? {
        var immed := SignExtend(i.op0.lval, i.op0.size);
        Push2q(i.mnemonic, NoReg, NoReg, NoReg, immed, Immed);
      } else if i.op1.kind.NoOperand? && !i.op0.kind.OpMem? {
        if i.mnemonic.Pop? {
          Push2q(i.mnemonic, NoReg, i.op0.base, NoReg, 0, RegSrc);
        } else {
          Push2q(i.mnemonic, i.op0.base, NoReg, NoReg, 0, RegSrc);
        }
      } else if i.op0.kind.OpReg? && i.op1.kind.OpConst? {
        Push2q(i.mnemonic, NoReg, i.op0.base, NoReg, 1, Immed);
      } else if i.op1.kind.OpImm? && i.op0.kind.OpReg? {
        var immed := SignExtend(i.op1.lval, i.op1.size);
        Push2q(i.mnemonic, NoReg, i.op0.base, NoReg, immed, Immed);
      } else if i.op1.kind.OpMem? || i.op0.kind.OpMem? {
        PushAddress(if i.op0.kind.OpMem? then i.op0 else i.op1);
        PushEffect(i);
      } else {
        handled := false;
      }
    }

    // decoder.cc:116-508. Every instruction that some branch takes is broken into its own
    // micro-ops; those in the domain do what the instruction is taken for.
    method CrackOpcodes(opcodes: seq<Instruction>) returns (ghost parts: seq<seq<Uop>>)
      requires |sizeBytes| == |addrQ| == |opcodes|
      requires forall k :: 0 <= k < |opcodes| ==> ShiftsDefined(opcodes[k])
      modifies this
      ensures |parts| == |opcodes| && ddUopQueue == old(ddUopQueue) + Flatten(parts)
      ensures AllHandled(opcodes, |opcodes|) ==>
                && sizeBytes == [] && addrQ == []
                && AreCracked(parts, opcodes, old(addrQ), old(sizeBytes))
                && AllImplemented(parts, opcodes, old(addrQ), old(sizeBytes))
    {
      parts := [];
      ghost var aligned := true;
      for k := 0 to |opcodes|
        invariant |parts| == k && ddUopQueue == old(ddUopQueue) + Flatten(parts)
        invariant |sizeBytes| == |addrQ| >= |opcodes| - k
        invariant aligned <==> AllHandled(opcodes, k)
        invariant aligned ==> sizeBytes == old(sizeBytes)[k..] && addrQ == old(addrQ)[k..]
        invariant aligned ==> AreCracked(parts, opcodes, old(addrQ), old(sizeBytes))
      {
        var handled, part := CrackNext(opcodes[k]);
        FlattenOneMore(old(ddUopQueue), parts, part);
        if aligned {
          CrackedOneMore(parts, part, opcodes, old(addrQ), old(sizeBytes));
        }
        parts := parts + [part];
        aligned := aligned && handled;
      }
      if aligned {
        CrackedImplement(parts, opcodes, old(addrQ), old(sizeBytes));
      }
    }
  }

  ghost predicate AllHandled(opcodes: seq<Instruction>, n: nat) {
    forall j :: 0 <= j < n && j < |opcodes| ==> Handled(opcodes[j])
  }

  ghost predicate AreCracked(parts: seq<seq<Uop>>, opcodes: seq<Instruction>, addrs: seq<Word>, sizes: seq<nat>) {
    && |parts| <= |opcodes| == |addrs| == |sizes|
    && forall j :: 0 <= j < |parts| ==> IsCracked(parts[j], opcodes[j], Place(addrs[j], sizes[j]))
  }

  ghost predicate IsCracked(part: seq<Uop>, i: Instruction, p: Place) {
    part == Crack(i, p)
  }

  lemma CrackedOneMore(parts: seq<seq<Uop>>, part: seq<Uop>, opcodes: seq<Instruction>,
                       addrs: seq<Word>, sizes: seq<nat>)
    requires |parts| < |opcodes| && AreCracked(parts, opcodes, addrs, sizes)
    requires IsCracked(part, opcodes[|parts|], Place(addrs[|parts|], sizes[|parts|]))
    ensures AreCracked(parts + [part], opcodes, addrs, sizes)
  {}

  ghost predicate AllImplemented(parts: seq<seq<Uop>>, opcodes: seq<Instruction>, addrs: seq<Word>, sizes: seq<nat>) {
    && |parts| == |opcodes| == |addrs| == |sizes|
    && forall j :: 0 <= j < |parts| && InDomain(opcodes[j]) ==>
        Implements(parts[j], Meant(opcodes[j]), Place(addrs[j], sizes[j]))
  }

  lemma CrackedImplement(parts: seq<seq<Uop>>, opcodes: seq<Instruction>, addrs: seq<Word>, sizes: seq<nat>)
    requires |parts| == |opcodes| && AreCracked(parts, opcodes, addrs, sizes)
    ensures AllImplemented(parts, opcodes, addrs, sizes)
  {
    forall j | 0 <= j < |parts| && InDomain(opcodes[j])
      ensures Implements(parts[j], Meant(opcodes[j]), Place(addrs[j], sizes[j]))
    {
      CrackMeans(opcodes[j], Place(addrs[j], sizes[j]));
    }
  }

  lemma Regroup(queue: seq<Uop>, a: seq<Uop>, b: seq<Uop>, c: seq<Uop>)
    ensures queue + a + b + c == queue + (a + b + c)
  {}

  lemma FlattenOneMore(queue: seq<Uop>, parts: seq<seq<Uop>>, part: seq<Uop>)
    ensures queue + Flatten(parts + [part]) == queue + Flatten(parts) + part
  {
    assert (parts + [part])[..|parts|] == parts;
  }
}
