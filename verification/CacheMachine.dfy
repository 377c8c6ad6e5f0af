// One clock edge of the controller of warmup-project/cache.h and of one way of its
// memories, over values: which registers and signals each branch sets.
module CacheMachine {
  import opened CacheSpec
  import opened SramModel

  // The registers of the controller, except the set selector, which picks one of two
  // equal ways.
  datatype Registers = Registers(
    servaddr: Address, newstate: int, newdata: Block, temptag: Address,
    waitdelay: int, deassert: bool, operation: int, opstate: int)

  datatype Outputs = Outputs(state: int, token: Address, addr: Address, data: Block)

  // The visible values of the signals the controller drives: its outputs, and the ports of
  // the data, state and tag memories, each shared by both ways.
  datatype Signals = Signals(
    portAvailable: bool, outReady: bool, out: Outputs,
    data: Port<Block>, state: Port<int>, tag: Port<Address>)
  {
    predicate Valid() {
      data.addr < SETS && state.addr < SETS && tag.addr < SETS
    }

    predicate MemoriesIdle() {
      !data.ena && !state.ena && !tag.ena && !data.we && !state.we && !tag.we
    }
  }

  // What one way has put on its output signals.
  datatype Douts = Douts(data: Block, state: int, tag: Address)

  datatype Way = Way(data: State<Block>, state: State<int>, tag: State<Address>) {
    ghost predicate Valid(d: nat) {
      data.Valid(SETS, d) && state.Valid(SETS, d) && tag.Valid(SETS, d)
    }

    function Outs(): Douts {
      Douts(data.dout, state.dout, tag.dout)
    }

    ghost function Step(s: Signals): Way
      requires |data.line| >= 1 && |state.line| >= 1 && |tag.line| >= 1
    {
      Way(data.Step(s.data), state.Step(s.state), tag.Step(s.tag))
    }
  }

  datatype Machine = Machine(r: Registers, s: Signals, way: Way)

  const INSERT := 1
  const READ := 2
  const WRITE := 3
  const UPDATE := 4

  function Off<Row>(p: Port<Row>): Port<Row> {
    p.(ena := false, we := false)
  }

  // The tag just read out matches the request in service.
  predicate TagMatches(r: Registers, outs: Douts) {
    outs.tag == TagOf(r.servaddr)
  }

  // The controller while it counts down.
  function WaitStep(r: Registers, s: Signals): (Registers, Signals) {
    (r.(waitdelay := r.waitdelay - 1, deassert := false), s.(portAvailable := false, outReady := false))
  }

  // The tag of a write or update matched: a second pass writes state, and data for a write.
  function SecondPassStep(r: Registers, s: Signals, outs: Douts, d: nat): (Registers, Signals) {
    var i := IndexOf(r.servaddr);
    (r.(opstate := 2, waitdelay := d, temptag := outs.tag, deassert := false),
     Signals(false, false, s.out,
             if r.operation == WRITE then Port(true, true, i, r.newdata) else s.data,
             Port(true, true, i, r.newstate), Off(s.tag)))
  }

  // The registers after any reply.
  function Done(r: Registers): Registers {
    r.(operation := 0, opstate := 0, waitdelay := 0, deassert := true)
  }

  // The replies: the outputs, and the memories the request used go idle.
  function InsertReply(r: Registers, s: Signals, outs: Douts): (Registers, Signals) {
    (Done(r),
     Signals(true, true, Outputs(outs.state, r.servaddr, r.temptag, s.out.data), Off(s.data), Off(s.state), Off(s.tag)))
  }

  function ReadReply(r: Registers, s: Signals, outs: Douts): (Registers, Signals) {
    (Done(r.(temptag := outs.tag)),
     Signals(true, true,
             Outputs(if TagMatches(r, outs) then outs.state else MISS, r.servaddr, outs.tag, outs.data),
             s.data.(ena := false), s.state.(ena := false), s.tag.(ena := false)))
  }

  // A write or update whose tag did not match.
  function MissReply(r: Registers, s: Signals, outs: Douts): (Registers, Signals) {
    (Done(r.(temptag := outs.tag)),
     Signals(true, true, Outputs(MISS, r.servaddr, outs.tag, s.out.data), s.data, s.state, Off(s.tag)))
  }

  // A write or update after its second pass.
  function PassReply(r: Registers, s: Signals, outs: Douts): (Registers, Signals) {
    (Done(r),
     Signals(true, true, Outputs(outs.state, r.servaddr, r.temptag, s.out.data),
             if r.operation == WRITE then Off(s.data) else s.data, Off(s.state), s.tag))
  }

  function ReplyStep(r: Registers, s: Signals, outs: Douts): (Registers, Signals) {
    if r.operation == INSERT then InsertReply(r, s, outs)
    else if r.operation == READ then ReadReply(r, s, outs)
    else if r.opstate == 1 then MissReply(r, s, outs)
    else PassReply(r, s, outs)
  }

  // A request taken from the inputs.
  function AcceptStep(r: Registers, s: Signals, q: Request, d: nat): (Registers, Signals) {
    var i := IndexOf(q.addr);
    var r0 := r.(servaddr := q.addr, waitdelay := d, deassert := false);
    match Classify(q)
    case Insert =>
      (r0.(operation := INSERT, opstate := 0, newstate := q.newState, newdata := q.data),
       Signals(false, false, s.out, Port(true, true, i, q.data), Port(true, true, i, q.newState),
               Port(true, true, i, TagOf(q.addr))))
    case Read =>
      (r0.(operation := READ, opstate := 0),
       Signals(false, false, s.out, s.data.(ena := true, addr := i), s.state.(ena := true, addr := i),
               s.tag.(ena := true, addr := i)))
    case Write =>
      (r0.(operation := WRITE, opstate := 1, newstate := q.newState, newdata := q.data),
       Signals(false, false, s.out, s.data, s.state, s.tag.(ena := true, addr := i)))
    case Update =>
      (r0.(operation := UPDATE, opstate := 1, newstate := q.newState),
       Signals(false, false, s.out, s.data, s.state, s.tag.(ena := true, addr := i)))
    case Ignored => (r, s)
  }

  // No request in service.
  function IdleStep(r: Registers, s: Signals, input: Input, d: nat): (Registers, Signals) {
    if input.Submit? && s.portAvailable && Classify(input.req) != Ignored then AcceptStep(r, s, input.req, d)
    else (r.(deassert := false), s.(portAvailable := true, outReady := s.outReady && !r.deassert))
  }

  // A write or update whose first pass found its tag goes on to write.
  predicate InSecondPass(r: Registers, outs: Douts) {
    r.operation >= WRITE && r.opstate == 1 && TagMatches(r, outs)
  }

  function ControlStep(r: Registers, s: Signals, outs: Douts, input: Input, d: nat): (Registers, Signals) {
    if r.waitdelay > 0 then WaitStep(r, s)
    else if r.operation == 0 then IdleStep(r, s, input, d)
    else if InSecondPass(r, outs) then SecondPassStep(r, s, outs, d)
    else ReplyStep(r, s, outs)
  }

  // What the controller keeps: while a request is in service the port is closed.
  predicate ControlValid(r: Registers, s: Signals) {
    && r.waitdelay >= 0 && s.Valid()
    && 0 <= r.operation <= 4 && (r.operation >= WRITE ==> r.opstate == 1 || r.opstate == 2)
    && (r.operation != 0 ==> !s.portAvailable)
  }

  lemma StaysValid(r: Registers, s: Signals, outs: Douts, input: Input, d: nat)
    requires ControlValid(r, s)
    ensures var (r', s') := ControlStep(r, s, outs, input, d);
            ControlValid(r', s')
  {
    if r.waitdelay <= 0 && r.operation == 0 && input.Submit? {
      AcceptValid(r, s, input.req, d);
    } else if r.waitdelay <= 0 && r.operation != 0 {
      ReplyValid(r, s, outs);
    }
  }

  lemma AcceptValid(r: Registers, s: Signals, q: Request, d: nat)
    requires ControlValid(r, s)
    ensures Classify(q) != Ignored ==> ControlValid(AcceptStep(r, s, q, d).0, AcceptStep(r, s, q, d).1)
  {}

  lemma ReplyValid(r: Registers, s: Signals, outs: Douts)
    requires ControlValid(r, s)
    ensures ControlValid(ReplyStep(r, s, outs).0, ReplyStep(r, s, outs).1)
  {}

  // All processes of one clock edge read the visible values and run in any order; their
  // writes become visible together.
  ghost function MachineStep(m: Machine, input: Input, d: nat): Machine
    requires m.way.Valid(d)
  {
    var (r, s) := ControlStep(m.r, m.s, m.way.Outs(), input, d);
    Machine(r, s, m.way.Step(m.s))
  }

  // Power-on: everything zero, the port available.
  function InitialRegisters(): Registers {
    Registers(0, 0, 0, 0, 0, false, 0, 0)
  }

  function InitialSignals(): Signals {
    Signals(true, false, Outputs(0, 0, 0, 0),
            Port(false, false, 0, 0), Port(false, false, 0, 0), Port(false, false, 0, 0))
  }

  function InitialMemory<Row>(d: nat, zero: Row): State<Row> {
    State(seq(SETS, i => zero), seq(d, i => zero), zero)
  }

  function InitialMachine(d: nat): Machine {
    Machine(InitialRegisters(), InitialSignals(),
            Way(InitialMemory(d, 0), InitialMemory(d, 0), InitialMemory(d, 0)))
  }
}
