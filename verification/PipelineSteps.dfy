// The queues between the stages of the core, and what one activation of each stage does to
// them (core-project/decoder.cc:657-673, dispatch.cc:35-298, execute.cc:201-805 and
// writeback.cc:42-137).
module PipelineSteps {

  datatype Kind = Load | Pop | Ret | Jump | Plain

  // A micro-op, numbered in the order of cracking, and the address of its instruction.
  datatype Queued = Queued(id: nat, address: int, kind: Kind)

  // A signal that was written has its new value from the next clock edge on.
  datatype Signal = Signal(cur: bool, next: bool)

  datatype Pipe = Pipe(
    dd: seq<Queued>, de: seq<Queued>, ew: seq<Queued>,  // decode to dispatch to execute to writeback
    reading: bool, op: Queued,                          // execute waits for the data of op
    clear: Signal, ddReady: Signal, deReady: Signal, ewReady: Signal,
    executed: bool,                                     // execute has run in this clock
    cracked: seq<Queued>, retired: seq<Queued>, dropped: seq<Queued>)

  // What reaches the stages from outside in one clock: micro-ops to crack, the answer of
  // the memory, and the outcome of the comparisons that depend on register values.
  datatype Inputs = Inputs(
    fetched: bool, newUops: seq<Queued>, dReady: bool, tagMatches: bool, expected: bool, taken: bool)

  datatype Process = Decode | Dispatch | Execute | Writeback

  function Min(a: nat, b: nat): nat {
    if a <= b then a else b
  }

  // How many micro-ops at the front belong to the first instruction.
  function RunLength(dd: seq<Queued>): (n: nat)
    ensures n <= |dd|
    ensures forall k :: 0 <= k < n ==> dd[k].address == dd[0].address
    ensures n < |dd| ==> dd[n].address != dd[0].address
    ensures dd != [] ==> n > 0
  {
    if dd == [] then 0
    else if |dd| > 1 && dd[1].address == dd[0].address then 1 + RunLength(dd[1..])
    else 1
  }

  // How many of them one activation of dispatch moves: its loop compares a count that grows
  // with a queue that shrinks (dispatch.cc:65), so at most half the queue, rounded up.
  function FillCount(dd: seq<Queued>): (k: nat)
    ensures k <= |dd|
  {
    Min(RunLength(dd), (|dd| + 1) / 2)
  }

  function DecodeStep(s: Pipe, x: Inputs): Pipe {
    if !x.fetched || s.clear.cur then s
    else s.(dd := s.dd + x.newUops, cracked := s.cracked + x.newUops, ddReady := s.ddReady.(next := true))
  }

  function DispatchStep(s: Pipe): Pipe {
    if s.clear.cur then s.(dd := [], dropped := s.dropped + s.dd, deReady := s.deReady.(next := false))
    else if !s.ddReady.cur || s.dd == [] then s.(deReady := s.deReady.(next := false))
    else if s.de != [] then s.(deReady := s.deReady.(next := true))
    else
      var k := FillCount(s.dd);
      s.(de := s.dd[..k], dd := s.dd[k..], deReady := s.deReady.(next := true))
  }

  // The micro-op execute holds, the head of its queue, moves on.
  function Finish(s: Pipe, jumped: bool): Pipe
    requires s.de != []
  {
    s.(ew := s.ew + [s.op], de := s.de[1..], ewReady := s.ewReady.(next := true),
       reading := false, clear := if jumped then s.clear.(next := true) else s.clear)
  }

  function ExecuteHead(s: Pipe, x: Inputs): Pipe {
    if !s.deReady.cur then s
    else if |s.ew| > 1 then s.(ewReady := s.ewReady.(next := true))
    else if s.de == [] then s
    else
      var op := s.de[0];
      if !x.expected then s.(op := op, de := s.de[1..], dropped := s.dropped + [op])
      else if op.kind.Load? || op.kind.Pop? || op.kind.Ret? then s.(op := op, reading := true)
      else Finish(s.(op := op), op.kind.Jump? && x.taken)
  }

  function ExecuteStep(s: Pipe, x: Inputs): Pipe
    requires s.reading && !s.clear.cur ==> s.de != []
  {
    var t := s.(ewReady := s.ewReady.(next := false), executed := true);
    if t.clear.cur then
      ExecuteHead(t.(clear := t.clear.(next := false), de := [], dropped := t.dropped + t.de), x)
    else if t.reading then
      if !x.dReady || !x.tagMatches then t else Finish(t, t.op.kind.Ret?)
    else ExecuteHead(t, x)
  }

  function WritebackStep(s: Pipe): Pipe {
    if !s.ewReady.cur || s.ew == [] then s
    else s.(retired := s.retired + [s.ew[0]], ew := s.ew[1..])
  }

  // The clock edge.
  function Commit(s: Pipe): Pipe {
    s.(clear := Signal(s.clear.next, s.clear.next), ddReady := Signal(s.ddReady.next, s.ddReady.next),
       deReady := Signal(s.deReady.next, s.deReady.next), ewReady := Signal(s.ewReady.next, s.ewReady.next),
       executed := false)
  }
}
