// What one stage of the pipeline leaves alone, retires and supplies, told from an earlier
// state of the same clock.
module StageFrames {
  import opened PipelineSteps
  import opened PipelineQueues

  // The micro-ops past execution, oldest first.
  ghost function Done(s: Pipe): seq<Queued> {
    s.retired + s.ew
  }

  // Execution is not touched.
  ghost predicate LeftAlone(s: Pipe, t: Pipe) {
    && t.clear == s.clear && t.reading == s.reading && t.op == s.op && t.executed == s.executed
    && t.ewReady == s.ewReady && t.deReady.cur == s.deReady.cur
    && Done(t) == Done(s) && |t.ew| <= |s.ew| && (!s.ewReady.cur ==> t.ew == s.ew)
    && (!s.clear.cur ==> t.dropped == s.dropped && (s.de != [] ==> t.de == s.de))
  }

  lemma OtherStage(s: Pipe, p: Process, x: Inputs)
    requires Invariant(s) && !p.Execute?
    ensures LeftAlone(s, Step(s, p, x))
  {
    if p.Writeback? && s.ew != [] {
      assert (s.retired + [s.ew[0]]) + s.ew[1..] == s.retired + s.ew;
    }
  }

  lemma StillAlone(s: Pipe, t: Pipe, u: Pipe)
    requires LeftAlone(s, t) && LeftAlone(t, u)
    ensures LeftAlone(s, u)
  {}

  // What retired since s, and whether write-back has run.
  ghost predicate Retires(s: Pipe, t: Pipe, written: bool) {
    && t.ewReady.cur == s.ewReady.cur
    && (!s.ewReady.cur || !written ==> t.retired == s.retired)
    && (s.ewReady.cur && written && s.ew != [] ==> t.retired == s.retired + [s.ew[0]])
    && (!written ==> s.ew <= t.ew)
  }

  lemma RetireStage(s: Pipe, t: Pipe, p: Process, written: bool, x: Inputs)
    requires Invariant(t) && Retires(s, t, written) && !(p.Writeback? && written)
    ensures Retires(s, Step(t, p, x), written || p.Writeback?)
  {
    match p
    case Decode =>
    case Dispatch =>
    case Execute => RetireExecute(s, t, written, x);
    case Writeback => RetireWriteback(s, t);
  }

  lemma RetireExecute(s: Pipe, t: Pipe, written: bool, x: Inputs)
    requires WaitsForHead(t) && Retires(s, t, written)
    ensures Retires(s, ExecuteStep(t, x), written)
  {}

  lemma RetireWriteback(s: Pipe, t: Pipe)
    requires Retires(s, t, false)
    ensures Retires(s, WritebackStep(t), true)
  {}

  // What reached the front since s, and which of decode and dispatch have run.
  ghost predicate Supplies(s: Pipe, t: Pipe, decoded: bool, dispatched: bool, x: Inputs) {
    && t.clear.cur == s.clear.cur && t.ddReady.cur == s.ddReady.cur
    && t.cracked == s.cracked + (if decoded && x.fetched && !s.clear.cur then x.newUops else [])
    && t.ddReady.next == (s.ddReady.next || (decoded && x.fetched && !s.clear.cur))
    && (!dispatched ==> s.dd <= t.dd && (!x.fetched ==> t.dd == s.dd))
    && (dispatched && t.deReady.next ==> !s.clear.cur && s.ddReady.cur && (s.dd != [] || x.fetched))
    && (dispatched && !s.clear.cur && s.ddReady.cur && s.dd != [] ==> t.deReady.next)
  }

  lemma SupplyStage(s: Pipe, t: Pipe, p: Process, decoded: bool, dispatched: bool, x: Inputs)
    requires Invariant(t) && Supplies(s, t, decoded, dispatched, x)
    requires !(p.Decode? && decoded) && !(p.Dispatch? && dispatched)
    ensures Supplies(s, Step(t, p, x), decoded || p.Decode?, dispatched || p.Dispatch?, x)
  {
    match p
    case Decode => SupplyDecode(s, t, dispatched, x);
    case Dispatch => SupplyDispatch(s, t, decoded, x);
    case Execute => SupplyExecute(s, t, decoded, dispatched, x);
    case Writeback =>
  }

  lemma SupplyDecode(s: Pipe, t: Pipe, dispatched: bool, x: Inputs)
    requires Supplies(s, t, false, dispatched, x)
    ensures Supplies(s, DecodeStep(t, x), true, dispatched, x)
  {}

  lemma SupplyDispatch(s: Pipe, t: Pipe, decoded: bool, x: Inputs)
    requires Supplies(s, t, decoded, false, x)
    ensures Supplies(s, DispatchStep(t), decoded, true, x)
  {}

  lemma SupplyExecute(s: Pipe, t: Pipe, decoded: bool, dispatched: bool, x: Inputs)
    requires WaitsForHead(t) && Supplies(s, t, decoded, dispatched, x)
    ensures Supplies(s, ExecuteStep(t, x), decoded, dispatched, x)
  {
    ExecuteLeavesFront(t, x);
  }

  lemma ExecuteLeavesFront(t: Pipe, x: Inputs)
    requires WaitsForHead(t)
    ensures var u := ExecuteStep(t, x);
            && u.dd == t.dd && u.cracked == t.cracked && u.ddReady == t.ddReady && u.deReady == t.deReady
            && u.clear.cur == t.clear.cur
  {}
}
