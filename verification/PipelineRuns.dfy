// Whole clocks and runs of the pipeline, for every order of the stages within each clock.
module PipelineRuns {
  import opened PipelineSteps
  import opened PipelineQueues

  ghost predicate NoRepeat(order: seq<Process>) {
    forall i, j :: 0 <= i < j < |order| ==> order[i] != order[j]
  }

  // Stages that may run next in this clock, in the order given.
  ghost predicate MayRun(s: Pipe, order: seq<Process>, x: Inputs) {
    && NoRepeat(order)
    && (Execute in order ==> !s.executed)
    && (Decode in order ==> Numbered(x.newUops, |s.cracked|))
  }

  lemma LastOrEarlier(order: seq<Process>, p: Process)
    requires order != [] && NoRepeat(order)
    ensures var n := |order| - 1;
            (p in order <==> p == order[n] || p in order[..n]) && NoRepeat(order[..n]) && order[n] !in order[..n]
  {
    assert order == order[..|order| - 1] + [order[|order| - 1]];
  }

  lemma OneStep(s: Pipe, p: Process, x: Inputs)
    requires Invariant(s) && (p.Execute? ==> !s.executed) && (p.Decode? ==> Numbered(x.newUops, |s.cracked|))
    ensures Invariant(Step(s, p, x))
  {
    match p
    case Decode => DecodeKeeps(s, x);
    case Dispatch => DispatchKeeps(s);
    case Execute => ExecuteKeeps(s, x);
    case Writeback => WritebackKeeps(s);
  }

  lemma StepFrame(s: Pipe, p: Process, x: Inputs)
    requires Invariant(s)
    ensures p.Execute? || Step(s, p, x).executed == s.executed
    ensures p.Decode? || Step(s, p, x).cracked == s.cracked
  {}

  // The state after some stages have run: the invariant holds at every point of a clock.
  ghost function After(s: Pipe, order: seq<Process>, x: Inputs): (t: Pipe)
    requires Invariant(s) && MayRun(s, order, x)
    ensures Invariant(t)
    ensures Execute in order || t.executed == s.executed
    ensures Decode in order || t.cracked == s.cracked
    decreases |order|
  {
    if order == [] then s
    else
      var n := |order| - 1;
      MayRunEarlier(s, order, x);
      var t := After(s, order[..n], x);
      OneStep(t, order[n], x);
      StepFrame(t, order[n], x);
      Step(t, order[n], x)
  }

  lemma MayRunEarlier(s: Pipe, order: seq<Process>, x: Inputs)
    requires order != [] && MayRun(s, order, x)
    ensures MayRun(s, order[..|order| - 1], x)
    ensures forall p :: p in order <==> p == order[|order| - 1] || p in order[..|order| - 1]
    ensures order[|order| - 1] !in order[..|order| - 1]
  {
    LastOrEarlier(order, Execute);
    LastOrEarlier(order, Decode);
    LastOrEarlier(order, Dispatch);
    LastOrEarlier(order, Writeback);
  }

  lemma MayRunPrefix(s: Pipe, order: seq<Process>, k: nat, x: Inputs)
    requires MayRun(s, order, x) && k <= |order|
    ensures MayRun(s, order[..k], x)
  {}

  lemma OneMoreStage(s: Pipe, order: seq<Process>, k: nat, x: Inputs)
    requires Invariant(s) && MayRun(s, order, x) && k < |order|
    ensures MayRun(s, order[..k], x) && MayRun(s, order[..k + 1], x)
    ensures After(s, order[..k + 1], x) == Step(After(s, order[..k], x), order[k], x)
  {
    MayRunPrefix(s, order, k, x);
    MayRunPrefix(s, order, k + 1, x);
    assert order[..k + 1][..k] == order[..k];
  }

  ghost predicate AllStages(order: seq<Process>) {
    Decode in order && Dispatch in order && Execute in order && Writeback in order
  }

  ghost function Clock(s: Pipe, order: seq<Process>, x: Inputs): (t: Pipe)
    requires Invariant(s) && MayRun(s, order, x)
    ensures Invariant(t)
  {
    EdgeKeeps(After(s, order, x));
    Commit(After(s, order, x))
  }

  lemma EdgeKeeps(s: Pipe)
    requires Invariant(s)
    ensures Invariant(Commit(s))
  {
    SameQueues(s, Commit(s));
  }

  // ---- a flush ----

  // One stage while the flush signal is up.
  lemma FlushStep(s: Pipe, p: Process, x: Inputs)
    requires Invariant(s) && s.clear.cur
    ensures var t := Step(s, p, x);
            && t.clear.cur && t.cracked == s.cracked && t.retired + t.ew == s.retired + s.ew
            && (s.dd == [] || p.Dispatch? ==> t.dd == [])
            && (s.de == [] || p.Execute? ==> t.de == [])
            && (!s.clear.next || p.Execute? ==> !t.clear.next)
  {
    if p.Writeback? && s.ew != [] {
      assert s.ew == [s.ew[0]] + s.ew[1..];
    }
  }

  lemma {:induction false} FlushStages(s: Pipe, order: seq<Process>, x: Inputs)
    requires Invariant(s) && MayRun(s, order, x) && s.clear.cur
    ensures var t := After(s, order, x);
            && t.clear.cur && t.cracked == s.cracked && t.retired + t.ew == s.retired + s.ew
            && (s.dd == [] || Dispatch in order ==> t.dd == [])
            && (s.de == [] || Execute in order ==> t.de == [])
            && (!s.clear.next || Execute in order ==> !t.clear.next)
    decreases |order|
  {
    if order != [] {
      var n := |order| - 1;
      MayRunEarlier(s, order, x);
      FlushStages(s, order[..n], x);
      FlushStep(After(s, order[..n], x), order[n], x);
    }
  }

  // A clock with the flush signal up empties both queues, lets nothing through to
  // execution, and takes the signal down again, whatever the order of the stages.
  lemma FlushEmpties(s: Pipe, order: seq<Process>, x: Inputs)
    requires Invariant(s) && MayRun(s, order, x) && AllStages(order) && s.clear.cur
    ensures var t := Clock(s, order, x);
            t.dd == [] && t.de == [] && !t.clear.cur && t.cracked == s.cracked && t.retired + t.ew == s.retired + s.ew
  {
    FlushStages(s, order, x);
  }

  // The flush signal goes up only when execute completes a return or a taken jump, which is
  // then the last micro-op past execution.
  ghost predicate FlushHasOrigin(s: Pipe, x: Inputs) {
    s.clear.next && !s.clear.cur ==>
      && EndsWith(s.retired + s.ew, s.op)
      && (s.op.kind.Ret? || (s.op.kind.Jump? && x.taken))
  }

  ghost predicate EndsWith(done: seq<Queued>, op: Queued) {
    done != [] && done[|done| - 1] == op
  }

  lemma OriginStep(s: Pipe, p: Process, x: Inputs)
    requires Invariant(s) && FlushHasOrigin(s, x) && (p.Execute? ==> !s.executed)
    ensures FlushHasOrigin(Step(s, p, x), x)
  {
    match p
    case Decode =>
    case Dispatch =>
    case Execute => OriginExecute(s, x);
    case Writeback => OriginWriteback(s, x);
  }

  lemma OriginExecute(s: Pipe, x: Inputs)
    requires WaitsForHead(s) && s.clear.next == s.clear.cur
    ensures FlushHasOrigin(ExecuteStep(s, x), x)
  {
    assert forall op :: EndsWith(s.retired + (s.ew + [op]), op);
  }

  lemma OriginWriteback(s: Pipe, x: Inputs)
    requires FlushHasOrigin(s, x)
    ensures FlushHasOrigin(WritebackStep(s), x)
  {
    if s.ew != [] {
      assert (s.retired + [s.ew[0]]) + s.ew[1..] == s.retired + s.ew;
    }
  }

  lemma {:induction false} OriginStages(s: Pipe, order: seq<Process>, x: Inputs)
    requires Invariant(s) && MayRun(s, order, x) && FlushHasOrigin(s, x)
    ensures FlushHasOrigin(After(s, order, x), x) && After(s, order, x).clear.cur == s.clear.cur
    decreases |order|
  {
    if order != [] {
      var n := |order| - 1;
      MayRunEarlier(s, order, x);
      OriginStages(s, order[..n], x);
      OriginStep(After(s, order[..n], x), order[n], x);
      ClearStays(After(s, order[..n], x), order[n], x);
    }
  }

  lemma ClearStays(s: Pipe, p: Process, x: Inputs)
    requires Invariant(s)
    ensures Step(s, p, x).clear.cur == s.clear.cur
  {}

  lemma LastIsYoungest(s: Pipe)
    requires InOrder(Line(s), s.cracked) && EndsWith(s.retired + s.ew, s.op)
    ensures s.op in s.retired + s.ew
    ensures forall r :: r in s.retired + s.ew ==> r.id <= s.op.id
  {
    var line, done := Line(s), s.retired + s.ew;
    assert forall i :: 0 <= i < |done| ==> line[i] == done[i];
  }

  // A flush that becomes visible after a clock was raised by a return or a taken jump, and
  // no younger micro-op is past execution.
  lemma JumpRaisesFlush(s: Pipe, order: seq<Process>, x: Inputs)
    requires Invariant(s) && MayRun(s, order, x) && AllStages(order)
    requires !s.clear.cur && Clock(s, order, x).clear.cur
    ensures var t := Clock(s, order, x);
            && (t.op.kind.Ret? || (t.op.kind.Jump? && x.taken))
            && t.op in t.retired + t.ew
            && forall r :: r in t.retired + t.ew ==> r.id <= t.op.id
  {
    OriginStages(s, order, x);
    LastIsYoungest(Clock(s, order, x));
  }

  // ---- nothing that was dropped comes back ----

  ghost predicate OnlyOldOrNew(line: seq<Queued>, line': seq<Queued>, count: nat) {
    forall q :: q in line' ==> q in line || q.id >= count
  }

  lemma NewerStill(a: seq<Queued>, b: seq<Queued>, c: seq<Queued>, count: nat, later: nat)
    requires OnlyOldOrNew(a, b, count) && OnlyOldOrNew(b, c, later) && count <= later
    ensures OnlyOldOrNew(a, c, count)
  {}

  lemma StepBringsNew(s: Pipe, p: Process, x: Inputs)
    requires Invariant(s) && (p.Decode? ==> Numbered(x.newUops, |s.cracked|))
    ensures OnlyOldOrNew(Line(s), Line(Step(s, p, x)), |s.cracked|) && |Step(s, p, x).cracked| >= |s.cracked|
  {
    match p {
      case Decode => DecodeBringsNew(s, x);
      case Dispatch => DispatchBringsNew(s);
      case Execute => ExecuteBringsNew(s, x);
      case Writeback => WritebackBringsNew(s);
    }
  }

  lemma DecodeBringsNew(s: Pipe, x: Inputs)
    requires Numbered(x.newUops, |s.cracked|)
    ensures OnlyOldOrNew(Line(s), Line(DecodeStep(s, x)), |s.cracked|)
  {
    assert forall q :: q in x.newUops ==> q.id >= |s.cracked|;
  }

  lemma DispatchBringsNew(s: Pipe)
    requires Invariant(s)
    ensures OnlyOldOrNew(Line(s), Line(DispatchStep(s)), |s.cracked|)
  {}

  lemma ExecuteBringsNew(s: Pipe, x: Inputs)
    requires Invariant(s)
    ensures OnlyOldOrNew(Line(s), Line(ExecuteStep(s, x)), |s.cracked|)
  {}

  lemma WritebackBringsNew(s: Pipe)
    ensures OnlyOldOrNew(Line(s), Line(WritebackStep(s)), |s.cracked|)
  {}

  lemma {:induction false} StagesBringNew(s: Pipe, order: seq<Process>, x: Inputs)
    requires Invariant(s) && MayRun(s, order, x)
    ensures OnlyOldOrNew(Line(s), Line(After(s, order, x)), |s.cracked|) && |After(s, order, x).cracked| >= |s.cracked|
    decreases |order|
  {
    if order != [] {
      var n := |order| - 1;
      MayRunEarlier(s, order, x);
      StagesBringNew(s, order[..n], x);
      StepBringsNew(After(s, order[..n], x), order[n], x);
    }
  }

  lemma ClockBringsNew(s: Pipe, order: seq<Process>, x: Inputs)
    requires Invariant(s) && MayRun(s, order, x)
    ensures OnlyOldOrNew(Line(s), Line(Clock(s, order, x)), |s.cracked|) && |Clock(s, order, x).cracked| >= |s.cracked|
  {
    StagesBringNew(s, order, x);
    assert Line(Commit(After(s, order, x))) == Line(After(s, order, x));
  }

  lemma RetiredAhead(s: Pipe)
    requires InOrder(Line(s), s.cracked)
    ensures InOrder(s.retired, s.cracked)
  {
    var line := Line(s);
    assert forall i :: 0 <= i < |s.retired| ==> line[i] == s.retired[i];
  }

  // ---- runs ----

  // An unending run: in every clock each stage runs once, in any order, with any inputs.
  datatype Run = Run(states: nat -> Pipe, orders: nat -> seq<Process>, inputs: nat -> Inputs) {
    ghost predicate Valid() {
      Invariant(states(0)) && forall n: nat :: ValidAt(n)
    }

    ghost predicate ValidAt(n: nat) {
      && AllStages(orders(n)) && MayRun(states(n), orders(n), inputs(n))
      && (Invariant(states(n)) ==> states(n + 1) == Clock(states(n), orders(n), inputs(n)))
    }

    // The invariant holds at every clock edge, and between the stages of a clock.
    lemma {:induction false} InvariantThroughout(n: nat, k: nat)
      requires Valid() && k <= |orders(n)|
      ensures Invariant(states(n))
      ensures MayRun(states(n), orders(n)[..k], inputs(n)) && Invariant(After(states(n), orders(n)[..k], inputs(n)))
      decreases n
    {
      if n > 0 {
        InvariantThroughout(n - 1, 0);
        assert ValidAt(n - 1);
      }
      assert ValidAt(n);
      MayRunPrefix(states(n), orders(n), k, inputs(n));
    }

    // What has retired by clock n is an in-order subsequence of what was cracked.
    lemma RetiredInOrder(n: nat)
      requires Valid()
      ensures InOrder(states(n).retired, states(n).cracked)
    {
      InvariantThroughout(n, 0);
      RetiredAhead(states(n));
    }

    lemma LineNext(n: nat)
      requires Valid()
      ensures OnlyOldOrNew(Line(states(n)), Line(states(n + 1)), |states(n).cracked|)
      ensures |states(n).cracked| <= |states(n + 1).cracked|
    {
      InvariantThroughout(n, 0);
      assert ValidAt(n);
      ClockBringsNew(states(n), orders(n), inputs(n));
    }

    lemma {:induction false} LineFrom(n: nat, m: nat)
      requires Valid() && n <= m
      ensures OnlyOldOrNew(Line(states(n)), Line(states(m)), |states(n).cracked|)
      ensures |states(n).cracked| <= |states(m).cracked|
      decreases m
    {
      if n < m {
        LineFrom(n, m - 1);
        LineNext(m - 1);
        NewerStill(Line(states(n)), Line(states(m - 1)), Line(states(m)), |states(n).cracked|, |states(m - 1).cracked|);
      }
    }

    // Whatever retires after a flush in clock n was past execution at the flush, or is
    // cracked later.
    lemma RetiresAfterFlush(n: nat, m: nat, q: Queued)
      requires Valid() && states(n).clear.cur && n < m && q in states(m).retired
      ensures q in states(n).retired + states(n).ew || q.id >= |states(n).cracked|
    {
      InvariantThroughout(n, 0);
      assert ValidAt(n);
      FlushEmpties(states(n), orders(n), inputs(n));
      LineFrom(n + 1, m);
      assert q in Line(states(m));
      var t := states(n + 1);
      assert Line(t) == t.retired + t.ew;
    }

    // When clear goes up with the edge after clock n, the last micro-op that execute
    // completed is a return or a taken jump, and no micro-op cracked behind it by then ever
    // retires. (Retired micro-ops stay in the record.)
    lemma FlushedNeverRetires(n: nat, m: nat, q: Queued)
      requires Valid() && !states(n).clear.cur && states(n + 1).clear.cur && n < m && q in states(m).retired
      ensures var jump := states(n + 1).op;
              && (jump.kind.Ret? || (jump.kind.Jump? && inputs(n).taken))
              && jump in states(n + 1).retired + states(n + 1).ew
              && !(jump.id < q.id < |states(n + 1).cracked|)
    {
      InvariantThroughout(n, 0);
      assert ValidAt(n);
      JumpRaisesFlush(states(n), orders(n), inputs(n));
      if m > n + 1 {
        RetiresAfterFlush(n + 1, m, q);
      }
    }
  }

  // ---- how much of an instruction dispatch hands over at once ----

  // All micro-ops of the first instruction move together if and only if they are at most
  // half of the queue, rounded up; otherwise the queue goes on with the same instruction.
  lemma MovedTogether(s: Pipe)
    requires !s.clear.cur && s.ddReady.cur && s.dd != [] && s.de == []
    ensures var t := DispatchStep(s);
            && t.de + t.dd == s.dd && t.de != []
            && (t.de == s.dd[..RunLength(s.dd)] <==> 2 * RunLength(s.dd) <= |s.dd| + 1)
            && (2 * RunLength(s.dd) > |s.dd| + 1 ==> t.dd != [] && t.dd[0].address == t.de[0].address)
  {
    var k := FillCount(s.dd);
    assert |s.dd[..k]| == k && |s.dd[..RunLength(s.dd)]| == RunLength(s.dd);
  }

  // The two micro-ops of an address without displacement that is only taken (lea), alone in
  // the queue, are handed over one by one: the second when execute has emptied its queue.
  lemma MovedInTwoSteps(s: Pipe, u: Queued, v: Queued)
    requires !s.clear.cur && s.ddReady.cur && s.dd == [u, v] && s.de == []
    requires u.kind.Plain? && v.kind.Plain? && u.address == v.address
    ensures var t := DispatchStep(s);
            && t.de == [u] && t.dd == [v]
            && DispatchStep(t).de == [u] && DispatchStep(t).dd == [v]
            && DispatchStep(t.(de := [])).de == [v] && DispatchStep(t.(de := [])).dd == []
  {
    assert RunLength([v]) == 1 && [u, v][1..] == [v];
    assert FillCount([u, v]) == 1 && FillCount([v]) == 1;
  }
}
