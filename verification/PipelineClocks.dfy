// What one clock of the pipeline does to each queue, whatever the order of the stages: what
// gets past execution and when, what retires, and exactly when a flush is raised
// (core-project/execute.cc:201-805, writeback.cc:42-137, dispatch.cc:35-298).
module PipelineClocks {
  import opened PipelineSteps
  import opened PipelineQueues
  import opened StageFrames
  import opened PipelineRuns

  // A micro-op that has to be executed to redirect the program: a return, or a jump whose
  // condition holds.
  predicate Redirects(q: Queued, x: Inputs) {
    q.kind.Ret? || (q.kind.Jump? && x.taken)
  }

  predicate NeedsMemory(q: Queued) {
    q.kind.Load? || q.kind.Pop? || q.kind.Ret?
  }

  // ---- the stages other than execute leave execution alone ----

  lemma {:induction false} WithoutExecute(s: Pipe, order: seq<Process>, x: Inputs)
    requires Invariant(s) && MayRun(s, order, x) && Execute !in order
    ensures LeftAlone(s, After(s, order, x))
    decreases |order|
  {
    if order != [] {
      var n := |order| - 1;
      MayRunEarlier(s, order, x);
      WithoutExecute(s, order[..n], x);
      OtherStage(After(s, order[..n], x), order[n], x);
      StillAlone(s, After(s, order[..n], x), After(s, order, x));
    }
  }

  // Around the one activation of execute in a clock.
  lemma {:induction false} AroundExecute(s: Pipe, order: seq<Process>, x: Inputs) returns (before: Pipe)
    requires Invariant(s) && MayRun(s, order, x) && Execute in order
    ensures Invariant(before) && LeftAlone(s, before)
    ensures !before.executed && LeftAlone(Step(before, Execute, x), After(s, order, x))
    decreases |order|
  {
    var n := |order| - 1;
    MayRunEarlier(s, order, x);
    var t := After(s, order[..n], x);
    if order[n].Execute? {
      WithoutExecute(s, order[..n], x);
      before := t;
    } else {
      before := AroundExecute(s, order[..n], x);
      OtherStage(t, order[n], x);
      StillAlone(Step(before, Execute, x), t, After(s, order, x));
    }
  }

  // ---- what one activation of execute does ----

  // At most one micro-op gets past execution: the head of the queue.
  ghost predicate Executes(s: Pipe, t: Pipe, q: Queued) {
    Done(t) == Done(s) + [q]
  }

  // Until its answer is there, a micro-op that needs memory does not get past execution; any
  // other one does when its address is the expected one.
  ghost predicate MayExecute(s: Pipe, q: Queued, x: Inputs) {
    && s.de != [] && q == s.de[0]
    && if NeedsMemory(q) then s.reading && x.dReady && x.tagMatches
       else !s.reading && s.deReady.cur && |s.ew| <= 1 && x.expected
  }

  lemma ExecuteDoes(s: Pipe, x: Inputs)
    requires Invariant(s) && !s.executed && !s.clear.cur
    ensures var t := ExecuteStep(s, x);
            && (s.de == [] || !MayExecute(s, s.de[0], x) ==> Done(t) == Done(s) && !t.clear.next)
            && (s.de != [] && MayExecute(s, s.de[0], x) ==>
                  && Executes(s, t, s.de[0]) && t.op == s.de[0] && t.ewReady.next
                  && (t.clear.next <==> Redirects(t.op, x)))
  {
    if s.de != [] && MayExecute(s, s.de[0], x) {
      assert s.retired + (s.ew + [s.de[0]]) == (s.retired + s.ew) + [s.de[0]];
    }
  }

  // What is not executed stays, is waited for, or is dropped.
  lemma ExecuteKeepsHead(s: Pipe, x: Inputs)
    requires Invariant(s) && !s.executed && !s.clear.cur && s.de != [] && !MayExecute(s, s.de[0], x)
    ensures var t, q := ExecuteStep(s, x), s.de[0];
            if s.reading || !s.deReady.cur || |s.ew| > 1 then t.de == s.de && t.reading == s.reading
            else if x.expected then t.de == s.de && t.reading && t.op == q
            else t.de == s.de[1..] && !t.reading && t.dropped == s.dropped + [q]
  {}

  // ---- whole clocks ----

  lemma HeadIsNew(s: Pipe)
    requires InOrder(Line(s), s.cracked) && s.de != []
    ensures s.de[0] !in Done(s)
  {
    var line, done := Line(s), Done(s);
    assert line[|done|] == s.de[0];
    forall i | 0 <= i < |done|
      ensures done[i] != s.de[0]
    {
      assert line[i] == done[i] && line[i].id < line[|done|].id;
    }
  }

  ghost predicate NewlyDone(s: Pipe, t: Pipe, q: Queued) {
    q in Done(t) && q !in Done(s)
  }

  // A micro-op that gets past execution in a clock is the only one, and comes last. One that
  // needs memory was waited for, and its answer is there; any other one was not held up by
  // such a wait, was handed over, and has the expected address.
  lemma PastExecution(s: Pipe, order: seq<Process>, x: Inputs, q: Queued)
    requires Invariant(s) && MayRun(s, order, x) && AllStages(order) && !s.clear.cur
    requires NewlyDone(s, Clock(s, order, x), q)
    ensures var t := Clock(s, order, x);
            && Executes(s, t, q) && t.op == q && t.ewReady.cur && (t.clear.cur <==> Redirects(q, x))
            && (if NeedsMemory(q) then s.reading && s.op == q && x.dReady && x.tagMatches
                else !s.reading && s.deReady.cur && x.expected)
  {
    var before := AroundExecute(s, order, x);
    GotPast(s, before, After(s, order, x), x, q);
  }

  lemma GotPast(s: Pipe, before: Pipe, t: Pipe, x: Inputs, q: Queued)
    requires Invariant(before) && !before.executed && !s.clear.cur
    requires LeftAlone(s, before) && LeftAlone(ExecuteStep(before, x), t) && NewlyDone(s, t, q)
    ensures Executes(s, t, q) && t.op == q && t.ewReady.next && (t.clear.next <==> Redirects(q, x))
    ensures if NeedsMemory(q) then s.reading && s.op == q && x.dReady && x.tagMatches
            else !s.reading && s.deReady.cur && x.expected
  {
    ExecuteDoes(before, x);
  }

  // A flush comes up with the edge after a clock if and only if a return or a taken jump
  // got past execution in that clock.
  lemma FlushExactly(s: Pipe, order: seq<Process>, x: Inputs)
    requires Invariant(s) && MayRun(s, order, x) && AllStages(order) && !s.clear.cur
    ensures var t := Clock(s, order, x);
            t.clear.cur <==> exists q :: NewlyDone(s, t, q) && (q.kind.Ret? || (q.kind.Jump? && x.taken))
  {
    var t := Clock(s, order, x);
    if t.clear.cur {
      var before := AroundExecute(s, order, x);
      ExecuteDoes(before, x);
      HeadIsNew(before);
      assert NewlyDone(s, t, t.op);
    } else if q :| NewlyDone(s, t, q) && Redirects(q, x) {
      PastExecution(s, order, x, q);
    }
  }

  // The head of the execute queue in a clock without a flush: what becomes of it.
  lemma HeadExecutes(s: Pipe, order: seq<Process>, x: Inputs)
    requires Invariant(s) && MayRun(s, order, x) && AllStages(order) && !s.clear.cur && s.de != []
    requires s.reading || (s.deReady.cur && |s.ew| <= 1)
    ensures var t, q := Clock(s, order, x), s.de[0];
            if s.reading then
              if x.dReady && x.tagMatches then Executes(s, t, q) else Done(t) == Done(s) && t.reading && t.de == s.de
            else if !x.expected then Done(t) == Done(s) && q in t.dropped && !t.reading
            else if NeedsMemory(q) then Done(t) == Done(s) && t.reading && t.op == q && t.de == s.de
            else Executes(s, t, q)
  {
    var before := AroundExecute(s, order, x);
    ExecuteDoes(before, x);
    if !MayExecute(before, before.de[0], x) {
      ExecuteKeepsHead(before, x);
    }
  }

  // Write-back is told when a micro-op got past execution, and when two are already waiting
  // for it.
  lemma WritebackIsTold(s: Pipe, order: seq<Process>, x: Inputs)
    requires Invariant(s) && MayRun(s, order, x) && AllStages(order) && !s.clear.cur
    ensures var t, full := Clock(s, order, x), |s.ew| > 1 && s.deReady.cur && !s.reading;
            && (t.ewReady.cur ==> full || Done(t) != Done(s))
            && (full && !s.ewReady.cur ==> t.ewReady.cur)
  {
    var before := AroundExecute(s, order, x);
    ToldBy(s, before, After(s, order, x), x);
  }

  lemma ToldBy(s: Pipe, before: Pipe, t: Pipe, x: Inputs)
    requires Invariant(before) && !before.executed && !s.clear.cur
    requires LeftAlone(s, before) && LeftAlone(ExecuteStep(before, x), t)
    ensures t.ewReady.next ==> (|s.ew| > 1 && s.deReady.cur && !s.reading) || Done(t) != Done(s)
    ensures |s.ew| > 1 && s.deReady.cur && !s.reading && !s.ewReady.cur ==> t.ewReady.next
  {
    ExecuteTells(before, x);
    ExecuteDoes(before, x);
  }

  lemma ExecuteTells(s: Pipe, x: Inputs)
    requires Invariant(s) && !s.executed && !s.clear.cur
    ensures ExecuteStep(s, x).ewReady.next <==>
            (s.de != [] && MayExecute(s, s.de[0], x)) || (|s.ew| > 1 && s.deReady.cur && !s.reading)
  {}

  // In no run does a micro-op that was cracked behind a return or a taken jump, by the time
  // this got past execution, ever retire.
  lemma WrongPathNeverRetires(run: Run, n: nat, m: nat, jump: Queued, q: Queued)
    requires run.Valid() && !run.states(n).clear.cur
    requires NewlyDone(run.states(n), run.states(n + 1), jump)
    requires jump.kind.Ret? || (jump.kind.Jump? && run.inputs(n).taken)
    requires n < m && q in run.states(m).retired
    ensures run.states(n + 1).clear.cur && !(jump.id < q.id < |run.states(n + 1).cracked|)
  {
    run.InvariantThroughout(n, 0);
    assert run.ValidAt(n);
    PastExecution(run.states(n), run.orders(n), run.inputs(n), jump);
    run.FlushedNeverRetires(n, m, q);
  }

  // ---- write-back ----

  lemma {:induction false} RetireStages(s: Pipe, order: seq<Process>, x: Inputs)
    requires Invariant(s) && MayRun(s, order, x)
    ensures Retires(s, After(s, order, x), Writeback in order)
    decreases |order|
  {
    if order != [] {
      var n := |order| - 1;
      MayRunEarlier(s, order, x);
      RetireStages(s, order[..n], x);
      RetireStage(s, After(s, order[..n], x), order[n], Writeback in order[..n], x);
    }
  }

  // When write-back was told of them, the oldest executed micro-op retires in this clock, in
  // every order of the stages; untold, nothing retires.
  lemma RetiresOldest(s: Pipe, order: seq<Process>, x: Inputs)
    requires Invariant(s) && MayRun(s, order, x) && AllStages(order)
    ensures var t := Clock(s, order, x);
            && (s.ewReady.cur && s.ew != [] ==> t.retired == s.retired + [s.ew[0]])
            && (!s.ewReady.cur ==> t.retired == s.retired)
  {
    RetireStages(s, order, x);
  }

  // ---- the front ----

  lemma {:induction false} SupplyStages(s: Pipe, order: seq<Process>, x: Inputs)
    requires Invariant(s) && MayRun(s, order, x)
    ensures Supplies(s, After(s, order, x), Decode in order, Dispatch in order, x)
    decreases |order|
  {
    if order != [] {
      var n := |order| - 1;
      MayRunEarlier(s, order, x);
      SupplyStages(s, order[..n], x);
      var p, decoded, dispatched := order[n], Decode in order[..n], Dispatch in order[..n];
      assert Decode in order <==> decoded || p.Decode?;
      assert Dispatch in order <==> dispatched || p.Dispatch?;
      SupplyStage(s, After(s, order[..n], x), p, decoded, dispatched, x);
    }
  }

  // What was fetched is cracked unless a flush is up; execute is told of work exactly when
  // dispatch was told of some and finds some.
  lemma FrontSupplies(s: Pipe, order: seq<Process>, x: Inputs)
    requires Invariant(s) && MayRun(s, order, x) && AllStages(order)
    ensures var t, cracks := Clock(s, order, x), x.fetched && !s.clear.cur;
            && t.cracked == s.cracked + (if cracks then x.newUops else [])
            && (t.ddReady.cur <==> s.ddReady.next || cracks)
            && (t.deReady.cur ==> !s.clear.cur && s.ddReady.cur && (s.dd != [] || x.fetched))
            && (!s.clear.cur && s.ddReady.cur && s.dd != [] ==> t.deReady.cur)
  {
    SupplyStages(s, order, x);
  }
}
