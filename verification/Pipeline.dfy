// The stages of the core as processes on shared queues: core-project/dispatch.cc:35-298,
// execute.cc:201-805, writeback.cc:42-137 and the queue of decoder.cc:657-673.
module PipelineModel {
  import opened PipelineSteps
  import opened PipelineQueues
  import opened PipelineRuns

  class Pipeline {
    var ddUopQueue: seq<Queued>
    var deUopQueue: seq<Queued>
    var ewUopQueue: seq<Queued>
    var stateRead: bool
    var op: Queued
    var clear: Signal
    var ddReady: Signal
    var deReady: Signal
    var ewReady: Signal
    ghost var executed: bool
    ghost var cracked: seq<Queued>
    ghost var retired: seq<Queued>
    ghost var dropped: seq<Queued>

    ghost function View(): Pipe
      reads this
    {
      Pipe(ddUopQueue, deUopQueue, ewUopQueue, stateRead, op, clear, ddReady, deReady, ewReady,
           executed, cracked, retired, dropped)
    }

    constructor (op: Queued)
      ensures Invariant(View())
    {
      var low := Signal(false, false);
      ddUopQueue, deUopQueue, ewUopQueue := [], [], [];
      stateRead, this.op := false, op;
      clear, ddReady, deReady, ewReady := low, low, low, low;
      executed, cracked, retired, dropped := false, [], [], [];
    }

    // decoder.cc:657-673
    method Decode(fetched: bool, newUops: seq<Queued>, ghost x: Inputs)
      requires x.fetched == fetched && x.newUops == newUops
      modifies this
      ensures View() == DecodeStep(old(View()), x)
    {
      if !fetched || clear.cur {
        return;
      }
      ddUopQueue := ddUopQueue + newUops;
      cracked := cracked + newUops;
      ddReady := ddReady.(next := true);
    }

    // dispatch.cc:35-298; the operand values are not part of this model.
    method Dispatch()
      modifies this
      ensures View() == DispatchStep(old(View()))
    {
      deReady := deReady.(next := false);
      if clear.cur {
        dropped := dropped + ddUopQueue;
        ddUopQueue := [];
        return;
      }
      if !ddReady.cur || ddUopQueue == [] {
        return;
      }
      if |deUopQueue| == 0 {
        Fill();
      }
      deReady := deReady.(next := true);
    }

    // The loop of dispatch.cc:62-294.
    method Fill()
      requires ddUopQueue != [] && deUopQueue == []
      modifies this`ddUopQueue, this`deUopQueue
      ensures deUopQueue == old(ddUopQueue)[..FillCount(old(ddUopQueue))]
      ensures ddUopQueue == old(ddUopQueue)[FillCount(old(ddUopQueue))..]
    {
      ghost var was := ddUopQueue;
      var i := 0;
      var frontAddr := ddUopQueue[0].address;
      while i < |ddUopQueue| && ddUopQueue[0].address == frontAddr
        invariant 0 <= i <= FillCount(was)
        invariant deUopQueue == was[..i] && ddUopQueue == was[i..]
        decreases |ddUopQueue|
      {
        deUopQueue := deUopQueue + [ddUopQueue[0]];
        ddUopQueue := ddUopQueue[1..];
        i := i + 1;
      }
    }

    // writeback.cc:42-137; the register file is not part of this model.
    method Writeback()
      modifies this
      ensures View() == WritebackStep(old(View()))
    {
      if !ewReady.cur || ewUopQueue == [] {
        return;
      }
      retired := retired + [ewUopQueue[0]];
      ewUopQueue := ewUopQueue[1..];
    }

    // The micro-op leaves for write-back; a jump or return asks for a flush.
    method Complete(jumped: bool)
      requires deUopQueue != []
      modifies this
      ensures View() == Finish(old(View()), jumped)
    {
      ewUopQueue := ewUopQueue + [op];
      deUopQueue := deUopQueue[1..];
      ewReady := ewReady.(next := true);
      stateRead := false;
      if jumped {
        clear := clear.(next := true);
      }
    }

    // execute.cc:293-805: the next micro-op. Of the values only what steers the queues is
    // kept: whether the address was the expected one, and whether a jump is taken.
    method ExecuteNext(expected: bool, taken: bool, ghost x: Inputs)
      requires x.expected == expected && x.taken == taken
      requires !stateRead || deUopQueue == []
      modifies this
      ensures View() == ExecuteHead(old(View()), x)
    {
      if !deReady.cur {
        return;
      }
      if |ewUopQueue| > 1 {
        ewReady := ewReady.(next := true);
        return;
      }
      if deUopQueue == [] {
        return;
      }
      op := deUopQueue[0];
      if !expected {
        dropped := dropped + [op];
        deUopQueue := deUopQueue[1..];
        return;
      }
      match op.kind {
        case Load => stateRead := true;
        case Pop => stateRead := true;
        case Ret => stateRead := true;
        case Jump => Complete(taken);
        case Plain => Complete(false);
      }
    }

    // The flush that execute sees is over once its own queue is empty.
    method Flush()
      modifies this
      ensures View() ==
              old(View()).(clear := old(clear).(next := false), de := [], dropped := old(dropped + deUopQueue))
    {
      clear := clear.(next := false);
      dropped := dropped + deUopQueue;
      deUopQueue := [];
    }

    // execute.cc:201-805
    method Execute(dReady: bool, tagMatches: bool, expected: bool, taken: bool, ghost x: Inputs)
      requires x.dReady == dReady && x.tagMatches == tagMatches && x.expected == expected && x.taken == taken
      requires stateRead && !clear.cur ==> deUopQueue != []
      modifies this
      ensures View() == ExecuteStep(old(View()), x)
    {
      executed := true;
      ewReady := ewReady.(next := false);
      if clear.cur {
        Flush();
      } else if stateRead {
        if dReady && tagMatches {
          Complete(op.kind.Ret?);
        }
        return;
      }
      ExecuteNext(expected, taken, x);
    }

    method Run(p: Process, x: Inputs)
      requires Invariant(View())
      modifies this
      ensures View() == Step(old(View()), p, x)
    {
      match p {
        case Decode => Decode(x.fetched, x.newUops, x);
        case Dispatch => Dispatch();
        case Execute => Execute(x.dReady, x.tagMatches, x.expected, x.taken, x);
        case Writeback => Writeback();
      }
    }

    // The simulation kernel runs the stages in an order of its own.
    method RunAll(order: seq<Process>, x: Inputs)
      requires Invariant(View()) && MayRun(View(), order, x)
      modifies this
      ensures View() == After(old(View()), order, x)
    {
      ghost var was := View();
      for k := 0 to |order|
        invariant MayRun(was, order[..k], x) && View() == After(was, order[..k], x)
      {
        OneMoreStage(was, order, k, x);
        Run(order[k], x);
      }
      assert order[..|order|] == order;
    }

    // The signals take their new values.
    method Edge()
      modifies this
      ensures View() == Commit(old(View()))
    {
      clear, ddReady := Signal(clear.next, clear.next), Signal(ddReady.next, ddReady.next);
      deReady, ewReady := Signal(deReady.next, deReady.next), Signal(ewReady.next, ewReady.next);
      executed := false;
    }

    // One clock.
    method Tick(order: seq<Process>, x: Inputs)
      requires Invariant(View()) && MayRun(View(), order, x)
      modifies this
      ensures View() == Clock(old(View()), order, x) && Invariant(View())
    {
      RunAll(order, x);
      Edge();
    }
  }
}
