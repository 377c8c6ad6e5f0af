// What the queues between the stages keep, in whatever order the stages run within a clock.
module PipelineQueues {
  import opened PipelineSteps

  // All micro-ops under way and retired, oldest first.
  ghost function Line(s: Pipe): seq<Queued> {
    s.retired + s.ew + s.de + s.dd
  }

  // The line is a subsequence, in order, of what was cracked.
  ghost predicate InOrder(line: seq<Queued>, cracked: seq<Queued>) {
    && (forall i :: 0 <= i < |line| ==> line[i].id < |cracked| && cracked[line[i].id] == line[i])
    && forall i, j :: 0 <= i < j < |line| ==> line[i].id < line[j].id
  }

  // The micro-ops that dispatch has handed over belong to one instruction.
  ghost predicate OneInstruction(de: seq<Queued>) {
    forall i, j :: 0 <= i < |de| && 0 <= j < |de| ==> de[i].address == de[j].address
  }

  // While execute waits for memory, the micro-op it waits for is the head of its queue,
  // there is room for it in the next queue, and no flush is on its way.
  ghost predicate WaitsForHead(s: Pipe) {
    s.reading ==>
      && s.de != [] && s.de[0] == s.op && !s.op.kind.Jump? && !s.op.kind.Plain?
      && |s.ew| <= 1 && !s.clear.cur && !s.clear.next
  }

  // Nothing is lost or made up.
  ghost predicate Conserves(s: Pipe) {
    multiset(s.cracked) == multiset(Line(s)) + multiset(s.dropped)
  }

  ghost predicate Invariant(s: Pipe) {
    && InOrder(Line(s), s.cracked) && Conserves(s)
    && OneInstruction(s.de) && |s.ew| <= 2 && WaitsForHead(s)
    && (!s.executed ==> s.clear.next == s.clear.cur)
  }

  // New micro-ops are numbered on.
  ghost predicate Numbered(newUops: seq<Queued>, next: nat) {
    forall k :: 0 <= k < |newUops| ==> newUops[k].id == next + k
  }

  ghost function Step(s: Pipe, p: Process, x: Inputs): Pipe
    requires Invariant(s)
  {
    match p
    case Decode => DecodeStep(s, x)
    case Dispatch => DispatchStep(s)
    case Execute => ExecuteStep(s, x)
    case Writeback => WritebackStep(s)
  }

  // ---- what happens to the line ----

  lemma Lengthens(line: seq<Queued>, cracked: seq<Queued>, newUops: seq<Queued>)
    requires InOrder(line, cracked) && Numbered(newUops, |cracked|)
    ensures InOrder(line + newUops, cracked + newUops)
  {}

  lemma Shortens(a: seq<Queued>, b: seq<Queued>, c: seq<Queued>, cracked: seq<Queued>)
    requires InOrder(a + b + c, cracked)
    ensures InOrder(a + c, cracked)
  {
    var line, line' := a + b + c, a + c;
    forall i | 0 <= i < |line'|
      ensures line'[i] == line[if i < |a| then i else i + |b|]
    {}
  }

  lemma DecodeKeeps(s: Pipe, x: Inputs)
    requires Invariant(s) && Numbered(x.newUops, |s.cracked|)
    ensures Invariant(DecodeStep(s, x))
  {
    var t := DecodeStep(s, x);
    if t != s {
      Lengthens(Line(s), s.cracked, x.newUops);
      assert Line(t) == Line(s) + x.newUops;
    }
  }

  // Leaving out a stretch of the line.
  lemma Drops(s: Pipe, t: Pipe, a: seq<Queued>, b: seq<Queued>, c: seq<Queued>)
    requires InOrder(Line(s), s.cracked) && Conserves(s)
    requires t.cracked == s.cracked && t.dropped == s.dropped + b
    requires Line(s) == a + b + c && Line(t) == a + c
    ensures InOrder(Line(t), t.cracked) && Conserves(t)
  {
    Shortens(a, b, c, s.cracked);
  }

  lemma DispatchKeeps(s: Pipe)
    requires Invariant(s)
    ensures Invariant(DispatchStep(s))
  {
    if s.clear.cur {
      DispatchFlushes(s);
    } else if s.ddReady.cur && s.dd != [] && s.de == [] {
      DispatchFills(s);
    }
  }

  lemma DispatchFlushes(s: Pipe)
    requires Invariant(s) && s.clear.cur
    ensures Invariant(DispatchStep(s))
  {
    var t, front := DispatchStep(s), s.retired + s.ew + s.de;
    assert Line(s) == front + s.dd + [];
    assert Line(t) == front + [];
    Drops(s, t, front, s.dd, []);
  }

  lemma DispatchFills(s: Pipe)
    requires Invariant(s) && !s.clear.cur && s.ddReady.cur && s.dd != [] && s.de == []
    ensures Invariant(DispatchStep(s))
  {
    var t, front := DispatchStep(s), s.retired + s.ew;
    assert t.de + t.dd == s.dd;
    assert Line(s) == front + s.dd;
    assert Line(t) == front + (t.de + t.dd);
  }

  lemma WritebackKeeps(s: Pipe)
    requires Invariant(s)
    ensures Invariant(WritebackStep(s))
  {
    var t := WritebackStep(s);
    if t != s {
      assert s.ew == [s.ew[0]] + t.ew;
    }
    assert Line(t) == Line(s);
  }

  // The head of the execute queue is dropped or moves on.
  lemma HeadLeaves(s: Pipe, t: Pipe)
    requires InOrder(Line(s), s.cracked) && Conserves(s) && s.de != []
    requires t.retired == s.retired && t.dd == s.dd && t.cracked == s.cracked && t.de == s.de[1..]
    requires || (t.ew == s.ew && t.dropped == s.dropped + [s.de[0]])
             || (t.ew == s.ew + [s.de[0]] && t.dropped == s.dropped)
    ensures InOrder(Line(t), t.cracked) && Conserves(t)
  {
    assert s.de == [s.de[0]] + t.de;
    var front := s.retired + s.ew;
    assert Line(s) == front + [s.de[0]] + (t.de + t.dd);
    if t.ew == s.ew {
      assert Line(t) == front + (t.de + t.dd);
      Drops(s, t, front, [s.de[0]], t.de + t.dd);
    } else {
      assert Line(t) == Line(s);
    }
  }

  lemma SameQueues(s: Pipe, t: Pipe)
    requires InOrder(Line(s), s.cracked) && Conserves(s)
    requires t.retired == s.retired && t.ew == s.ew && t.de == s.de && t.dd == s.dd
    requires t.cracked == s.cracked && t.dropped == s.dropped
    ensures InOrder(Line(t), t.cracked) && Conserves(t)
  {}

  lemma ExecuteHeadLine(s: Pipe, x: Inputs)
    requires InOrder(Line(s), s.cracked) && Conserves(s)
    ensures InOrder(Line(ExecuteHead(s, x)), ExecuteHead(s, x).cracked) && Conserves(ExecuteHead(s, x))
  {
    var t := ExecuteHead(s, x);
    if t.de != s.de {
      HeadLeaves(s, t);
    } else {
      SameQueues(s, t);
    }
  }

  lemma ExecuteHeadKeeps(s: Pipe, x: Inputs)
    requires Invariant(s) && !s.reading && s.executed
    requires s.de != [] ==> !s.clear.cur && !s.clear.next
    ensures Invariant(ExecuteHead(s, x))
  {
    ExecuteHeadLine(s, x);
    ExecuteHeadShape(s, x);
  }

  lemma ExecuteHeadShape(s: Pipe, x: Inputs)
    requires OneInstruction(s.de) && |s.ew| <= 2 && !s.reading && s.executed
    requires s.de != [] ==> !s.clear.cur && !s.clear.next
    ensures var t := ExecuteHead(s, x);
            OneInstruction(t.de) && |t.ew| <= 2 && WaitsForHead(t) && t.executed
  {}

  lemma ExecuteKeeps(s: Pipe, x: Inputs)
    requires Invariant(s) && !s.executed
    ensures Invariant(ExecuteStep(s, x))
  {
    var t := s.(ewReady := s.ewReady.(next := false), executed := true);
    SameQueues(s, t);
    if s.clear.cur {
      var u := t.(clear := t.clear.(next := false), de := [], dropped := t.dropped + t.de);
      assert Line(t) == (s.retired + s.ew) + s.de + s.dd;
      assert Line(u) == (s.retired + s.ew) + s.dd;
      Drops(t, u, s.retired + s.ew, s.de, s.dd);
      ExecuteHeadKeeps(u, x);
    } else if s.reading {
      if x.dReady && x.tagMatches {
        HeadLeaves(t, ExecuteStep(s, x));
      }
    } else {
      ExecuteHeadKeeps(t, x);
    }
  }
}
