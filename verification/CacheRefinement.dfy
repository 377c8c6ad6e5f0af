// The clocked controller refines the atomic store, for every memory delay and every run.
module CacheRefinement {
  import opened CacheSpec
  import opened SramModel
  import opened CacheMachine

  // The newest e entries of the delay line are v, and the output is its oldest entry.
  ghost predicate Delayed<Row>(m: State<Row>, e: nat, v: Row) {
    && |m.line| >= 1 && e <= |m.line|
    && m.dout == m.line[0]
    && forall k :: |m.line| - e <= k < |m.line| ==> m.line[k] == v
  }

  // What the three memories hold, row by row.
  ghost function StoreOf(data: seq<Block>, state: seq<int>, tag: seq<Address>): Store
    requires |data| == |state| == |tag| == SETS
  {
    seq(SETS, i requires 0 <= i < SETS => Line(tag[i], state[i], data[i]))
  }

  ghost predicate Sized(m: Machine, d: nat) {
    && d >= 1 && m.way.Valid(d) && m.s.Valid()
    && m.way.data.dout == m.way.data.line[0]
    && m.way.state.dout == m.way.state.line[0]
    && m.way.tag.dout == m.way.tag.line[0]
  }

  // The store once the writes that the visible signals ask for have been done.
  ghost function Applied(m: Machine, d: nat): Store
    requires Sized(m, d)
  {
    StoreOf(m.way.data.Written(m.s.data), m.way.state.Written(m.s.state), m.way.tag.Written(m.s.tag))
  }

  ghost predicate AtRest(m: Machine, d: nat, store: Store) {
    && Sized(m, d) && m.s.MemoriesIdle()
    && m.r.operation == 0 && m.r.waitdelay == 0
    && m.s.portAvailable
    && m.r.deassert == m.s.outReady
    && Applied(m, d) == store
  }

  // What a reply shows (warmup-project/cache.h:85-89). The address shown for an insert is
  // left open: it is a tag read out by some earlier request.
  ghost predicate Shows(s: Signals, store: Store, q: Request) {
    && s.outReady && s.out.token == q.addr
    && s.out.state == ReplyState(store, q)
    && (Classify(q) != Insert ==> s.out.addr == store[IndexOf(q.addr)].tag)
    && (Classify(q) == Read ==> s.out.data == store[IndexOf(q.addr)].data)
  }

  ghost predicate InService(m: Machine, d: nat, q: Request) {
    && Sized(m, d)
    && !m.s.portAvailable && !m.s.outReady && !m.r.deassert
    && 0 <= m.r.waitdelay <= d
    && m.r.servaddr == q.addr
  }

  // Insert or read: all three memories enabled at the row of the request.
  ghost predicate OnePass(m: Machine, d: nat, store: Store, q: Request, remaining: nat) {
    var i, e := IndexOf(q.addr), d - m.r.waitdelay;
    && InService(m, d, q)
    && remaining == m.r.waitdelay + 1
    && m.r.operation == (if Classify(q).Insert? then INSERT else READ)
    && m.s.data.ena && m.s.state.ena && m.s.tag.ena
    && m.s.data.addr == m.s.state.addr == m.s.tag.addr == i
    && m.s.data.we == m.s.state.we == m.s.tag.we == Classify(q).Insert?
    && Applied(m, d) == store
    && (Classify(q).Insert? ==> store[i] == Line(TagOf(q.addr), q.newState, q.data))
    && Delayed(m.way.data, e, store[i].data) && Delayed(m.way.state, e, store[i].state)
    && Delayed(m.way.tag, e, store[i].tag)
  }

  // Write or update, first pass: only the tag memory is read; the atomic store is already
  // past the request.
  ghost predicate FirstPass(m: Machine, d: nat, store: Store, q: Request, remaining: nat) {
    var i, e := IndexOf(q.addr), d - m.r.waitdelay;
    && InService(m, d, q)
    && m.r.opstate == 1
    && m.r.operation == (if Classify(q).Write? then WRITE else UPDATE)
    && m.s.tag.ena && m.s.tag.addr == i
    && !m.s.data.ena && !m.s.state.ena && !m.s.data.we && !m.s.state.we && !m.s.tag.we
    && store == Serve(Applied(m, d), q)
    && m.r.newstate == q.newState && (Classify(q).Write? ==> m.r.newdata == q.data)
    && Delayed(m.way.tag, e, store[i].tag)
    && remaining == m.r.waitdelay + 1 + (if Hit(store, q) then d + 1 else 0)
  }

  // Write or update, second pass: the state memory, and the data memory for a write, are
  // enabled for writing at the row of the request.
  ghost predicate SecondPass(m: Machine, d: nat, store: Store, q: Request, remaining: nat) {
    var i, e := IndexOf(q.addr), d - m.r.waitdelay;
    && InService(m, d, q)
    && m.r.opstate == 2
    && m.r.operation == (if Classify(q).Write? then WRITE else UPDATE)
    && !m.s.tag.ena && !m.s.tag.we && m.r.temptag == store[i].tag
    && m.s.state.ena && m.s.state.we && m.s.state.addr == i
    && m.s.data.ena == m.s.data.we == Classify(q).Write? && (m.s.data.ena ==> m.s.data.addr == i)
    && Applied(m, d) == store && Hit(store, q)
    && Delayed(m.way.state, e, store[i].state)
    && remaining == m.r.waitdelay + 1
  }

  // How the clocked machine stands for an atomic one.
  ghost predicate Represents(m: Machine, a: Atomic, d: nat) {
    match a.phase
    case Idle => AtRest(m, d, a.store) && !m.s.outReady
    case Answered(q) => AtRest(m, d, a.store) && Shows(m.s, a.store, q)
    case Working(q, remaining) =>
      match Classify(q)
      case Insert => OnePass(m, d, a.store, q, remaining)
      case Read => OnePass(m, d, a.store, q, remaining)
      case Write => FirstPass(m, d, a.store, q, remaining) || SecondPass(m, d, a.store, q, remaining)
      case Update => FirstPass(m, d, a.store, q, remaining) || SecondPass(m, d, a.store, q, remaining)
      case Ignored => false
  }

  function AtomicStart(): Atomic {
    Atomic(seq(SETS, i => Line(0, 0, 0)), Idle)
  }

  lemma InitiallyRepresents(d: nat)
    requires d >= 1
    ensures Represents(InitialMachine(d), AtomicStart(), d)
  {}

  // An enabled memory delays one more copy of the row it is pointed at.
  lemma DelayedStep<Row>(m: State<Row>, p: Port<Row>, e: nat, v: Row)
    requires Delayed(m, e, v) && p.ena && p.addr < |m.rows| && m.Written(p)[p.addr] == v
    ensures Delayed(m.Step(p), if e < |m.line| then e + 1 else e, v)
  {}

  // Writing the same thing again, or going idle afterwards, changes nothing more.
  lemma WrittenOnce<Row>(m: State<Row>, p: Port<Row>, p': Port<Row>)
    requires |m.line| >= 1
    requires p' == p || !p'.ena || !p'.we
    ensures m.Step(p).Written(p') == m.Written(p)
  {}

  // The machine after an edge at which the controller produced r' and s'.
  ghost function After(m: Machine, r': Registers, s': Signals): Machine
    requires |m.way.data.line| >= 1 && |m.way.state.line| >= 1 && |m.way.tag.line| >= 1
  {
    Machine(r', s', m.way.Step(m.s))
  }

  // No new write: every port is as before, or does not write.
  ghost predicate NoNewWrite(s: Signals, s': Signals) {
    && (s'.data == s.data || !s'.data.ena || !s'.data.we)
    && (s'.state == s.state || !s'.state.ena || !s'.state.we)
    && (s'.tag == s.tag || !s'.tag.ena || !s'.tag.we)
  }

  // The store stays what it was to become.
  lemma AppliedKept(m: Machine, r': Registers, s': Signals, d: nat)
    requires Sized(m, d) && s'.Valid() && NoNewWrite(m.s, s')
    ensures Sized(After(m, r', s'), d)
    ensures Applied(After(m, r', s'), d) == Applied(m, d)
  {
    WrittenOnce(m.way.data, m.s.data, s'.data);
    WrittenOnce(m.way.state, m.s.state, s'.state);
    WrittenOnce(m.way.tag, m.s.tag, s'.tag);
  }
  // ---- counting down ----

  lemma OnePassWaits(m: Machine, d: nat, store: Store, q: Request, remaining: nat)
    requires OnePass(m, d, store, q, remaining) && m.r.waitdelay > 0
    ensures var (r', s') := WaitStep(m.r, m.s);
            OnePass(After(m, r', s'), d, store, q, remaining - 1)
  {
    var (r', s') := WaitStep(m.r, m.s);
    var i, e := IndexOf(q.addr), d - m.r.waitdelay;
    AppliedKept(m, r', s', d);
    DelayedStep(m.way.data, m.s.data, e, store[i].data);
    DelayedStep(m.way.state, m.s.state, e, store[i].state);
    DelayedStep(m.way.tag, m.s.tag, e, store[i].tag);
  }

  lemma FirstPassWaits(m: Machine, d: nat, store: Store, q: Request, remaining: nat)
    requires Classify(q).Write? || Classify(q).Update?
    requires FirstPass(m, d, store, q, remaining) && m.r.waitdelay > 0
    ensures var (r', s') := WaitStep(m.r, m.s);
            FirstPass(After(m, r', s'), d, store, q, remaining - 1)
  {
    var (r', s') := WaitStep(m.r, m.s);
    AppliedKept(m, r', s', d);
    TagsServed(Applied(m, d), q);
    DelayedStep(m.way.tag, m.s.tag, d - m.r.waitdelay, store[IndexOf(q.addr)].tag);
  }

  // A write or update leaves every tag alone.
  lemma TagsServed(store: Store, q: Request)
    requires Classify(q).Write? || Classify(q).Update?
    ensures forall i :: 0 <= i < SETS ==> Serve(store, q)[i].tag == store[i].tag
    ensures Hit(Serve(store, q), q) == Hit(store, q)
  {}

  lemma SecondPassWaits(m: Machine, d: nat, store: Store, q: Request, remaining: nat)
    requires SecondPass(m, d, store, q, remaining) && m.r.waitdelay > 0
    ensures var (r', s') := WaitStep(m.r, m.s);
            SecondPass(After(m, r', s'), d, store, q, remaining - 1)
  {
    var (r', s') := WaitStep(m.r, m.s);
    AppliedKept(m, r', s', d);
    DelayedStep(m.way.state, m.s.state, d - m.r.waitdelay, store[IndexOf(q.addr)].state);
  }

  // ---- replies ----

  lemma OnePassReplies(m: Machine, d: nat, store: Store, q: Request, remaining: nat)
    requires Classify(q).Insert? || Classify(q).Read?
    requires OnePass(m, d, store, q, remaining) && m.r.waitdelay == 0
    ensures var (r', s') := ReplyStep(m.r, m.s, m.way.Outs());
            AtRest(After(m, r', s'), d, store) && Shows(s', store, q)
  {
    var (r', s') := ReplyStep(m.r, m.s, m.way.Outs());
    AppliedKept(m, r', s', d);
  }

  lemma MissReplies(m: Machine, d: nat, store: Store, q: Request, remaining: nat)
    requires Classify(q).Write? || Classify(q).Update?
    requires FirstPass(m, d, store, q, remaining) && m.r.waitdelay == 0 && !TagMatches(m.r, m.way.Outs())
    ensures remaining == 1
    ensures var (r', s') := ReplyStep(m.r, m.s, m.way.Outs());
            AtRest(After(m, r', s'), d, store) && Shows(s', store, q)
  {
    var (r', s') := ReplyStep(m.r, m.s, m.way.Outs());
    TagsServed(Applied(m, d), q);
    AppliedKept(m, r', s', d);
  }

  lemma SecondPassReplies(m: Machine, d: nat, store: Store, q: Request, remaining: nat)
    requires Classify(q).Write? || Classify(q).Update?
    requires SecondPass(m, d, store, q, remaining) && m.r.waitdelay == 0
    ensures var (r', s') := ReplyStep(m.r, m.s, m.way.Outs());
            AtRest(After(m, r', s'), d, store) && Shows(s', store, q)
  {
    var (r', s') := ReplyStep(m.r, m.s, m.way.Outs());
    AppliedKept(m, r', s', d);
  }

  // ---- the second pass begins ----

  lemma SecondPassBegins(m: Machine, d: nat, store: Store, q: Request, remaining: nat)
    requires Classify(q).Write? || Classify(q).Update?
    requires FirstPass(m, d, store, q, remaining) && m.r.waitdelay == 0 && TagMatches(m.r, m.way.Outs())
    ensures var (r', s') := SecondPassStep(m.r, m.s, m.way.Outs(), d);
            SecondPass(After(m, r', s'), d, store, q, remaining - 1)
  {
    var (r', s') := SecondPassStep(m.r, m.s, m.way.Outs(), d);
    var m' := After(m, r', s');
    TagsServed(Applied(m, d), q);
    assert m.s.data.ena == false && m.s.state.ena == false && m.s.tag.we == false;
    assert m'.way.data.rows == m.way.data.rows &&
           m'.way.state.rows == m.way.state.rows && m'.way.tag.rows == m.way.tag.rows;
    assert Applied(m', d) == store;
  }

  // ---- at rest ----

  lemma StaysAtRest(m: Machine, d: nat, store: Store, r': Registers, s': Signals)
    requires AtRest(m, d, store)
    requires (r', s') ==
             (m.r.(deassert := false), m.s.(portAvailable := true, outReady := m.s.outReady && !m.r.deassert))
    ensures AtRest(After(m, r', s'), d, store) && !s'.outReady
  {
    AppliedKept(m, r', s', d);
  }

  lemma RowsAtRest(m: Machine, d: nat, store: Store)
    requires AtRest(m, d, store)
    ensures m.way.Step(m.s).data.rows == m.way.data.rows
    ensures m.way.Step(m.s).state.rows == m.way.state.rows
    ensures m.way.Step(m.s).tag.rows == m.way.tag.rows
    ensures store == StoreOf(m.way.data.rows, m.way.state.rows, m.way.tag.rows)
  {}

  lemma AcceptsOnePass(m: Machine, d: nat, store: Store, q: Request)
    requires AtRest(m, d, store) && (Classify(q).Insert? || Classify(q).Read?)
    ensures var (r', s') := AcceptStep(m.r, m.s, q, d);
            OnePass(After(m, r', s'), d, Serve(store, q), q, d + 1)
  {
    RowsAtRest(m, d, store);
    var (r', s') := AcceptStep(m.r, m.s, q, d);
    assert Applied(After(m, r', s'), d) == Serve(store, q);
  }

  lemma AcceptsFirstPass(m: Machine, d: nat, store: Store, q: Request)
    requires AtRest(m, d, store) && (Classify(q).Write? || Classify(q).Update?)
    ensures var (r', s') := AcceptStep(m.r, m.s, q, d);
            FirstPass(After(m, r', s'), d, Serve(store, q), q, Latency(store, q, d))
  {
    RowsAtRest(m, d, store);
    TagsServed(store, q);
    var (r', s') := AcceptStep(m.r, m.s, q, d);
    assert Applied(After(m, r', s'), d) == store;
  }

  // ---- one edge, and every run ----

  lemma OnePassEdge(m: Machine, a: Atomic, input: Input, d: nat, q: Request, remaining: nat)
    requires a.phase == Working(q, remaining) && (Classify(q).Insert? || Classify(q).Read?)
    requires Represents(m, a, d)
    ensures Represents(MachineStep(m, input, d), a.Step(input, d), d)
  {
    if m.r.waitdelay > 0 {
      OnePassWaits(m, d, a.store, q, remaining);
      assert MachineStep(m, input, d) == After(m, WaitStep(m.r, m.s).0, WaitStep(m.r, m.s).1);
    } else {
      OnePassReplies(m, d, a.store, q, remaining);
      assert MachineStep(m, input, d) ==
             After(m, ReplyStep(m.r, m.s, m.way.Outs()).0, ReplyStep(m.r, m.s, m.way.Outs()).1);
    }
  }

  lemma FirstPassEdge(m: Machine, a: Atomic, input: Input, d: nat, q: Request, remaining: nat)
    requires a.phase == Working(q, remaining) && (Classify(q).Write? || Classify(q).Update?)
    requires FirstPass(m, d, a.store, q, remaining)
    ensures Represents(MachineStep(m, input, d), a.Step(input, d), d)
  {
    if m.r.waitdelay > 0 {
      FirstPassWaits(m, d, a.store, q, remaining);
      assert MachineStep(m, input, d) == After(m, WaitStep(m.r, m.s).0, WaitStep(m.r, m.s).1);
    } else if TagMatches(m.r, m.way.Outs()) {
      SecondPassBegins(m, d, a.store, q, remaining);
      assert MachineStep(m, input, d) ==
             After(m, SecondPassStep(m.r, m.s, m.way.Outs(), d).0, SecondPassStep(m.r, m.s, m.way.Outs(), d).1);
    } else {
      MissReplies(m, d, a.store, q, remaining);
      assert MachineStep(m, input, d) ==
             After(m, ReplyStep(m.r, m.s, m.way.Outs()).0, ReplyStep(m.r, m.s, m.way.Outs()).1);
    }
  }

  lemma SecondPassEdge(m: Machine, a: Atomic, input: Input, d: nat, q: Request, remaining: nat)
    requires a.phase == Working(q, remaining) && (Classify(q).Write? || Classify(q).Update?)
    requires SecondPass(m, d, a.store, q, remaining)
    ensures Represents(MachineStep(m, input, d), a.Step(input, d), d)
  {
    if m.r.waitdelay > 0 {
      SecondPassWaits(m, d, a.store, q, remaining);
      assert MachineStep(m, input, d) == After(m, WaitStep(m.r, m.s).0, WaitStep(m.r, m.s).1);
    } else {
      SecondPassReplies(m, d, a.store, q, remaining);
      assert MachineStep(m, input, d) ==
             After(m, ReplyStep(m.r, m.s, m.way.Outs()).0, ReplyStep(m.r, m.s, m.way.Outs()).1);
    }
  }

  lemma RestEdge(m: Machine, a: Atomic, input: Input, d: nat)
    requires !a.phase.Working? && AtRest(m, d, a.store)
    ensures Represents(MachineStep(m, input, d), a.Step(input, d), d)
  {
    if input.Submit? && Classify(input.req) != Ignored {
      AcceptEdge(m, a, input, d);
    } else {
      IdleEdge(m, a, input, d);
    }
  }

  lemma AcceptEdge(m: Machine, a: Atomic, input: Input, d: nat)
    requires !a.phase.Working? && AtRest(m, d, a.store)
    requires input.Submit? && Classify(input.req) != Ignored
    ensures Represents(MachineStep(m, input, d), a.Step(input, d), d)
  {
    if Classify(input.req).Insert? || Classify(input.req).Read? {
      AcceptsOnePass(m, d, a.store, input.req);
    } else {
      AcceptsFirstPass(m, d, a.store, input.req);
    }
  }

  lemma IdleEdge(m: Machine, a: Atomic, input: Input, d: nat)
    requires !a.phase.Working? && AtRest(m, d, a.store)
    requires input.Submit? ==> Classify(input.req) == Ignored
    ensures Represents(MachineStep(m, input, d), a.Step(input, d), d)
  {
    var (r', s') := IdleStep(m.r, m.s, input, d);
    StaysAtRest(m, d, a.store, r', s');
  }

  // Every clock edge of the controller is a step of the atomic store.
  lemma EdgeRefines(m: Machine, a: Atomic, input: Input, d: nat)
    requires Represents(m, a, d)
    ensures m.way.Valid(d)
    ensures Represents(MachineStep(m, input, d), a.Step(input, d), d)
  {
    match a.phase {
      case Working(q, remaining) =>
        if Classify(q).Insert? || Classify(q).Read? {
          OnePassEdge(m, a, input, d, q, remaining);
        } else if FirstPass(m, d, a.store, q, remaining) {
          FirstPassEdge(m, a, input, d, q, remaining);
        } else {
          SecondPassEdge(m, a, input, d, q, remaining);
        }
      case _ =>
        RestEdge(m, a, input, d);
    }
  }
}
