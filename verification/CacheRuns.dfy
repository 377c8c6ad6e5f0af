// Whole runs of the cache: refinement of the atomic store, the reply protocol, and the
// data oracle of warmup-project/wrapper.cpp.
module CacheRuns {
  import opened Arithmetic
  import opened CacheSpec
  import opened CacheMachine
  import opened CacheRefinement

  ghost function MachineRun(m: Machine, inputs: seq<Input>, d: nat): (m': Machine)
    requires m.way.Valid(d)
    ensures m'.way.Valid(d)
  {
    if inputs == [] then m else MachineStep(MachineRun(m, inputs[..|inputs| - 1], d), inputs[|inputs| - 1], d)
  }

  // From any represented state on, every run of the clocked machine is a run of the
  // atomic store.
  lemma {:induction false} RunRefines(m: Machine, a: Atomic, inputs: seq<Input>, d: nat)
    requires Represents(m, a, d) && m.way.Valid(d)
    ensures Represents(MachineRun(m, inputs, d), a.Run(inputs, d), d)
  {
    if inputs != [] {
      var before := inputs[..|inputs| - 1];
      RunRefines(m, a, before, d);
      EdgeRefines(MachineRun(m, before, d), a.Run(before, d), inputs[|inputs| - 1], d);
    }
  }

  lemma RunFromPowerOn(inputs: seq<Input>, d: nat)
    requires d >= 1
    ensures Represents(MachineRun(InitialMachine(d), inputs, d), AtomicStart().Run(inputs, d), d)
  {
    InitiallyRepresents(d);
    RunRefines(InitialMachine(d), AtomicStart(), inputs, d);
  }

  // While a request is in service, time passes and nothing else happens, whatever is put
  // on the inputs.
  lemma {:induction false} AtomicCountdown(a: Atomic, q: Request, remaining: nat, later: seq<Input>, d: nat)
    requires a.phase == Working(q, remaining) && 1 <= remaining
    ensures |later| < remaining ==> a.Run(later, d) == Atomic(a.store, Working(q, remaining - |later|))
    ensures |later| == remaining ==> a.Run(later, d) == Atomic(a.store, Answered(q))
  {
    if later != [] && |later| <= remaining {
      AtomicCountdown(a, q, remaining, later[..|later| - 1], d);
    }
  }

  // What the outside sees in each phase.
  lemma PhaseShows(m: Machine, a: Atomic, d: nat)
    requires Represents(m, a, d)
    ensures a.phase.Working? ==> !m.s.outReady && !m.s.portAvailable
    ensures a.phase.Idle? ==> !m.s.outReady && m.s.portAvailable
    ensures a.phase.Answered? ==> m.s.portAvailable && Shows(m.s, a.store, a.phase.q)
  {}

  lemma AtomicReply(a: Atomic, q: Request, later: seq<Input>, d: nat)
    requires a.Available() && Classify(q) != Ignored
    ensures var a' := a.Step(Submit(q), d).Run(later, d);
            var latency := Latency(a.store, q, d);
            && (|later| < latency ==> a'.phase.Working?)
            && (|later| == latency ==> a' == Atomic(Serve(a.store, q), Answered(q)))
            && (|later| == latency + 1 ==> !a'.phase.Answered?)
  {
    var a1, latency := a.Step(Submit(q), d), Latency(a.store, q, d);
    assert a1 == Atomic(Serve(a.store, q), Working(q, latency));
    if |later| <= latency {
      AtomicCountdown(a1, q, latency, later, d);
    } else if |later| == latency + 1 {
      AtomicCountdown(a1, q, latency, later[..latency], d);
      assert a1.Run(later, d) == a1.Run(later[..latency], d).Step(later[latency], d);
    }
  }

  // The flags of an insert, which the controller tests first.
  predicate Inserts(q: Request) {
    q.isInsert && q.hasData && q.updateState
  }

  // The reply protocol, by the flags of the request and what its line holds. A request for
  // data or with a new state, accepted by a cache at rest, is answered, with its own token,
  // d+1 edges after the edge that accepts it, or 2(d+1) when it writes to a line that is
  // held without inserting or asking for data. Until then there is no reply and the port is
  // closed, whatever the inputs; the reply lasts one cycle.
  lemma RepliesOnTime(m: Machine, a: Atomic, q: Request, later: seq<Input>, d: nat)
    requires Represents(m, a, d) && m.way.Valid(d)
    requires a.Available() && (q.needsData || q.updateState)
    ensures var m', line := MachineRun(MachineStep(m, Submit(q), d), later, d), a.store[IndexOf(q.addr)];
            var held := line.tag == TagOf(q.addr);
            var writes := held && !q.needsData && !Inserts(q);
            var latency := if writes then 2 * (d + 1) else d + 1;
            && (|later| < latency ==> !m'.s.outReady && !m'.s.portAvailable)
            && (|later| == latency ==>
                  && m'.s.portAvailable && m'.s.outReady && m'.s.out.token == q.addr
                  && m'.s.out.state == (if Inserts(q) || writes then q.newState else if held then line.state else 0xff)
                  && (!Inserts(q) ==> m'.s.out.addr == line.tag)
                  && (!Inserts(q) && q.needsData ==> m'.s.out.data == line.data))
            && (|later| == latency + 1 ==> !m'.s.outReady)
  {
    EdgeRefines(m, a, Submit(q), d);
    RunRefines(MachineStep(m, Submit(q), d), a.Step(Submit(q), d), later, d);
    PhaseShows(MachineRun(MachineStep(m, Submit(q), d), later, d), a.Step(Submit(q), d).Run(later, d), d);
    AtomicReply(a, q, later, d);
    KindByFlags(a.store, q, d);
  }

  lemma KindByFlags(store: Store, q: Request, d: nat)
    requires q.needsData || q.updateState
    ensures var line := store[IndexOf(q.addr)];
            var writes := line.tag == TagOf(q.addr) && !q.needsData && !Inserts(q);
            && Classify(q) != Ignored
            && (Classify(q).Insert? <==> Inserts(q)) && (Classify(q).Read? <==> !Inserts(q) && q.needsData)
            && Latency(store, q, d) == (if writes then 2 * (d + 1) else d + 1)
            && ReplyState(Serve(store, q), q)
               == (if Inserts(q) || writes then q.newState else if line.tag == TagOf(q.addr) then line.state else 0xff)
            && (!Inserts(q) ==> Serve(store, q)[IndexOf(q.addr)].tag == line.tag)
            && (Classify(q).Read? ==> Serve(store, q) == store)
  {}

  // A request that neither asks for data nor brings a state is not noticed.
  lemma NothingAsked(m: Machine, q: Request, d: nat)
    requires m.way.Valid(d) && !q.needsData && !q.updateState
    ensures MachineStep(m, Submit(q), d) == MachineStep(m, Nothing, d)
  {}

  // ---- the oracle of the wrapper ----

  // A physical address as the wrapper's long long.
  function Signed(a: Address): int {
    if a < 0x8000_0000_0000_0000 then a else a - 0x1_0000_0000_0000_0000
  }

  // The oracle's key: the address divided by the block size, as C divides.
  function Key(a: Address): int {
    TruncDiv(Signed(a), 64)
  }

  predicate SameLine(a: Address, b: Address) {
    TagOf(a) == TagOf(b) && IndexOf(a) == IndexOf(b)
  }

  // The addresses that reach the cache: a request for the null address is answered before.
  ghost predicate InUse(a: Address, addresses: iset<Address>) {
    a in addresses && a != 0
  }

  // A reply token is an address; the oracle's key must tell exactly the lines of the cache
  // apart for the addresses that reach it.
  ghost predicate KeysTellLines(addresses: iset<Address>) {
    forall a, b :: InUse(a, addresses) && InUse(b, addresses) ==> (SameLine(a, b) <==> Key(a) == Key(b))
  }

  // What the wrapper asserts or assumes of a request it submits: data excludes a request
  // for data and comes with a state.
  ghost predicate WellFormed(q: Request, addresses: iset<Address>) {
    (q.hasData ==> !q.needsData && q.updateState) && InUse(q.addr, addresses)
  }

  // The values last submitted, block by block.
  ghost function Oracle(inputs: seq<Input>): map<int, Block> {
    if inputs == [] then map[]
    else
      var before, last := Oracle(inputs[..|inputs| - 1]), inputs[|inputs| - 1];
      if last.Submit? && last.req.hasData then before[Key(last.req.addr) := last.req.data] else before
  }

  // A run over some addresses in which every request is well formed and is submitted while
  // the port is open.
  ghost predicate Protocol(inputs: seq<Input>, d: nat, addresses: iset<Address>) {
    inputs == [] ||
    (Protocol(inputs[..|inputs| - 1], d, addresses)
     && Permitted(inputs[|inputs| - 1], AtomicStart().Run(inputs[..|inputs| - 1], d), addresses))
  }

  ghost predicate Permitted(input: Input, a: Atomic, addresses: iset<Address>) {
    input.Submit? ==> WellFormed(input.req, addresses) && a.Available()
  }

  // Whatever the store holds is what the oracle expects.
  ghost predicate OracleAgrees(store: Store, oracle: map<int, Block>, addresses: iset<Address>) {
    forall a: Address :: InUse(a, addresses) && store[IndexOf(a)].tag == TagOf(a) && Key(a) in oracle ==>
      store[IndexOf(a)].data == oracle[Key(a)]
  }

  ghost function NonNegative(): iset<Address> {
    iset a: Address | Signed(a) >= 0
  }

  // Two non-negative addresses share a key exactly when they share a line.
  lemma LineAndKey(a: Address, b: Address)
    requires Signed(a) >= 0 && Signed(b) >= 0
    ensures SameLine(a, b) <==> Key(a) == Key(b)
  {
    TagOfLine(a);
    TagOfLine(b);
  }

  // The line number is the tag and the index put together.
  lemma TagOfLine(a: Address)
    ensures TagOf(a) == 1024 * (a / 64 / 16) && IndexOf(a) == a / 64 % 16
  {
    assert a / 64 / 16 == a / 1024;
    assert a == 1024 * (a / 1024) + a % 1024;
  }

  lemma NonNegativeTells()
    ensures KeysTellLines(NonNegative())
  {
    forall a, b | InUse(a, NonNegative()) && InUse(b, NonNegative())
      ensures SameLine(a, b) <==> Key(a) == Key(b)
    {
      LineAndKey(a, b);
    }
  }

  // Two runs that end in the same state.
  ghost predicate SameEnd(m: Machine, inputs: seq<Input>, m': Machine, inputs': seq<Input>, d: nat)
    requires m.way.Valid(d) && m'.way.Valid(d)
  {
    MachineRun(m, inputs, d) == MachineRun(m', inputs', d)
  }

  lemma RunLast(m: Machine, front: seq<Input>, last: Input, d: nat)
    requires m.way.Valid(d)
    ensures MachineRun(m, front + [last], d) == MachineStep(MachineRun(m, front, d), last, d)
  {
    assert (front + [last])[..|front|] == front;
  }

  lemma SameNext(m: Machine, inputs: seq<Input>, m': Machine, inputs': seq<Input>, last: Input, d: nat)
    requires m.way.Valid(d) && m'.way.Valid(d) && SameEnd(m, inputs, m', inputs', d)
    ensures SameEnd(m, inputs + [last], m', inputs' + [last], d)
  {
    RunLast(m, inputs, last, d);
    RunLast(m', inputs', last, d);
  }
}
