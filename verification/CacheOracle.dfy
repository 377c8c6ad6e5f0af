// The data oracle and the request protocol of warmup-project/wrapper.cpp.
module CacheOracle {
  import opened CacheSpec
  import opened CacheMachine
  import opened CacheRefinement
  import opened CacheRuns
  import opened CacheSystemModel

  // Submitting one request keeps store and oracle in agreement, also when the request is a
  // write that misses: then the oracle expects what the store does not hold.
  lemma OracleStep(store: Store, oracle: map<int, Block>, q: Request, addresses: iset<Address>)
    requires KeysTellLines(addresses) && OracleAgrees(store, oracle, addresses) && WellFormed(q, addresses)
    ensures OracleAgrees(Serve(store, q), if q.hasData then oracle[Key(q.addr) := q.data] else oracle, addresses)
  {
    var store', oracle' := Serve(store, q), if q.hasData then oracle[Key(q.addr) := q.data] else oracle;
    forall a: Address | InUse(a, addresses) && store'[IndexOf(a)].tag == TagOf(a) && Key(a) in oracle'
      ensures store'[IndexOf(a)].data == oracle'[Key(a)]
    {
      assert SameLine(a, q.addr) <==> Key(a) == Key(q.addr);
    }
  }

  lemma {:induction false} OracleFollows(inputs: seq<Input>, d: nat, addresses: iset<Address>)
    requires KeysTellLines(addresses) && Protocol(inputs, d, addresses)
    ensures OracleAgrees(AtomicStart().Run(inputs, d).store, Oracle(inputs), addresses)
  {
    if inputs != [] {
      var before, last := inputs[..|inputs| - 1], inputs[|inputs| - 1];
      OracleFollows(before, d, addresses);
      if last.Submit? {
        OracleStep(AtomicStart().Run(before, d).store, Oracle(before), last.req, addresses);
      }
    }
  }

  // The request being served or just answered is the last one accepted.
  ghost function InFlight(a: Atomic): seq<Request> {
    match a.phase
    case Idle => []
    case Working(q, remaining) => [q]
    case Answered(q) => [q]
  }

  // In every run that keeps the protocol, for every memory delay: a reply to a request for
  // data that reports a hit carries the value last submitted for that block, whenever one
  // was.
  lemma RepliesCarryLastValue(inputs: seq<Input>, d: nat, addresses: iset<Address>)
    requires d >= 1 && KeysTellLines(addresses) && Protocol(inputs, d, addresses)
    ensures var m, a := MachineRun(InitialMachine(d), inputs, d), AtomicStart().Run(inputs, d);
            m.s.outReady ==>
              && a.phase.Answered? && m.s.out.token == a.phase.q.addr
              && (a.phase.q.needsData && WellFormed(a.phase.q, addresses)
                  && m.s.out.state != MISS && Key(m.s.out.token) in Oracle(inputs) ==>
                    m.s.out.data == Oracle(inputs)[Key(m.s.out.token)])
  {
    var m, a := MachineRun(InitialMachine(d), inputs, d), AtomicStart().Run(inputs, d);
    RunFromPowerOn(inputs, d);
    PhaseShows(m, a, d);
    OracleFollows(inputs, d, addresses);
  }

  // Two negative addresses of one line share a key only when both or neither begin a block,
  // so the oracle tells some words of a line apart that the cache does not.
  lemma KeysOfOneLine(a: Address, b: Address)
    requires SameLine(a, b)
    ensures Key(a) == Key(b) <==> Signed(a) >= 0 || (a % 64 == 0 <==> b % 64 == 0)
  {
    TagOfLine(a);
    TagOfLine(b);
    if Signed(a) >= 0 {
      LineAndKey(a, b);
    } else {
      KeyBelowZero(a);
      KeyBelowZero(b);
    }
  }

  lemma KeyBelowZero(a: Address)
    requires Signed(a) < 0
    ensures Key(a) == a / 64 + (if a % 64 == 0 then 0 else 1) - 0x400_0000_0000_0000
  {}

  // What holds of a wrapper's bookkeeping after `history` with `top` on the inputs.
  ghost predicate Bookkeeping(history: seq<Input>, top: Input, d: nat, cacheData: map<int, Block>,
                              requests: map<Address, Request>, addresses: iset<Address>)
  {
    && KeysTellLines(addresses) && Protocol(history + [top], d, addresses)
    && cacheData == Oracle(history + [top])
    && forall q :: q in InFlight(AtomicStart().Run(history + [top], d)) ==>
         q.addr in requests && requests[q.addr] == q && WellFormed(q, addresses)
  }

  lemma LastInput(history: seq<Input>, top: Input, d: nat, addresses: iset<Address>)
    ensures (history + [top])[..|history|] == history
    ensures AtomicStart().Run(history + [top], d) == AtomicStart().Run(history, d).Step(top, d)
    ensures Protocol(history + [top], d, addresses) <==>
            Protocol(history, d, addresses) && Permitted(top, AtomicStart().Run(history, d), addresses)
    ensures Oracle(history + [top]) ==
            if top.Submit? && top.req.hasData then Oracle(history)[Key(top.req.addr) := top.req.data]
            else Oracle(history)
  {
    assert (history + [top])[..|history|] == history;
  }

  lemma BookkeepingStart(d: nat, addresses: iset<Address>)
    requires KeysTellLines(addresses)
    ensures Bookkeeping([], Nothing, d, map[], map[], addresses)
  {
    LastInput([], Nothing, d, addresses);
  }

  // Submitting while the port is open.
  lemma BookkeepingSubmit(history: seq<Input>, q: Request, d: nat, cacheData: map<int, Block>,
                          requests: map<Address, Request>, addresses: iset<Address>)
    requires Bookkeeping(history, Nothing, d, cacheData, requests, addresses)
    requires WellFormed(q, addresses) && AtomicStart().Run(history, d).Available()
    ensures Bookkeeping(history, Submit(q), d, if q.hasData then cacheData[Key(q.addr) := q.data] else cacheData,
                        requests[q.addr := q], addresses)
  {
    LastInput(history, Nothing, d, addresses);
    LastInput(history, Submit(q), d, addresses);
  }

  // After an edge nothing new is on the inputs.
  lemma BookkeepingEdge(history: seq<Input>, top: Input, d: nat, cacheData: map<int, Block>,
                        requests: map<Address, Request>, addresses: iset<Address>)
    requires Bookkeeping(history, top, d, cacheData, requests, addresses)
    ensures Bookkeeping(history + [top], Nothing, d, cacheData, requests, addresses)
  {
    LastInput(history + [top], Nothing, d, addresses);
  }

  // The inputs take the cache from m to where it is.
  ghost predicate FollowsFrom(cache: CacheProject, m: Machine, inputs: seq<Input>)
    requires m.way.Valid(cache.controller.delay)
    reads cache.footprint
    decreases |inputs|
  {
    if inputs == [] then cache.Valid() && cache.Snapshot() == m
    else
      StepStaysValid(m, inputs[0], cache.controller.delay);
      FollowsFrom(cache, MachineStep(m, inputs[0], cache.controller.delay), inputs[1..])
  }

  lemma StepStaysValid(m: Machine, input: Input, d: nat)
    requires m.way.Valid(d)
    ensures MachineStep(m, input, d).way.Valid(d)
  {}

  // The cache is where its inputs so far take it.
  ghost predicate Follows(cache: CacheProject, history: seq<Input>)
    reads cache.footprint
  {
    cache.controller.delay >= 1 && FollowsFrom(cache, InitialMachine(cache.controller.delay), history)
  }

  lemma {:induction false} RunFromFront(m: Machine, inputs: seq<Input>, d: nat)
    requires m.way.Valid(d) && inputs != []
    ensures MachineStep(m, inputs[0], d).way.Valid(d)
    ensures SameEnd(m, inputs, MachineStep(m, inputs[0], d), inputs[1..], d)
    decreases |inputs|
  {
    StepStaysValid(m, inputs[0], d);
    var front, last := inputs[..|inputs| - 1], inputs[|inputs| - 1];
    assert inputs == front + [last];
    if front == [] {
      RunLast(m, [], last, d);
    } else {
      RunFromFront(m, front, d);
      SameNext(m, front, MachineStep(m, inputs[0], d), front[1..], last, d);
      assert inputs[1..] == front[1..] + [last];
    }
  }

  lemma {:induction false} FollowsFromMeans(cache: CacheProject, m: Machine, inputs: seq<Input>)
    requires m.way.Valid(cache.controller.delay)
    ensures FollowsFrom(cache, m, inputs) <==>
            cache.Valid() && cache.Snapshot() == MachineRun(m, inputs, cache.controller.delay)
    decreases |inputs|
  {
    if inputs != [] {
      RunFromFront(m, inputs, cache.controller.delay);
      FollowsFromMeans(cache, MachineStep(m, inputs[0], cache.controller.delay), inputs[1..]);
    }
  }

  lemma FollowsMeans(cache: CacheProject, history: seq<Input>)
    ensures Follows(cache, history) <==>
            && cache.Valid()
            && cache.Snapshot() == MachineRun(InitialMachine(cache.controller.delay), history, cache.controller.delay)
  {
    if cache.controller.delay >= 1 {
      FollowsFromMeans(cache, InitialMachine(cache.controller.delay), history);
    }
  }

  lemma FollowsSignals(cache: CacheProject, history: seq<Input>)
    requires Follows(cache, history)
    ensures cache.controller.delay >= 1
    ensures cache.controller.s == MachineRun(InitialMachine(cache.controller.delay), history, cache.controller.delay).s
  {
    FollowsMeans(cache, history);
  }

  method PowerOn(delay: nat) returns (cache: CacheProject)
    requires delay >= 1
    ensures Follows(cache, []) && fresh(cache.footprint) && cache.controller.delay == delay
  {
    cache := new CacheProject(delay);
    FollowsMeans(cache, []);
  }

  // systemc_clock and systemc_request_submit around one cache port.
  class Wrapper {
    const cache: CacheProject

    var basePort: nat
    var portAvailable: bool
    var cacheData: map<int, Block>
    var requests: map<Address, Request>
    var top: Input

    // every input the cache has been clocked with, and the addresses in use
    ghost var history: seq<Input>
    ghost const addresses: iset<Address>

    ghost predicate Valid()
      reads this, cache.footprint
    {
      && this !in cache.footprint && Follows(cache, history)
      && Bookkeeping(history, top, cache.controller.delay, cacheData, requests, addresses)
      && (basePort == 0 ==> top == Nothing)
      && (portAvailable ==> AtomicStart().Run(history, cache.controller.delay).Available())
    }

    constructor (delay: nat, ghost addresses: iset<Address>)
      requires delay >= 1 && KeysTellLines(addresses)
      ensures Valid() && cacheData == map[] && basePort == 0 && this.addresses == addresses
    {
      var cache := PowerOn(delay);
      this.cache := cache;
      this.addresses := addresses;
      basePort, portAvailable, cacheData, requests, top := 0, false, map[], map[], Nothing;
      history := [];
      BookkeepingStart(delay, addresses);
    }

    // systemc_request_submit; `value` is the value the wrapper makes up for the block. Its
    // assertions are the port being open and data excluding a request for data. A null
    // address is answered at once and never reaches the cache.
    method RequestSubmit(physAddress: Address, isInsert: bool, hasData: bool, needsData: bool, updateState: bool,
                         newState: int, value: Block) returns (replied: bool)
      requires Valid() && basePort == 0 && portAvailable
      requires (hasData ==> !needsData && updateState) && physAddress in addresses
      modifies this`basePort, this`cacheData, this`requests, this`top
      ensures Valid()
      ensures replied <==> physAddress == 0
      ensures physAddress == 0 ==> top == old(top) && cacheData == old(cacheData) && requests == old(requests)
      ensures physAddress != 0 ==>
                var q := Request(physAddress, isInsert, hasData, value, needsData, updateState, newState);
                && top == Submit(q) && requests == old(requests)[physAddress := q]
                && cacheData == if hasData then old(cacheData)[Key(physAddress) := value] else old(cacheData)
    {
      if physAddress == 0 {
        return true;
      }
      var q := Request(physAddress, isInsert, hasData, value, needsData, updateState, newState);
      FollowsSignals(cache, history);
      BookkeepingSubmit(history, q, cache.controller.delay, cacheData, requests, addresses);
      Present(q);
      replied := false;
    }

    // The request is recorded and put on the inputs of the cache.
    method Present(q: Request)
      modifies this`basePort, this`cacheData, this`requests, this`top
      ensures basePort == 1 && top == Submit(q) && requests == old(requests)[q.addr := q]
      ensures cacheData == if q.hasData then old(cacheData)[Key(q.addr) := q.data] else old(cacheData)
    {
      requests := requests[q.addr := q];
      if q.hasData {
        cacheData := cacheData[Key(q.addr) := q.data];
      }
      top, basePort := Submit(q), 1;
    }

    // systemc_clock: one edge, then the reply, if any, is checked. Neither the assertion
    // that its token is known nor the one on its data ever fails.
    method Clock() returns (tokenUnknown: bool, wrongData: bool)
      requires Valid()
      modifies this`basePort, this`portAvailable, this`top, this`history, cache.footprint
      ensures Valid() && basePort == 0
      ensures !tokenUnknown && !wrongData
    {
      ghost var d := cache.controller.delay;
      ghost var before := history;
      FollowsSignals(cache, before);
      ClockFacts(before, top, d, cacheData, requests, addresses);
      var input := top;
      var s := Tick(input, before);
      tokenUnknown, wrongData := CheckReply(s);
      Release(s.portAvailable, before + [input]);
    }

    // The inputs are taken back, and the port shows whether it is open.
    method Release(available: bool, ghost past: seq<Input>)
      requires this !in cache.footprint && Follows(cache, past)
      modifies this`basePort, this`portAvailable, this`top, this`history
      ensures Follows(cache, past)
      ensures basePort == 0 && top == Nothing && portAvailable == available && history == past
    {
      basePort, portAvailable, top, history := 0, available, Nothing, past;
    }

    method Tick(input: Input, ghost before: seq<Input>) returns (s: Signals)
      requires this !in cache.footprint && Follows(cache, before)
      modifies cache.footprint
      ensures Follows(cache, before + [input])
      ensures s == MachineRun(InitialMachine(cache.controller.delay), before + [input], cache.controller.delay).s
    {
      FollowsMeans(cache, before);
      EdgeOfRun(before, input, cache.controller.delay);
      cache.Edge(input);
      FollowsMeans(cache, before + [input]);
      s := cache.controller.s;
    }

    method CheckReply(s: Signals) returns (tokenUnknown: bool, wrongData: bool)
      requires ReplyPasses(s, cacheData, requests)
      ensures !tokenUnknown && !wrongData
    {
      tokenUnknown, wrongData := false, false;
      if s.outReady {
        if s.out.token !in requests {
          tokenUnknown := true;
        } else if s.out.state != MISS {
          var expected := if Key(s.out.token) in cacheData then cacheData[Key(s.out.token)] else 0;
          wrongData := requests[s.out.token].needsData && expected != 0 && s.out.data != expected;
        }
      }
    }
  }

  ghost predicate ReplyPasses(s: Signals, cacheData: map<int, Block>, requests: map<Address, Request>) {
    s.outReady ==>
      && s.out.token in requests
      && (requests[s.out.token].needsData && s.out.state != MISS && Key(s.out.token) in cacheData ==>
            s.out.data == cacheData[Key(s.out.token)])
  }

  lemma EdgeOfRun(history: seq<Input>, top: Input, d: nat)
    requires d >= 1
    ensures Represents(MachineRun(InitialMachine(d), history + [top], d), AtomicStart().Run(history + [top], d), d)
    ensures MachineRun(InitialMachine(d), history + [top], d)
         == MachineStep(MachineRun(InitialMachine(d), history, d), top, d)
  {
    RunFromPowerOn(history + [top], d);
    RunLast(InitialMachine(d), history, top, d);
  }

  lemma ReplyIsRight(before: seq<Input>, top: Input, d: nat, cacheData: map<int, Block>,
                     requests: map<Address, Request>, addresses: iset<Address>)
    requires d >= 1 && Bookkeeping(before, top, d, cacheData, requests, addresses)
    ensures ReplyPasses(MachineRun(InitialMachine(d), before + [top], d).s, cacheData, requests)
  {
    RepliesCarryLastValue(before + [top], d, addresses);
    var m, a := MachineRun(InitialMachine(d), before + [top], d), AtomicStart().Run(before + [top], d);
    if m.s.outReady {
      assert a.phase.q in InFlight(a);
    }
  }

  lemma PortIsRight(inputs: seq<Input>, d: nat)
    requires d >= 1
    ensures MachineRun(InitialMachine(d), inputs, d).s.portAvailable ==> AtomicStart().Run(inputs, d).Available()
  {
    RunFromPowerOn(inputs, d);
    PhaseShows(MachineRun(InitialMachine(d), inputs, d), AtomicStart().Run(inputs, d), d);
  }

  // What a clock edge finds and leaves.
  lemma ClockFacts(before: seq<Input>, top: Input, d: nat, cacheData: map<int, Block>, requests: map<Address, Request>,
                   addresses: iset<Address>)
    requires d >= 1 && Bookkeeping(before, top, d, cacheData, requests, addresses)
    ensures var m := MachineRun(InitialMachine(d), before + [top], d);
            && ReplyPasses(m.s, cacheData, requests)
            && (m.s.portAvailable ==> AtomicStart().Run(before + [top], d).Available())
    ensures Bookkeeping(before + [top], Nothing, d, cacheData, requests, addresses)
  {
    PortIsRight(before + [top], d);
    ReplyIsRight(before, top, d, cacheData, requests, addresses);
    BookkeepingEdge(before, top, d, cacheData, requests, addresses);
  }
}
