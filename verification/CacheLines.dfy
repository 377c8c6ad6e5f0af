// What every line of the cache holds after any run, told from the requests alone, and what
// the replies therefore show (warmup-project/cache.h:142-425).
module CacheLines {
  import opened CacheSpec
  import opened CacheMachine
  import opened CacheRefinement
  import opened CacheRuns

  // The tag that line i holds: that of the last insert into the line, and 0 before any.
  ghost function HeldTag(inputs: seq<Input>, i: nat): Address {
    if inputs == [] then 0
    else
      var front, last := inputs[..|inputs| - 1], inputs[|inputs| - 1];
      if last.Submit? && Inserts(last.req) && IndexOf(last.req.addr) == i then TagOf(last.req.addr)
      else HeldTag(front, i)
  }

  ghost predicate Holds(inputs: seq<Input>, a: Address) {
    HeldTag(inputs, IndexOf(a)) == TagOf(a)
  }

  // A request that changes what line i holds: an insert into the line, or, without asking
  // for data, an update of the address the line holds.
  ghost predicate Changes(before: seq<Input>, q: Request, i: nat) {
    && IndexOf(q.addr) == i && q.updateState
    && (Inserts(q) || (!q.needsData && Holds(before, q.addr)))
  }

  // The state last submitted for line i that took effect, and 0 before any.
  ghost function LastState(inputs: seq<Input>, i: nat): int {
    if inputs == [] then 0
    else
      var front, last := inputs[..|inputs| - 1], inputs[|inputs| - 1];
      if last.Submit? && Changes(front, last.req, i) then last.req.newState else LastState(front, i)
  }

  // The data last submitted for line i that took effect.
  ghost function LastData(inputs: seq<Input>, i: nat): Block {
    if inputs == [] then 0
    else
      var front, last := inputs[..|inputs| - 1], inputs[|inputs| - 1];
      if last.Submit? && Changes(front, last.req, i) && last.req.hasData then last.req.data else LastData(front, i)
  }

  // Requests are submitted only while the port is open.
  ghost predicate InTurn(inputs: seq<Input>, d: nat) {
    inputs == [] ||
    (InTurn(inputs[..|inputs| - 1], d)
     && (inputs[|inputs| - 1].Submit? ==> AtomicStart().Run(inputs[..|inputs| - 1], d).Available()))
  }

  lemma {:induction false} ProtocolInTurn(inputs: seq<Input>, d: nat, addresses: iset<Address>)
    requires Protocol(inputs, d, addresses)
    ensures InTurn(inputs, d)
  {
    if inputs != [] {
      ProtocolInTurn(inputs[..|inputs| - 1], d, addresses);
    }
  }

  lemma {:induction false} StoreHolds(inputs: seq<Input>, d: nat, i: nat)
    requires InTurn(inputs, d) && i < SETS
    ensures AtomicStart().Run(inputs, d).store[i] == Line(HeldTag(inputs, i), LastState(inputs, i), LastData(inputs, i))
  {
    if inputs != [] {
      var front, last := inputs[..|inputs| - 1], inputs[|inputs| - 1];
      StoreHolds(front, d, i);
      if last.Submit? {
        StoreHolds(front, d, IndexOf(last.req.addr));
        ServeHolds(AtomicStart().Run(front, d).store, front, last.req, i);
      }
    }
  }

  lemma ServeHolds(store: Store, front: seq<Input>, q: Request, i: nat)
    requires i < SETS && (IndexOf(q.addr) == i ==> store[i].tag == HeldTag(front, i))
    ensures Serve(store, q)[i] ==
            Line(if Inserts(q) && IndexOf(q.addr) == i then TagOf(q.addr) else store[i].tag,
                 if Changes(front, q, i) then q.newState else store[i].state,
                 if Changes(front, q, i) && q.hasData then q.data else store[i].data)
  {}

  // In every run in which requests are submitted while the port is open, for every memory
  // delay: a reply reports the state last submitted for its line that took effect, or 0xff
  // when the line is not held; but for inserts it shows the tag of the line, and a request
  // for data gets the data last submitted for the line that took effect.
  lemma RepliesShowLine(inputs: seq<Input>, d: nat)
    requires d >= 1 && InTurn(inputs, d)
    ensures var m, a := MachineRun(InitialMachine(d), inputs, d), AtomicStart().Run(inputs, d);
            m.s.outReady ==>
              && a.phase.Answered? && m.s.out.token == a.phase.q.addr
              && var q, i := a.phase.q, IndexOf(a.phase.q.addr);
                 && m.s.out.state == (if Holds(inputs, q.addr) then LastState(inputs, i) else 0xff)
                 && (!Inserts(q) ==> m.s.out.addr == HeldTag(inputs, i))
                 && (!Inserts(q) && q.needsData ==> m.s.out.data == LastData(inputs, i))
  {
    var m, a := MachineRun(InitialMachine(d), inputs, d), AtomicStart().Run(inputs, d);
    RunFromPowerOn(inputs, d);
    PhaseShows(m, a, d);
    if a.phase.Answered? {
      StoreHolds(inputs, d, IndexOf(a.phase.q.addr));
    }
  }

  lemma {:induction false} StatesSubmitted(inputs: seq<Input>, i: nat)
    requires forall k :: 0 <= k < |inputs| && inputs[k].Submit? ==> inputs[k].req.newState != 0xff
    ensures LastState(inputs, i) != 0xff
  {
    if inputs != [] {
      StatesSubmitted(inputs[..|inputs| - 1], i);
    }
  }

  // Unless 0xff is submitted as a state, a reply with 0xff tells exactly that the line is
  // not held.
  lemma MissIsTold(inputs: seq<Input>, d: nat)
    requires d >= 1 && InTurn(inputs, d)
    requires forall k :: 0 <= k < |inputs| && inputs[k].Submit? ==> inputs[k].req.newState != 0xff
    ensures var m := MachineRun(InitialMachine(d), inputs, d);
            m.s.outReady ==> (m.s.out.state == 0xff <==> !Holds(inputs, m.s.out.token))
  {
    RepliesShowLine(inputs, d);
    var m := MachineRun(InitialMachine(d), inputs, d);
    if m.s.outReady {
      StatesSubmitted(inputs, IndexOf(m.s.out.token));
    }
  }
}
