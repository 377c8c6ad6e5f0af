// For which addresses the data assertion of warmup-project/wrapper.cpp:45-48 is sound.
module OracleExactness {
  import opened CacheSpec
  import opened CacheMachine
  import opened CacheRefinement
  import opened CacheRuns
  import opened CacheOracle

  // The assertion fails on the reply that is showing: the request wanted data, the reply is
  // a hit, the oracle holds a non-zero value for the block, and the reply carries another.
  ghost predicate Alarm(inputs: seq<Input>, d: nat)
    requires d >= 1
  {
    var m, a := MachineRun(InitialMachine(d), inputs, d), AtomicStart().Run(inputs, d);
    && m.s.outReady && a.phase.Answered? && a.phase.q.needsData
    && m.s.out.state != MISS && Key(m.s.out.token) in Oracle(inputs)
    && Oracle(inputs)[Key(m.s.out.token)] != 0 && m.s.out.data != Oracle(inputs)[Key(m.s.out.token)]
  }

  ghost predicate NeverAlarms(addresses: iset<Address>) {
    forall inputs: seq<Input>, d: nat :: d >= 1 && Protocol(inputs, d, addresses) ==> !Alarm(inputs, d)
  }

  // The assertion fails in no run over some addresses, with any memory delay, if and only
  // if no two of them other than the null address share an oracle key without sharing a
  // line, or a line without a key.
  lemma OracleSound(addresses: iset<Address>)
    ensures NeverAlarms(addresses) <==> KeysTellLines(addresses)
  {
    if KeysTellLines(addresses) {
      forall inputs: seq<Input>, d: nat | d >= 1 && Protocol(inputs, d, addresses)
        ensures !Alarm(inputs, d)
      {
        RepliesCarryLastValue(inputs, d, addresses);
        AnsweredIsWellFormed(inputs, d, addresses);
      }
    } else {
      var a, b :| InUse(a, addresses) && InUse(b, addresses) && SameLine(a, b) != (Key(a) == Key(b));
      var inputs := AlarmRun(a, b, addresses, 1, 2);
    }
  }

  lemma {:induction false} AnsweredIsWellFormed(inputs: seq<Input>, d: nat, addresses: iset<Address>)
    requires Protocol(inputs, d, addresses)
    ensures forall q :: q in InFlight(AtomicStart().Run(inputs, d)) ==> WellFormed(q, addresses)
  {
    if inputs != [] {
      AnsweredIsWellFormed(inputs[..|inputs| - 1], d, addresses);
    }
  }

  // ---- a false alarm ----

  ghost function Served(inputs: seq<Input>, q: Request): seq<Input> {
    inputs + [Submit(q)] + [Nothing] + [Nothing]
  }

  lemma Next(inputs: seq<Input>, input: Input, addresses: iset<Address>)
    ensures AtomicStart().Run(inputs + [input], 1) == AtomicStart().Run(inputs, 1).Step(input, 1)
    ensures Protocol(inputs + [input], 1, addresses) <==>
            Protocol(inputs, 1, addresses) && Permitted(input, AtomicStart().Run(inputs, 1), addresses)
    ensures Oracle(inputs + [input]) ==
            if input.Submit? && input.req.hasData then Oracle(inputs)[Key(input.req.addr) := input.req.data]
            else Oracle(inputs)
  {
    LastInput(inputs, input, 1, addresses);
  }

  // With a delay of one, an insert or a read is answered two edges after it is accepted.
  lemma ServedInTurn(inputs: seq<Input>, q: Request, addresses: iset<Address>)
    requires Protocol(inputs, 1, addresses) && AtomicStart().Run(inputs, 1).Available()
    requires WellFormed(q, addresses) && (Classify(q).Insert? || Classify(q).Read?)
    ensures Protocol(Served(inputs, q), 1, addresses)
    ensures AtomicStart().Run(Served(inputs, q), 1) == Atomic(Serve(AtomicStart().Run(inputs, 1).store, q), Answered(q))
    ensures Oracle(Served(inputs, q)) == if q.hasData then Oracle(inputs)[Key(q.addr) := q.data] else Oracle(inputs)
  {
    Next(inputs, Submit(q), addresses);
    Next(inputs + [Submit(q)], Nothing, addresses);
    Next(inputs + [Submit(q)] + [Nothing], Nothing, addresses);
  }

  // Two addresses that share a key but no line lie in neighbouring lines.
  lemma KeyNeighbours(a: Address, b: Address)
    requires Key(a) == Key(b) && !SameLine(a, b)
    ensures IndexOf(a) != IndexOf(b)
  {
    KeyOfLine(a);
    KeyOfLine(b);
    LinesDiffer(a, b);
    var m, n := a / 64, b / 64;
    assert m - n in {1, -1, 0x3FF_FFFF_FFFF_FFFF, -0x3FF_FFFF_FFFF_FFFF};
  }

  lemma KeyOfLine(a: Address)
    ensures Key(a) == if Signed(a) >= 0 then a / 64
                      else a / 64 + (if a % 64 == 0 then 0 else 1) - 0x400_0000_0000_0000
  {
    if Signed(a) < 0 {
      KeyBelowZero(a);
    }
  }

  lemma LinesDiffer(a: Address, b: Address)
    requires !SameLine(a, b)
    ensures a / 64 != b / 64
  {
    TagOfLine(a);
    TagOfLine(b);
  }

  // One address is inserted, then the other, then the first is read: the oracle expects the
  // value of the last insert with its key, the cache returns that of the last with its line.
  // This is so whatever two values the wrapper makes up, if they differ and are not 0.
  lemma AlarmRun(a: Address, b: Address, addresses: iset<Address>, v0: Block, v1: Block) returns (inputs: seq<Input>)
    requires InUse(a, addresses) && InUse(b, addresses) && SameLine(a, b) != (Key(a) == Key(b))
    requires v0 != v1 && v0 != 0 && v1 != 0
    ensures Protocol(inputs, 1, addresses) && Alarm(inputs, 1)
  {
    var q0 := Request(a, true, true, v0, false, true, 1);
    var q1 := Request(b, true, true, v1, false, true, 1);
    var q2 := Request(a, false, false, 0, true, false, 0);
    ServedInTurn([], q0, addresses);
    var first := Served([], q0);
    ServedInTurn(first, q1, addresses);
    var second := Served(first, q1);
    ServedInTurn(second, q2, addresses);
    inputs := Served(second, q2);
    StoreAndOracleDiffer(a, b, q0, q1, q2);
    AlarmShows(inputs, Serve(Serve(Serve(AtomicStart().store, q0), q1), q2), q2);
  }

  lemma StoreAndOracleDiffer(a: Address, b: Address, q0: Request, q1: Request, q2: Request)
    requires SameLine(a, b) != (Key(a) == Key(b)) && q0.data != q1.data
    requires q0.addr == q2.addr == a && q1.addr == b
    requires Classify(q0).Insert? && Classify(q1).Insert? && Classify(q2).Read?
    ensures var store := Serve(Serve(Serve(AtomicStart().store, q0), q1), q2);
            && Hit(store, q2)
            && store[IndexOf(a)].state in {q0.newState, q1.newState}
            && store[IndexOf(a)].data != if Key(a) == Key(b) then q1.data else q0.data
  {
    if Key(a) == Key(b) {
      KeyNeighbours(a, b);
    }
  }

  // What raises the alarm, in terms of the atomic store.
  lemma AlarmShows(inputs: seq<Input>, store: Store, q: Request)
    requires AtomicStart().Run(inputs, 1) == Atomic(store, Answered(q))
    requires Classify(q).Read? && Hit(store, q) && store[IndexOf(q.addr)].state != MISS
    requires Key(q.addr) in Oracle(inputs) && Oracle(inputs)[Key(q.addr)] != 0
    requires store[IndexOf(q.addr)].data != Oracle(inputs)[Key(q.addr)]
    ensures Alarm(inputs, 1)
  {
    RunFromPowerOn(inputs, 1);
    PhaseShows(MachineRun(InitialMachine(1), inputs, 1), AtomicStart().Run(inputs, 1), 1);
  }
}
