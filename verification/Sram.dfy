// The clocked memory of warmup-project/sram.h: a store behind a ring-buffer delay line.
module SramModel {

  // What one SRAM sees at a clock edge.
  datatype Port<Row> = Port(ena: bool, we: bool, addr: nat, din: Row)

  // The contents of one SRAM: its rows, its delay line from the oldest slot (the one the
  // next edge overwrites) to the newest, and the output the outside sees.
  datatype State<Row> = State(rows: seq<Row>, line: seq<Row>, dout: Row) {

    ghost predicate Valid(depth: nat, delay: nat) {
      delay >= 1 && |rows| == depth && |line| == delay
    }

    // The rows after the write, if there is one.
    ghost function Written(p: Port<Row>): seq<Row> {
      if p.ena && p.we && p.addr < |rows| then rows[p.addr := p.din] else rows
    }

    // One clock edge: an enabled port captures its row (after its own write) into the
    // oldest slot; the line advances whether or not anything was captured.
    ghost function Step(p: Port<Row>): State<Row>
      requires |line| >= 1
    {
      var rows' := Written(p);
      var captured := if p.ena && p.addr < |rows'| then rows'[p.addr] else line[0];
      var line' := line[1..] + [captured];
      State(rows', line', line'[0])
    }

    ghost function Run(ports: seq<Port<Row>>): (s: State<Row>)
      requires |line| >= 1
      ensures |s.line| == |line| && |s.rows| == |rows|
    {
      if ports == [] then this else Run(ports[..|ports| - 1]).Step(ports[|ports| - 1])
    }

    // The row captured into the slot that step j uses (counting from 0), after steps 0..j
    // have run: the one captured at the latest enabled step i <= j with i = j modulo the
    // length of the line, or what the slot held initially.
    ghost function Captured(ports: seq<Port<Row>>, j: nat): Row
      requires |line| >= 1 && j < |ports|
      decreases j
    {
      var rows' := Run(ports[..j + 1]).rows;
      if ports[j].ena && ports[j].addr < |rows'| then rows'[ports[j].addr]
      else if j >= |line| then Captured(ports, j - |line|)
      else line[j]
    }

    // A slot that is not the newest was one further on before the last step.
    lemma OlderSlot(ports: seq<Port<Row>>, i: nat)
      requires |line| >= 1 && ports != [] && i + 1 < |line|
      ensures Run(ports).line[i] == Run(ports[..|ports| - 1]).line[i + 1]
    {}

    // The newest slot holds what the last step captured, or what the oldest one held.
    lemma NewestSlot(ports: seq<Port<Row>>)
      requires |line| >= 1 && ports != []
      ensures var n, rows' := |ports| - 1, Run(ports).rows;
              Run(ports).line[|line| - 1] == if ports[n].ena && ports[n].addr < |rows'| then rows'[ports[n].addr]
                                             else Run(ports[..n]).line[0]
    {}

    // After any run, slot i of the line holds what its last step captured.
    ghost predicate Holds(ports: seq<Port<Row>>, i: nat)
      requires |line| >= 1 && i < |line|
    {
      && (|ports| + i < |line| ==> Run(ports).line[i] == line[|ports| + i])
      && (|ports| + i >= |line| ==> Run(ports).line[i] == Captured(ports, |ports| + i - |line|))
    }

    lemma {:induction false} LineHistory(ports: seq<Port<Row>>, i: nat)
      requires |line| >= 1 && i < |line|
      ensures Holds(ports, i)
      decreases |ports|
    {
      if ports != [] {
        if i + 1 < |line| {
          LineHistory(ports[..|ports| - 1], i + 1);
          OlderHistory(ports, i);
        } else {
          LineHistory(ports[..|ports| - 1], 0);
          NewestHistory(ports);
        }
      }
    }

    lemma OlderHistory(ports: seq<Port<Row>>, i: nat)
      requires |line| >= 1 && ports != [] && i + 1 < |line| && Holds(ports[..|ports| - 1], i + 1)
      ensures Holds(ports, i)
    {
      var n := |ports| - 1;
      OlderSlot(ports, i);
      if n + i + 1 >= |line| {
        CapturedPrefix(ports, n, n + i + 1 - |line|);
      }
    }

    lemma NewestHistory(ports: seq<Port<Row>>)
      requires |line| >= 1 && ports != [] && Holds(ports[..|ports| - 1], 0)
      ensures Holds(ports, |line| - 1)
    {
      NewestSlot(ports);
      CapturedLast(ports);
    }

    lemma CapturedLast(ports: seq<Port<Row>>)
      requires |line| >= 1 && ports != []
      ensures var n, rows' := |ports| - 1, Run(ports).rows;
              Captured(ports, n) == if ports[n].ena && ports[n].addr < |rows'| then rows'[ports[n].addr]
                                    else if n >= |line| then Captured(ports[..n], n - |line|)
                                    else line[n]
    {
      var n := |ports| - 1;
      assert ports[..n + 1] == ports;
      if n >= |line| {
        CapturedPrefix(ports, n, n - |line|);
      }
    }

    lemma {:induction false} CapturedPrefix(ports: seq<Port<Row>>, n: nat, j: nat)
      requires |line| >= 1 && j < n <= |ports|
      ensures Captured(ports[..n], j) == Captured(ports, j)
      decreases j
    {
      assert ports[..n][..j + 1] == ports[..j + 1];
      if j >= |line| {
        CapturedPrefix(ports, n, j - |line|);
      }
    }

    // The output after step n is the row captured at the latest enabled step j with
    // j <= n-(D-1) and j = n-(D-1) modulo D, for every delay D.
    lemma DelayedOutput(ports: seq<Port<Row>>)
      requires |line| >= 1 && |ports| >= |line|
      ensures Run(ports).dout == Captured(ports, |ports| - 1 - (|line| - 1))
    {
      LineHistory(ports, 0);
    }
  }

  class Sram<Row> {
    const data: array<Row>
    const pipeline: array<Row>
    var pipePtr: nat
    var dout: Row

    ghost function Footprint(): set<object> {
      {this, data, pipeline}
    }

    ghost predicate Valid()
      reads this, pipeline
    {
      && pipeline.Length >= 1
      && pipePtr < pipeline.Length
      && pipeline != data
    }

    ghost function Model(): State<Row>
      requires Valid()
      reads this, data, pipeline
    {
      State(data[..], pipeline[pipePtr..] + pipeline[..pipePtr], dout)
    }

    constructor (depth: nat, delay: nat, zero: Row)
      requires delay >= 1
      ensures Valid() && fresh(Footprint())
      ensures data.Length == depth && pipeline.Length == delay
      ensures Model() == State(seq(depth, i => zero), seq(delay, i => zero), zero)
    {
      data := new Row[depth](_ => zero);
      pipeline := new Row[delay](_ => zero);
      pipePtr := 0;
      dout := zero;
    }

    // work(): one clock edge.
    method Work(ena: bool, we: bool, addr: nat, din: Row)
      requires Valid() && addr < data.Length
      modifies this, data, pipeline
      ensures Valid()
      ensures Model() == old(Model()).Step(Port(ena, we, addr, din))
    {
      ghost var ring, ptr := pipeline[..], pipePtr;
      if ena {
        if we {
          data[addr] := din;
        }
        pipeline[pipePtr] := data[addr];
      }
      Rotate(ring, ptr, pipeline[pipePtr]);
      assert pipeline[..] == ring[ptr := pipeline[pipePtr]];
      pipePtr := (pipePtr + 1) % pipeline.Length;
      dout := pipeline[pipePtr];
    }

    // Overwriting the slot at the pointer and moving the pointer on is, seen as a line,
    // dropping the oldest entry and appending a new one.
    static lemma Rotate(ring: seq<Row>, ptr: nat, captured: Row)
      requires ptr < |ring|
      ensures var ring', ptr' := ring[ptr := captured], (ptr + 1) % |ring|;
              && ring'[ptr'..] + ring'[..ptr'] == (ring[ptr..] + ring[..ptr])[1..] + [captured]
              && ring'[ptr'] == ((ring[ptr..] + ring[..ptr])[1..] + [captured])[0]
              && (ring[ptr..] + ring[..ptr])[0] == ring[ptr]
    {
      if ptr + 1 < |ring| {
        RotateInside(ring, ptr, captured);
      } else {
        RotateAround(ring, captured);
      }
    }

    static lemma RotateInside(ring: seq<Row>, ptr: nat, captured: Row)
      requires ptr + 1 < |ring|
      ensures (ptr + 1) % |ring| == ptr + 1
      ensures var ring' := ring[ptr := captured];
              ring'[ptr + 1..] + ring'[..ptr + 1] == (ring[ptr..] + ring[..ptr])[1..] + [captured]
    {
      var ring' := ring[ptr := captured];
      assert ring'[ptr + 1..] == ring[ptr + 1..];
      assert ring'[..ptr + 1] == ring[..ptr] + [captured];
      WithoutFirst(ring[ptr..], ring[..ptr]);
      assert ring[ptr..][1..] == ring[ptr + 1..];
      Associates(ring[ptr + 1..], ring[..ptr], [captured]);
    }

    static lemma WithoutFirst(a: seq<Row>, b: seq<Row>)
      requires a != []
      ensures (a + b)[1..] == a[1..] + b
    {}

    static lemma Associates(a: seq<Row>, b: seq<Row>, c: seq<Row>)
      ensures a + (b + c) == a + b + c
    {
    }

    static lemma RotateAround(ring: seq<Row>, captured: Row)
      requires ring != []
      ensures var last := |ring| - 1;
              && (last + 1) % |ring| == 0
              && ring[last := captured] == (ring[last..] + ring[..last])[1..] + [captured]
    {}
  }
}
