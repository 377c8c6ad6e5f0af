// CacheProject of warmup-project/cache.h as it is written: the registers and the signals
// to write, updated step by step, and the two ways of memories they are wired to.
module CacheControllerModel {
  import opened CacheSpec
  import opened SramModel
  import opened CacheMachine

  class Controller {
    // the Delay constant of the memories
    const delay: nat

    // The registers (r.temptag is the entry of way 1), the tag read from way 2, the set
    // selector, and the signals as written so far in this clock cycle.
    var r: Registers
    var temptag2: Address
    var selected: int
    var s: Signals

    ghost predicate Valid()
      reads this
    {
      ControlValid(r, s) && 0 <= selected <= 1 && r.temptag == temptag2
    }

    constructor (delay: nat)
      ensures Valid() && this.delay == delay
      ensures r == InitialRegisters() && s == InitialSignals()
    {
      this.delay := delay;
      r, temptag2, selected, s := InitialRegisters(), 0, 0, InitialSignals();
    }

    // One call of work(). At its start the written signals are the visible ones; the two
    // ways are mirror images, so their outputs agree.
    method Work(input: Input, outs1: Douts, outs2: Douts)
      requires Valid() && outs1 == outs2
      modifies this
      ensures Valid()
      ensures (r, s) == ControlStep(old(r), old(s), outs1, input, delay)
    {
      ghost var r0, s0 := r, s;
      StaysValid(r0, s0, outs1, input, delay);
      var available := s.portAvailable;
      if r.deassert {
        s := s.(outReady := false);
        r := r.(deassert := false);
      }
      if r.waitdelay > 0 {
        r := r.(waitdelay := r.waitdelay - 1);
        s := s.(portAvailable := false, outReady := false);
        return;
      }
      s := s.(portAvailable := true);
      Opened(r0, s0, outs1, delay);
      if r.operation != 0 {
        Serve(outs1, outs2);
      }
      if input.Submit? && available {
        OpenedAccept(r0, s0, input.req, delay);
        Accept(input.req);
      }
    }

    // Clearing the reply and offering the port first makes no difference to what a request
    // in service or a new request does next.
    static lemma Opened(r: Registers, s: Signals, outs: Douts, d: nat)
      ensures var r1, s1 := r.(deassert := false), s.(portAvailable := true, outReady := s.outReady && !r.deassert);
              && InSecondPass(r1, outs) == InSecondPass(r, outs)
              && SecondPassStep(r1, s1, outs, d) == SecondPassStep(r, s, outs, d)
              && ReplyStep(r1, s1, outs) == ReplyStep(r, s, outs)
    {}

    static lemma OpenedAccept(r: Registers, s: Signals, q: Request, d: nat)
      ensures var r1, s1 := r.(deassert := false), s.(portAvailable := true, outReady := s.outReady && !r.deassert);
              && (Classify(q) != Ignored ==> AcceptStep(r1, s1, q, d) == AcceptStep(r, s, q, d))
              && (Classify(q) == Ignored ==> AcceptStep(r1, s1, q, d) == (r1, s1))
    {}

    // The request in service, once the memories have had their time.
    method Serve(outs1: Douts, outs2: Douts)
      requires outs1 == outs2 && 1 <= r.operation <= 4 && (r.operation >= WRITE ==> r.opstate == 1 || r.opstate == 2)
      requires s.portAvailable && !r.deassert && r.temptag == temptag2 && 0 <= selected <= 1
      modifies this`r, this`s, this`temptag2, this`selected
      ensures InSecondPass(old(r), outs1) ==> (r, s) == SecondPassStep(old(r), old(s), outs1, delay)
      ensures !InSecondPass(old(r), outs1) ==> (r, s) == ReplyStep(old(r), old(s), outs1)
      ensures r.temptag == temptag2 && 0 <= selected <= 1
    {
      if r.operation == INSERT {
        ReplyInsert(outs1, outs2);
      } else if r.operation == READ {
        ReplyRead(outs1, outs2);
      } else if r.operation == WRITE {
        ProbeWrite(outs1, outs2);
      } else if r.operation == UPDATE {
        UpdateState(outs1, outs2);
      }
    }

    method ReplyInsert(outs1: Douts, outs2: Douts)
      requires outs1 == outs2 && r.temptag == temptag2 && s.portAvailable
      modifies this`r, this`s
      ensures (r, s) == InsertReply(old(r), old(s), outs1)
    {
      s := s.(state := s.state.(ena := false, we := false));
      s := s.(data := s.data.(ena := false, we := false));
      s := s.(tag := s.tag.(ena := false, we := false));
      s := s.(outReady := true);
      r := r.(deassert := true);
      s := s.(out := s.out.(state := if selected == 0 then outs1.state else outs2.state));
      s := s.(out := s.out.(token := r.servaddr));
      s := s.(out := s.out.(addr := if selected == 0 then r.temptag else temptag2));
      r := r.(opstate := 0, operation := 0, waitdelay := 0);
    }

    method ReplyRead(outs1: Douts, outs2: Douts)
      requires outs1 == outs2 && s.portAvailable && 0 <= selected <= 1
      modifies this`r, this`s, this`temptag2, this`selected
      ensures (r, s) == ReadReply(old(r), old(s), outs1)
      ensures r.temptag == temptag2 && 0 <= selected <= 1
    {
      r, temptag2 := r.(temptag := outs1.tag), outs2.tag;
      var inWay1 := r.temptag == TagOf(r.servaddr);
      if inWay1 || temptag2 == TagOf(r.servaddr) {
        selected := (selected + 1) % 2;
        s := s.(out := if inWay1 then Outputs(outs1.state, r.servaddr, r.temptag, outs1.data)
                       else Outputs(outs2.state, r.servaddr, temptag2, outs2.data));
      } else {
        s := s.(out := Outputs(MISS, r.servaddr, if selected == 0 then r.temptag else temptag2,
                               if selected == 0 then outs1.data else outs2.data));
      }
      s := s.(outReady := true);
      r := r.(deassert := true, operation := 0, opstate := 0);
      s := s.(data := s.data.(ena := false));
      s := s.(state := s.state.(ena := false));
      s := s.(tag := s.tag.(ena := false));
      r := r.(waitdelay := 0);
    }

    // The write probe: its first pass has read the tags, its second pass has written.
    method ProbeWrite(outs1: Douts, outs2: Douts)
      requires outs1 == outs2 && r.operation == WRITE && s.portAvailable && !r.deassert
      requires r.temptag == temptag2 && 0 <= selected <= 1 && (r.opstate == 1 || r.opstate == 2)
      modifies this`r, this`s, this`temptag2, this`selected
      ensures old(r).opstate == 1 && TagMatches(old(r), outs1) ==>
                (r, s) == SecondPassStep(old(r), old(s), outs1, delay)
      ensures old(r).opstate == 1 && !TagMatches(old(r), outs1) ==> (r, s) == MissReply(old(r), old(s), outs1)
      ensures old(r).opstate == 2 ==> (r, s) == PassReply(old(r), old(s), outs1)
      ensures r.temptag == temptag2 && 0 <= selected <= 1
    {
      if r.opstate == 1 {
        s := s.(tag := s.tag.(ena := false, we := false), outReady := false);
        r, temptag2 := r.(temptag := outs1.tag), outs2.tag;
        if r.temptag == TagOf(r.servaddr) || temptag2 == TagOf(r.servaddr) {
          selected := (selected + 1) % 2;
          s := s.(state := Port(true, true, IndexOf(r.servaddr), r.newstate));
          s := s.(data := Port(true, true, IndexOf(r.servaddr), r.newdata));
          r := r.(opstate := 2, waitdelay := delay);
          s := s.(portAvailable := false);
        } else {
          ReportMiss();
        }
      } else {
        s := s.(state := s.state.(ena := false, we := false));
        s := s.(data := s.data.(ena := false, we := false));
        ReportState(outs1, outs2);
      }
    }

    // The state update: like the write probe, without data and without moving the selector.
    method UpdateState(outs1: Douts, outs2: Douts)
      requires outs1 == outs2 && r.operation == UPDATE && s.portAvailable && !r.deassert
      requires r.temptag == temptag2 && (r.opstate == 1 || r.opstate == 2)
      modifies this`r, this`s, this`temptag2
      ensures old(r).opstate == 1 && TagMatches(old(r), outs1) ==>
                (r, s) == SecondPassStep(old(r), old(s), outs1, delay)
      ensures old(r).opstate == 1 && !TagMatches(old(r), outs1) ==> (r, s) == MissReply(old(r), old(s), outs1)
      ensures old(r).opstate == 2 ==> (r, s) == PassReply(old(r), old(s), outs1)
      ensures r.temptag == temptag2
    {
      if r.opstate == 1 {
        s := s.(tag := s.tag.(ena := false, we := false), outReady := false);
        r, temptag2 := r.(temptag := outs1.tag), outs2.tag;
        if r.temptag == TagOf(r.servaddr) || temptag2 == TagOf(r.servaddr) {
          s := s.(state := Port(true, true, IndexOf(r.servaddr), r.newstate));
          r := r.(opstate := 2, waitdelay := delay);
          s := s.(portAvailable := false);
        } else {
          ReportMiss();
        }
      } else {
        s := s.(state := s.state.(ena := false, we := false));
        ReportState(outs1, outs2);
      }
    }

    method ReportMiss()
      requires r.temptag == temptag2
      modifies this`r, this`s
      ensures r == Done(old(r))
      ensures s == old(s).(outReady := true, out := Outputs(MISS, r.servaddr, r.temptag, old(s).out.data))
    {
      s := s.(outReady := true);
      r := r.(deassert := true);
      s := s.(out := s.out.(state := MISS));
      s := s.(out := s.out.(token := r.servaddr));
      s := s.(out := s.out.(addr := if selected == 0 then r.temptag else temptag2));
      r := r.(waitdelay := 0, operation := 0, opstate := 0);
    }

    method ReportState(outs1: Douts, outs2: Douts)
      requires r.temptag == temptag2 && outs1 == outs2
      modifies this`r, this`s
      ensures r == Done(old(r))
      ensures s == old(s).(outReady := true, out := Outputs(outs1.state, r.servaddr, r.temptag, old(s).out.data))
    {
      s := s.(outReady := true);
      r := r.(deassert := true);
      s := s.(out := s.out.(state := if selected == 0 then outs1.state else outs2.state));
      s := s.(out := s.out.(token := r.servaddr));
      s := s.(out := s.out.(addr := if selected == 0 then r.temptag else temptag2));
      r := r.(opstate := 0, operation := 0, waitdelay := 0);
    }

    method Accept(q: Request)
      requires !r.deassert
      modifies this`r, this`s
      ensures (r, s) == AcceptStep(old(r), old(s), q, delay)
    {
      if q.isInsert && q.hasData && q.updateState {
        r := r.(operation := INSERT, opstate := 0, waitdelay := delay);
        r := r.(servaddr := q.addr, newstate := q.newState, newdata := q.data);
        s := s.(data := Port(true, true, IndexOf(r.servaddr), r.newdata));
        s := s.(state := Port(true, true, IndexOf(r.servaddr), r.newstate));
        s := s.(tag := Port(true, true, IndexOf(r.servaddr), TagOf(r.servaddr)));
        s := s.(portAvailable := false, outReady := false);
      } else if q.needsData {
        r := r.(servaddr := q.addr, waitdelay := delay, operation := READ, opstate := 0);
        s := s.(data := s.data.(ena := true, addr := IndexOf(r.servaddr)));
        s := s.(state := s.state.(ena := true, addr := IndexOf(r.servaddr)));
        s := s.(tag := s.tag.(ena := true, addr := IndexOf(r.servaddr)));
        s := s.(portAvailable := false, outReady := false);
      } else if q.hasData && q.updateState {
        r := r.(operation := WRITE, opstate := 1, waitdelay := delay);
        r := r.(servaddr := q.addr, newstate := q.newState, newdata := q.data);
        s := s.(tag := s.tag.(ena := true, addr := IndexOf(r.servaddr)));
        s := s.(portAvailable := false, outReady := false);
      } else if q.updateState {
        r := r.(operation := UPDATE, opstate := 1, waitdelay := delay);
        r := r.(servaddr := q.addr, newstate := q.newState);
        s := s.(tag := s.tag.(ena := true, addr := IndexOf(r.servaddr)));
        s := s.(portAvailable := false, outReady := false);
      }
    }
  }
}
