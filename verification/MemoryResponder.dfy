// core-project/memory.cc: the memory answers each port's requests after the latency its
// caches give, merging requests for an address that is already on its way.
module MemoryModel {
  import opened LruSetModel
  import opened DirtyMarks
  import opened Channels
  import opened ReplySideModel
  import opened MachineWords
  import opened WordStore

  const NS: int := 1000  // picoseconds
  const L2_SIZE: nat := 1024

  // What a reply port shows when it is ready.
  datatype Output = Output(tag: Tag, data: nat)

  // The addresses the memory does not reject: aligned, in range and not in the first pages.
  ghost predicate Accessible(addr: Addr, width: int)
    requires width > 0
  {
    0xffff < addr < MEM_SIZE && addr % width == 0
  }

  ghost predicate AllAccessible(bucket: seq<Entry>, width: int)
    requires width > 0
  {
    forall e :: e in bucket ==> Accessible(e.addr, width)
  }

  lemma DeliverKeepsAccessible(c: Channel, c': Channel, now: int, out: Option<Reply>, width: int)
    requires width > 0 && AllAccessible(c.bucket, width) && Delivers(c, c', now, out)
    ensures AllAccessible(c'.bucket, width)
    ensures out.Some? ==> Accessible(out.value.addr, width)
  {
    if out.Some? {
      var i: nat :| DeliversEntry(c, c', now, out.value, i);
      assert c.bucket[i] in c.bucket;
    }
  }

  lemma InRangeOfMemory(addr: Addr)
    requires Accessible(addr, INST_BYTES)
    ensures IsInstAddress(addr, MEM_SIZE)
  {}

  ghost predicate DataOutput(out: Option<Output>, reply: Option<Reply>, words: map<Addr, Word>) {
    match reply
    case None => out.None?
    case Some(r) => r.addr in words && out == Some(Output(r.tag, words[r.addr]))
  }

  ghost predicate InstOutput(out: Option<Output>, reply: Option<Reply>, bytes: seq<Byte>) {
    match reply
    case None => out.None?
    case Some(r) => IsInstAddress(r.addr, |bytes|) && out == Some(Output(r.tag, InstAt(bytes, r.addr)))
  }

  ghost predicate DataOutputs(outs: seq<Option<Output>>, replies: seq<Option<Reply>>, words: map<Addr, Word>) {
    |outs| == |replies| && forall p :: 0 <= p < |outs| ==> DataOutput(outs[p], replies[p], words)
  }

  ghost predicate InstOutputs(outs: seq<Option<Output>>, replies: seq<Option<Reply>>, bytes: seq<Byte>) {
    |outs| == |replies| && forall p :: 0 <= p < |outs| ==> InstOutput(outs[p], replies[p], bytes)
  }

  // The requests of the ports that ask for something, in port order.
  ghost function Requested(reqs: seq<Request>): seq<Reply> {
    if reqs == [] then []
    else
      var front, last := Requested(reqs[..|reqs| - 1]), reqs[|reqs| - 1];
      if last.Idle? then front else front + [Reply(last.tag, last.addr)]
  }

  // The same as arrivals, each with the latency it was given.
  ghost predicate Arrive(arrivals: seq<Arrival>, reqs: seq<Request>, least: int, most: int) {
    && |arrivals| == |Requested(reqs)|
    && forall i :: 0 <= i < |arrivals| ==>
        && Reply(arrivals[i].tag, arrivals[i].addr) == Requested(reqs)[i]
        && least * NS <= arrivals[i].latency <= most * NS
  }

  lemma ArriveOneMore(arrivals: seq<Arrival>, reqs: seq<Request>, least: int, most: int, p: nat, latency: int)
    requires p < |reqs| && Arrive(arrivals, reqs[..p], least, most)
    requires least * NS <= latency <= most * NS
    ensures reqs[p].Idle? ==> Arrive(arrivals, reqs[..p + 1], least, most)
    ensures !reqs[p].Idle? ==>
              Arrive(arrivals + [Arrival(reqs[p].tag, reqs[p].addr, latency)], reqs[..p + 1], least, most)
  {
    assert reqs[..p + 1][..p] == reqs[..p];
  }

  lemma AcceptOneMore(c: Channel, now: int, arrivals: seq<Arrival>, a: Arrival)
    ensures AcceptAll(c, now, arrivals + [a]) == Accept(AcceptAll(c, now, arrivals), now, a)
  {
    assert (arrivals + [a])[..|arrivals|] == arrivals;
  }

  lemma DeliverOneMore(c: Channel, mid: Channel, c': Channel, now: int, outs: seq<Option<Reply>>, out: Option<Reply>)
    requires DeliversAll(c, mid, now, outs) && Delivers(mid, c', now, out)
    ensures DeliversAll(c, c', now, outs + [out])
  {
    assert (outs + [out])[..|outs|] == outs;
  }

  lemma WriteOneMore(words: map<Addr, Word>, reqs: seq<Request>, p: nat)
    requires p < |reqs|
    ensures WriteAll(words, reqs[..p + 1]) == WriteOne(WriteAll(words, reqs[..p]), reqs[p])
  {
    assert reqs[..p + 1][..p] == reqs[..p];
  }

  lemma {:induction false} WriteConcat(words: map<Addr, Word>, a: seq<Request>, b: seq<Request>)
    ensures WriteAll(words, a + b) == WriteAll(WriteAll(words, a), b)
    decreases |b|
  {
    if b == [] {
      assert a + b == a;
    } else {
      assert (a + b)[..|a + b| - 1] == a + b[..|b| - 1];
      WriteConcat(words, a, b[..|b| - 1]);
    }
  }

  class Memory {
    const iSide: ReplySide
    const dSide: ReplySide
    const l1i: LruSet<Addr, Dirty>
    const l1d: LruSet<Addr, Dirty>
    const l2: LruSet<Addr, Dirty>
    const mem: array<Byte>

    // The addresses each cache was asked for so far, which of the data accesses write, and
    // the data requests so far.
    ghost var iTrace: seq<Addr>
    ghost var dTrace: seq<Addr>
    ghost var dWrites: seq<bool>
    ghost var l2Trace: seq<Addr>
    ghost var accepted: seq<Request>
    ghost const initial: map<Addr, Word>

    ghost predicate Separate() {
      && iSide != dSide && iSide.resp != dSide.resp
      && l1i != l1d && l1i != l2 && l1d != l2
      && mem.Length == MEM_SIZE
    }

    // Each set is as `get`, and `put` on a miss, leave it after its trace.
    ghost predicate CachesValid()
      reads this, l1i, l1d, l2
    {
      && l1i.Valid() && l1i.capacity == L1_SIZE && LeftBy(l1i.Keys(), L1_SIZE, iTrace)
      && l1d.Valid() && l1d.capacity == L1_SIZE && LeftBy(l1d.Keys(), L1_SIZE, dTrace)
      && Marked(l1d.entries, dTrace, dWrites)
      && l2.Valid() && l2.capacity == L2_SIZE && LeftBy(l2.Keys(), L2_SIZE, l2Trace)
    }

    ghost predicate Valid()
      reads this, iSide, iSide.resp, dSide, dSide.resp, l1i, l1d, l2, mem
    {
      && Separate() && CachesValid()
      && Covered(iSide.View()) && AllAccessible(iSide.View().bucket, INST_BYTES)
      && Covered(dSide.View()) && AllAccessible(dSide.View().bucket, WORD_BYTES)
      && Words(mem[..]) == WriteAll(initial, accepted)
    }

    constructor (image: array<Byte>)
      requires image.Length == MEM_SIZE
      ensures Valid() && mem == image && accepted == []
      ensures iSide.View() == dSide.View() == Channel([], map[])
      ensures fresh(iSide) && fresh(iSide.resp) && fresh(dSide) && fresh(dSide.resp) &&
              fresh(l1i) && fresh(l1d) && fresh(l2)
    {
      iSide := new ReplySide();
      dSide := new ReplySide();
      l1i := new LruSet(L1_SIZE);
      l1d := new LruSet(L1_SIZE);
      l2 := new LruSet(L2_SIZE);
      mem := image;
      iTrace, dTrace, dWrites, l2Trace, accepted := [], [], [], [], [];
      initial := Words(image[..]);
    }

    // memory.cc:123-135: one data port.
    method DeliverDataPort(now: int) returns (out: Option<Output>, ghost reply: Option<Reply>)
      requires Separate() && AllAccessible(dSide.View().bucket, WORD_BYTES)
      modifies dSide, dSide.resp
      ensures Delivers(old(dSide.View()), dSide.View(), now, reply)
      ensures AllAccessible(dSide.View().bucket, WORD_BYTES)
      ensures DataOutput(out, reply, Words(mem[..]))
    {
      ghost var before := dSide.View();
      var ready := dSide.Deliver(now);
      reply := ready;
      DeliverKeepsAccessible(before, dSide.View(), now, ready, WORD_BYTES);
      out := None;
      if ready.Some? {
        var data := MemDRead(mem, ready.value.addr);
        out := Some(Output(ready.value.tag, data));
      }
    }

    // memory.cc:122-136
    method DeliverData(now: int, ports: nat) returns (outs: seq<Option<Output>>, ghost replies: seq<Option<Reply>>)
      requires Separate() && AllAccessible(dSide.View().bucket, WORD_BYTES)
      modifies dSide, dSide.resp
      ensures |outs| == |replies| == ports
      ensures DeliversAll(old(dSide.View()), dSide.View(), now, replies)
      ensures AllAccessible(dSide.View().bucket, WORD_BYTES)
      ensures DataOutputs(outs, replies, Words(mem[..]))
    {
      outs, replies := [], [];
      ghost var words := Words(mem[..]);
      for port := 0 to ports
        invariant |outs| == |replies| == port
        invariant DeliversAll(old(dSide.View()), dSide.View(), now, replies)
        invariant AllAccessible(dSide.View().bucket, WORD_BYTES)
        invariant DataOutputs(outs, replies, words)
      {
        ghost var mid := dSide.View();
        var out, ready := DeliverDataPort(now);
        DeliverOneMore(old(dSide.View()), mid, dSide.View(), now, replies, ready);
        outs, replies := outs + [out], replies + [ready];
      }
    }

    // memory.cc:108-120: one instruction port.
    method DeliverInstPort(now: int) returns (out: Option<Output>, ghost reply: Option<Reply>)
      requires Separate() && AllAccessible(iSide.View().bucket, INST_BYTES)
      modifies iSide, iSide.resp
      ensures Delivers(old(iSide.View()), iSide.View(), now, reply)
      ensures AllAccessible(iSide.View().bucket, INST_BYTES)
      ensures InstOutput(out, reply, mem[..])
    {
      ghost var before := iSide.View();
      var ready := iSide.Deliver(now);
      reply := ready;
      DeliverKeepsAccessible(before, iSide.View(), now, ready, INST_BYTES);
      out := None;
      if ready.Some? {
        InRangeOfMemory(ready.value.addr);
        var data := MemIRead(mem, ready.value.addr);
        out := Some(Output(ready.value.tag, data));
      }
    }

    // memory.cc:107-121
    method DeliverInst(now: int, ports: nat) returns (outs: seq<Option<Output>>, ghost replies: seq<Option<Reply>>)
      requires Separate() && AllAccessible(iSide.View().bucket, INST_BYTES)
      modifies iSide, iSide.resp
      ensures |outs| == |replies| == ports
      ensures DeliversAll(old(iSide.View()), iSide.View(), now, replies)
      ensures AllAccessible(iSide.View().bucket, INST_BYTES)
      ensures InstOutputs(outs, replies, mem[..])
    {
      outs, replies := [], [];
      ghost var bytes := mem[..];
      for port := 0 to ports
        invariant |outs| == |replies| == port
        invariant DeliversAll(old(iSide.View()), iSide.View(), now, replies)
        invariant AllAccessible(iSide.View().bucket, INST_BYTES)
        invariant InstOutputs(outs, replies, bytes)
      {
        ghost var mid := iSide.View();
        var out, ready := DeliverInstPort(now);
        DeliverOneMore(old(iSide.View()), mid, iSide.View(), now, replies, ready);
        outs, replies := outs + [out], replies + [ready];
      }
    }

    // memory.cc:145-155: the latency of a fetch.
    method LookupInst(addr: Addr) returns (latency: int)
      requires l1i != l2 && l1i.Valid() && l2.Valid()
      modifies l1i, l2
      ensures l1i.Valid() && l2.Valid()
      ensures l1i.Keys() == Use(old(l1i.Keys()), l1i.capacity, addr)
      ensures l2.Keys() == if addr in old(l1i.Keys()) then old(l2.Keys()) else Use(old(l2.Keys()), l2.capacity, addr)
      ensures latency == if addr in old(l1i.Keys()) then 2 else if addr in old(l2.Keys()) then 11 else 111
    {
      latency := 2;
      var inL1 := l1i.Get(addr, true);
      if inL1.None? {
        latency := latency + 9;
        var _ := l1i.PutAbsent(addr, Clean);
        var inL2 := l2.Get(addr, true);
        if inL2.None? {
          latency := latency + 100;
          var _ := l2.PutAbsent(addr, Clean);
        }
      }
    }

    // The first-level data cache would give up a dirty entry.
    ghost predicate DirtyVictim()
      reads l1d
    {
      |l1d.entries| == l1d.capacity > 0 && l1d.entries[0].1 == Dirty
    }

    // memory.cc:180-192: the second level after a miss in the first.
    method LookupBelow(addr: Addr, dirty: bool) returns (found: bool)
      requires l2.Valid()
      modifies l2
      ensures l2.Valid() && l2.Keys() == Use(old(l2.Keys()), l2.capacity, addr)
      ensures found <==> addr in old(l2.Keys()) || dirty
    {
      UseTwice(l2.Keys(), l2.capacity, addr);
      if dirty {
        var below := l2.Get(addr, false);
        if below.None? {
          var _ := l2.PutAbsent(addr, Dirty);
        } else {
          l2.Assign(addr, Dirty);
        }
      }
      var inL2 := l2.Get(addr, true);
      found := inL2.Some?;
      if inL2.None? {
        var _ := l2.PutAbsent(addr, Clean);
      }
    }

    // memory.cc:175-194: the latency of a data request.
    method LookupData(addr: Addr, write: bool) returns (latency: int)
      requires l1d != l2 && l1d.Valid() && l2.Valid()
      modifies l1d, l2
      ensures l1d.Valid() && l2.Valid()
      ensures l1d.Keys() == Use(old(l1d.Keys()), l1d.capacity, addr)
      ensures l2.Keys() == if addr in old(l1d.Keys()) then old(l2.Keys()) else Use(old(l2.Keys()), l2.capacity, addr)
      ensures latency == if addr in old(l1d.Keys()) then 3
                         else if addr in old(l2.Keys()) || old(DirtyVictim()) then 12
                         else 112
      ensures Remarked(old(l1d.entries), l1d.entries, addr, write)
    {
      latency := 3;
      ghost var before := l1d.entries;
      var inL1 := l1d.Get(addr, true);
      if inL1.None? {
        latency := latency + 9;
        var victim := l1d.PutAbsent(addr, if write then Dirty else Clean);
        RemarkedInsert(before, if victim.Some? then before[1..] else before, addr, write);
        var found := LookupBelow(addr, victim.Some? && victim.value.1 == Dirty);
        if !found {
          latency := latency + 100;
        }
      } else {
        ghost var found := l1d.entries;
        if write {
          l1d.Assign(addr, Dirty);
        }
        RemarkedHit(before, found, l1d.entries, addr, write);
      }
    }

    // A lookup, recorded in the traces.
    method AskInst(addr: Addr) returns (latency: int)
      requires Separate() && CachesValid()
      modifies l1i, l2, this`iTrace, this`l2Trace
      ensures CachesValid()
      ensures iTrace == old(iTrace) + [addr]
      ensures l2Trace == old(l2Trace) + (if addr in old(l1i.Keys()) then [] else [addr])
      ensures latency == if addr in old(l1i.Keys()) then 2 else if addr in old(l2.Keys()) then 11 else 111
    {
      ghost var keys, keys2 := l1i.Keys(), l2.Keys();
      latency := LookupInst(addr);
      LeftByOneMore(keys, L1_SIZE, iTrace, addr);
      LeftByOneMore(keys2, L2_SIZE, l2Trace, addr);
      iTrace := iTrace + [addr];
      if addr !in keys {
        l2Trace := l2Trace + [addr];
      }
    }

    method AskData(addr: Addr, write: bool) returns (latency: int)
      requires Separate() && CachesValid()
      modifies l1d, l2, this`dTrace, this`dWrites, this`l2Trace
      ensures CachesValid()
      ensures dTrace == old(dTrace) + [addr] && dWrites == old(dWrites) + [write]
      ensures l2Trace == old(l2Trace) + (if addr in old(l1d.Keys()) then [] else [addr])
      ensures latency == if addr in old(l1d.Keys()) then 3
                         else if addr in old(l2.Keys()) || old(DirtyVictim()) then 12
                         else 112
    {
      ghost var keys, keys2, entries := l1d.Keys(), l2.Keys(), l1d.entries;
      latency := LookupData(addr, write);
      LeftByOneMore(keys, L1_SIZE, dTrace, addr);
      LeftByOneMore(keys2, L2_SIZE, l2Trace, addr);
      MarkedOnceMore(entries, l1d.entries, dTrace, dWrites, addr, write);
      dTrace, dWrites := dTrace + [addr], dWrites + [write];
      if addr !in keys {
        l2Trace := l2Trace + [addr];
      }
    }

    // memory.cc:139-159: one instruction port. A request for an address on its way is
    // merged; another one asks the caches and is sent on its way.
    method AcceptInst(now: int, r: Request) returns (ghost latency: int)
      requires r.Read? && Accessible(r.addr, INST_BYTES)
      requires Separate() && CachesValid() && AllAccessible(iSide.View().bucket, INST_BYTES)
      modifies iSide, iSide.resp, l1i, l2, this`iTrace, this`l2Trace
      ensures CachesValid() && AllAccessible(iSide.View().bucket, INST_BYTES)
      ensures iSide.View() == Accept(old(iSide.View()), now, Arrival(r.tag, r.addr, latency))
      ensures r.addr in old(iSide.mshr) ==> iTrace == old(iTrace) && l2Trace == old(l2Trace)
      ensures r.addr !in old(iSide.mshr) ==> iTrace == old(iTrace) + [r.addr]
      ensures r.addr !in old(iSide.mshr) ==>
                l2Trace == old(l2Trace) + (if r.addr in old(l1i.Keys()) then [] else [r.addr])
      ensures r.addr !in old(iSide.mshr) ==>
                latency == NS * if r.addr in old(l1i.Keys()) then 2 else if r.addr in old(l2.Keys()) then 11 else 111
      ensures 2 * NS <= latency <= 111 * NS
    {
      if r.addr in iSide.mshr {
        latency := 2 * NS;
        iSide.Merge(r.tag, r.addr, now, latency);
        return;
      }
      var wait := AskInst(r.addr);
      latency := wait * NS;
      iSide.Send(r.tag, r.addr, now, wait * NS);
    }

    // memory.cc:163-197: one data port. A write is stored at once, even when its request is
    // merged.
    method AcceptData(now: int, r: Request) returns (ghost latency: int)
      requires !r.Idle? && Accessible(r.addr, WORD_BYTES)
      requires Separate() && CachesValid() && AllAccessible(dSide.View().bucket, WORD_BYTES)
      modifies dSide, dSide.resp, l1d, l2, mem, this`dTrace, this`dWrites, this`l2Trace
      ensures CachesValid() && AllAccessible(dSide.View().bucket, WORD_BYTES)
      ensures dSide.View() == Accept(old(dSide.View()), now, Arrival(r.tag, r.addr, latency))
      ensures Words(mem[..]) == WriteOne(old(Words(mem[..])), r)
      ensures r.addr in old(dSide.mshr) ==> dTrace == old(dTrace) && dWrites == old(dWrites) && l2Trace == old(l2Trace)
      ensures r.addr !in old(dSide.mshr) ==> dTrace == old(dTrace) + [r.addr] && dWrites == old(dWrites) + [r.Write?]
      ensures r.addr !in old(dSide.mshr) ==>
                l2Trace == old(l2Trace) + (if r.addr in old(l1d.Keys()) then [] else [r.addr])
      ensures r.addr !in old(dSide.mshr) ==>
                latency == NS * if r.addr in old(l1d.Keys()) then 3
                                else if r.addr in old(l2.Keys()) || old(DirtyVictim()) then 12
                                else 112
      ensures 3 * NS <= latency <= 112 * NS
    {
      if r.Write? {
        MemDWrite(mem, r.addr, r.data);
      }
      if r.addr in dSide.mshr {
        latency := 3 * NS;
        dSide.Merge(r.tag, r.addr, now, latency);
      } else {
        latency := SendData(now, r);
      }
    }

    // memory.cc:175-197: a data request that is not merged.
    method SendData(now: int, r: Request) returns (ghost latency: int)
      requires !r.Idle? && Accessible(r.addr, WORD_BYTES) && r.addr !in dSide.mshr
      requires Separate() && CachesValid() && AllAccessible(dSide.View().bucket, WORD_BYTES)
      modifies dSide, dSide.resp, l1d, l2, this`dTrace, this`dWrites, this`l2Trace
      ensures CachesValid() && AllAccessible(dSide.View().bucket, WORD_BYTES)
      ensures dSide.View() == Accept(old(dSide.View()), now, Arrival(r.tag, r.addr, latency))
      ensures dTrace == old(dTrace) + [r.addr] && dWrites == old(dWrites) + [r.Write?]
      ensures l2Trace == old(l2Trace) + (if r.addr in old(l1d.Keys()) then [] else [r.addr])
      ensures latency == NS * if r.addr in old(l1d.Keys()) then 3
                              else if r.addr in old(l2.Keys()) || old(DirtyVictim()) then 12
                              else 112
    {
      var wait := AskData(r.addr, r.Write?);
      latency := wait * NS;
      dSide.Send(r.tag, r.addr, now, wait * NS);
    }

    // memory.cc:138-160
    method AcceptAllInst(now: int, reqs: seq<Request>) returns (ghost arrivals: seq<Arrival>)
      requires forall p :: 0 <= p < |reqs| ==> reqs[p].Idle? || (reqs[p].Read? && Accessible(reqs[p].addr, INST_BYTES))
      requires Separate() && CachesValid() && AllAccessible(iSide.View().bucket, INST_BYTES)
      modifies iSide, iSide.resp, l1i, l2, this`iTrace, this`l2Trace
      ensures CachesValid() && AllAccessible(iSide.View().bucket, INST_BYTES)
      ensures iSide.View() == AcceptAll(old(iSide.View()), now, arrivals)
      ensures Arrive(arrivals, reqs, 2, 111)
    {
      arrivals := [];
      for port := 0 to |reqs|
        invariant CachesValid() && AllAccessible(iSide.View().bucket, INST_BYTES)
        invariant iSide.View() == AcceptAll(old(iSide.View()), now, arrivals)
        invariant Arrive(arrivals, reqs[..port], 2, 111)
      {
        ghost var latency := 2 * NS;
        if !reqs[port].Idle? {
          latency := AcceptInst(now, reqs[port]);
          AcceptOneMore(old(iSide.View()), now, arrivals, Arrival(reqs[port].tag, reqs[port].addr, latency));
        }
        ArriveOneMore(arrivals, reqs, 2, 111, port, latency);
        arrivals := if reqs[port].Idle? then arrivals
                    else arrivals + [Arrival(reqs[port].tag, reqs[port].addr, latency)];
      }
      assert reqs[..|reqs|] == reqs;
    }

    // memory.cc:162-198
    method AcceptAllData(now: int, reqs: seq<Request>) returns (ghost arrivals: seq<Arrival>)
      requires forall p :: 0 <= p < |reqs| ==> reqs[p].Idle? || Accessible(reqs[p].addr, WORD_BYTES)
      requires Separate() && CachesValid() && AllAccessible(dSide.View().bucket, WORD_BYTES)
      modifies dSide, dSide.resp, l1d, l2, mem, this`dTrace, this`dWrites, this`l2Trace
      ensures CachesValid() && AllAccessible(dSide.View().bucket, WORD_BYTES)
      ensures dSide.View() == AcceptAll(old(dSide.View()), now, arrivals)
      ensures Arrive(arrivals, reqs, 3, 112)
      ensures Words(mem[..]) == WriteAll(old(Words(mem[..])), reqs)
    {
      arrivals := [];
      for port := 0 to |reqs|
        invariant CachesValid() && AllAccessible(dSide.View().bucket, WORD_BYTES)
        invariant dSide.View() == AcceptAll(old(dSide.View()), now, arrivals)
        invariant Arrive(arrivals, reqs[..port], 3, 112)
        invariant Words(mem[..]) == WriteAll(old(Words(mem[..])), reqs[..port])
      {
        ghost var latency := 3 * NS;
        WriteOneMore(old(Words(mem[..])), reqs, port);
        if !reqs[port].Idle? {
          latency := AcceptData(now, reqs[port]);
          AcceptOneMore(old(dSide.View()), now, arrivals, Arrival(reqs[port].tag, reqs[port].addr, latency));
        }
        ArriveOneMore(arrivals, reqs, 3, 112, port, latency);
        arrivals := if reqs[port].Idle? then arrivals
                    else arrivals + [Arrival(reqs[port].tag, reqs[port].addr, latency)];
      }
      assert reqs[..|reqs|] == reqs;
    }

    // memory.cc:138-198
    method AcceptRequests(now: int, iReqs: seq<Request>, dReqs: seq<Request>)
      returns (ghost iArrivals: seq<Arrival>, ghost dArrivals: seq<Arrival>)
      requires Separate() && CachesValid() && Words(mem[..]) == WriteAll(initial, accepted)
      requires AllAccessible(iSide.View().bucket, INST_BYTES) && AllAccessible(dSide.View().bucket, WORD_BYTES)
      requires forall p :: 0 <= p < |iReqs| ==>
                 iReqs[p].Idle? || (iReqs[p].Read? && Accessible(iReqs[p].addr, INST_BYTES))
      requires forall p :: 0 <= p < |dReqs| ==> dReqs[p].Idle? || Accessible(dReqs[p].addr, WORD_BYTES)
      modifies this, iSide, iSide.resp, dSide, dSide.resp, l1i, l1d, l2, mem
      ensures CachesValid() && accepted == old(accepted) + dReqs && Words(mem[..]) == WriteAll(initial, accepted)
      ensures AllAccessible(iSide.View().bucket, INST_BYTES) && AllAccessible(dSide.View().bucket, WORD_BYTES)
      ensures iSide.View() == AcceptAll(old(iSide.View()), now, iArrivals) && Arrive(iArrivals, iReqs, 2, 111)
      ensures dSide.View() == AcceptAll(old(dSide.View()), now, dArrivals) && Arrive(dArrivals, dReqs, 3, 112)
    {
      iArrivals := AcceptAllInst(now, iReqs);
      dArrivals := AcceptAllData(now, dReqs);
      accepted := accepted + dReqs;
      WriteConcat(initial, old(accepted), dReqs);
    }

    // One clock cycle (memory.cc:101-200), with one request and one reply port per entry of
    // iReqs and of dReqs. A data reply carries the last word written to its address by the
    // requests of earlier cycles.
    method Work(now: int, iReqs: seq<Request>, dReqs: seq<Request>)
      returns (iOuts: seq<Option<Output>>, dOuts: seq<Option<Output>>,
               ghost iReplies: seq<Option<Reply>>, ghost dReplies: seq<Option<Reply>>,
               ghost iArrivals: seq<Arrival>, ghost dArrivals: seq<Arrival>)
      requires Valid()
      requires forall p :: 0 <= p < |iReqs| ==>
                 iReqs[p].Idle? || (iReqs[p].Read? && Accessible(iReqs[p].addr, INST_BYTES))
      requires forall p :: 0 <= p < |dReqs| ==> dReqs[p].Idle? || Accessible(dReqs[p].addr, WORD_BYTES)
      modifies this, iSide, iSide.resp, dSide, dSide.resp, l1i, l1d, l2, mem
      ensures Valid()
      ensures Cycle(old(iSide.View()), iSide.View(), now, iReplies, iArrivals) && Arrive(iArrivals, iReqs, 2, 111)
      ensures Cycle(old(dSide.View()), dSide.View(), now, dReplies, dArrivals) && Arrive(dArrivals, dReqs, 3, 112)
      ensures |iOuts| == |iReplies| == |iReqs| && |dOuts| == |dReplies| == |dReqs|
      ensures InstOutputs(iOuts, iReplies, old(mem[..]))
      ensures DataOutputs(dOuts, dReplies, WriteAll(initial, old(accepted)))
      ensures accepted == old(accepted) + dReqs
    {
      ghost var iWas, dWas := iSide.View(), dSide.View();
      iOuts, iReplies := DeliverInst(now, |iReqs|);
      dOuts, dReplies := DeliverData(now, |dReqs|);
      ghost var iMid, dMid := iSide.View(), dSide.View();
      iArrivals, dArrivals := AcceptRequests(now, iReqs, dReqs);
      CycleOf(iWas, iMid, iSide.View(), now, iReplies, iArrivals, iReqs, 2, 111);
      CycleOf(dWas, dMid, dSide.View(), now, dReplies, dArrivals, dReqs, 3, 112);
    }
  }

  lemma CycleOf(c: Channel, mid: Channel, c': Channel, now: int, outs: seq<Option<Reply>>, arrivals: seq<Arrival>,
                reqs: seq<Request>, least: nat, most: int)
    requires Covered(c) && DeliversAll(c, mid, now, outs) && c' == AcceptAll(mid, now, arrivals)
    requires Arrive(arrivals, reqs, least, most)
    ensures Cycle(c, c', now, outs, arrivals) && Covered(c')
  {
    CycleKeepsCovered(c, c', now, outs, arrivals);
  }
}
