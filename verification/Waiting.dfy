// How long a reply of core-project/memory.cc can wait, over whole runs of a channel.
module Waiting {
  import opened LruSetModel
  import opened Channels

  // How many entries fall due no later than `due`.
  ghost function Rank(bucket: seq<Entry>, due: int): nat {
    if bucket == [] then 0
    else Rank(bucket[..|bucket| - 1], due) + (if bucket[|bucket| - 1].due <= due then 1 else 0)
  }

  lemma {:induction false} RankConcat(a: seq<Entry>, b: seq<Entry>, due: int)
    ensures Rank(a + b, due) == Rank(a, due) + Rank(b, due)
  {
    if b == [] {
      assert a + b == a;
    } else {
      assert (a + b)[..|a + b| - 1] == a + b[..|b| - 1];
      RankConcat(a, b[..|b| - 1], due);
    }
  }

  lemma {:induction false} RankLater(b: seq<Entry>, due: int)
    requires forall i :: 0 <= i < |b| ==> b[i].due > due
    ensures Rank(b, due) == 0
  {
    if b != [] {
      RankLater(b[..|b| - 1], due);
    }
  }

  lemma RankRemoved(bucket: seq<Entry>, i: nat, due: int)
    requires i < |bucket|
    ensures Rank(bucket, due) == Rank(Removed(bucket, i), due) + (if bucket[i].due <= due then 1 else 0)
  {
    assert bucket == bucket[..i] + ([bucket[i]] + bucket[i + 1..]);
    RankConcat(bucket[..i], [bucket[i]] + bucket[i + 1..], due);
    RankConcat([bucket[i]], bucket[i + 1..], due);
    RankConcat(bucket[..i], bucket[i + 1..], due);
    assert [bucket[i]][..0] == [];
  }

  // Once time has passed a due time, each delivery uses up one entry due no later, and no
  // new such entry appears; an entry not delivered is still there.
  lemma DeliverAdvances(c: Channel, c': Channel, now: int, out: Option<Reply>, e: Entry)
    requires Delivers(c, c', now, out) && e in c.bucket && e.due < now
    ensures out.Some? && Rank(c'.bucket, e.due) < Rank(c.bucket, e.due)
    ensures out == Some(Reply(e.tag, e.addr)) || e in c'.bucket
  {
    DeliverKeeps(c, c', now, out, e);
    var k :| 0 <= k < |c.bucket| && c.bucket[k] == e;
    assert c.bucket[k].due <= now;
    var i: nat :| DeliversEntry(c, c', now, out.value, i);
    DeliveryUsesUp(c, c', now, out.value, i, e.due);
  }

  lemma DeliveryUsesUp(c: Channel, c': Channel, now: int, reply: Reply, i: nat, due: int)
    requires DeliversEntry(c, c', now, reply, i) && due < now
    ensures Rank(c.bucket, due) == Rank(c'.bucket, due) + (if c.bucket[i].due <= due then 1 else 0)
  {
    RankRemoved(c.bucket, i, due);
    var added := if reply.addr in c.mshr then Released(now, reply.addr, c.mshr[reply.addr]) else [];
    RankLater(added, due);
    RankConcat(Removed(c.bucket, i), added, due);
  }

  // A delivery never adds an entry that is already overdue.
  lemma DeliverRank(c: Channel, c': Channel, now: int, out: Option<Reply>, due: int)
    requires Delivers(c, c', now, out) && due < now
    ensures Rank(c'.bucket, due) <= Rank(c.bucket, due)
  {
    if out.Some? {
      var i: nat :| DeliversEntry(c, c', now, out.value, i);
      DeliveryUsesUp(c, c', now, out.value, i, due);
    }
  }

  lemma {:induction false} DeliversAllAdvance(c: Channel, c': Channel, now: int, outs: seq<Option<Reply>>, e: Entry)
    requires DeliversAll(c, c', now, outs) && e in c.bucket && e.due < now
    ensures Rank(c'.bucket, e.due) <= Rank(c.bucket, e.due)
    ensures outs != [] ==> Rank(c'.bucket, e.due) < Rank(c.bucket, e.due)
    ensures Some(Reply(e.tag, e.addr)) in outs || e in c'.bucket
    decreases |outs|
  {
    if outs != [] {
      var front, last := outs[..|outs| - 1], outs[|outs| - 1];
      var mid :| Delivers(mid, c', now, last) && DeliversAll(c, mid, now, front);
      DeliversAllAdvance(c, mid, now, front, e);
      if e in mid.bucket {
        DeliverAdvances(mid, c', now, last, e);
        assert last in outs;
      } else {
        DeliverRank(mid, c', now, last, e.due);
        DeliversAllStrict(c, mid, now, front, e);
      }
    }
  }

  // If the entry is gone, something was delivered.
  lemma DeliversAllStrict(c: Channel, c': Channel, now: int, outs: seq<Option<Reply>>, e: Entry)
    requires DeliversAll(c, c', now, outs) && e in c.bucket && e !in c'.bucket
    ensures outs != []
  {}

  lemma {:induction false} AcceptAllAdds(c: Channel, now: int, arrivals: seq<Arrival>, due: int)
    requires forall i :: 0 <= i < |arrivals| ==> arrivals[i].latency >= 0
    ensures forall e :: e in c.bucket ==> e in AcceptAll(c, now, arrivals).bucket
    ensures due < now ==> Rank(AcceptAll(c, now, arrivals).bucket, due) == Rank(c.bucket, due)
    decreases |arrivals|
  {
    if arrivals != [] {
      var front, a := arrivals[..|arrivals| - 1], arrivals[|arrivals| - 1];
      AcceptAllAdds(c, now, front, due);
      var before := AcceptAll(c, now, front);
      var e := Entry(now + a.latency, a.tag, a.addr);
      RankConcat(before.bucket, [e], due);
      assert [e][..0] == [];
    }
  }

  // ---- whole runs ----

  // An unending run of one channel: its states, the time of each cycle, and what each
  // cycle delivers and accepts. Time moves on, and there is at least one reply port.
  datatype Run = Run(
    states: nat -> Channel, now: nat -> int,
    outs: nat -> seq<Option<Reply>>, arrivals: nat -> seq<Arrival>)
  {
    ghost predicate Valid() {
      Covered(states(0)) && forall n: nat :: ValidAt(n)
    }

    ghost predicate ValidAt(n: nat) {
      && now(n) < now(n + 1) && outs(n) != []
      && Cycle(states(n), states(n + 1), now(n), outs(n), arrivals(n))
    }

    // The invariant holds in every state.
    lemma {:induction false} CoveredThroughout(n: nat)
      requires Valid()
      ensures Covered(states(n))
    {
      if n > 0 {
        CoveredThroughout(n - 1);
        assert ValidAt(n - 1);
        CycleKeepsCovered(states(n - 1), states(n), now(n - 1), outs(n - 1), arrivals(n - 1));
      }
    }

    ghost predicate DeliveredAt(n: nat, reply: Reply) {
      Some(reply) in outs(n)
    }

    lemma CycleAdvances(n: nat, e: Entry)
      requires ValidAt(n) && e in states(n).bucket
      ensures DeliveredAt(n, Reply(e.tag, e.addr)) || e in states(n + 1).bucket
      ensures e.due < now(n) ==> Rank(states(n + 1).bucket, e.due) < Rank(states(n).bucket, e.due)
    {
      var mid :| DeliversAll(states(n), mid, now(n), outs(n)) && states(n + 1) == AcceptAll(mid, now(n), arrivals(n));
      AcceptAllAdds(mid, now(n), arrivals(n), e.due);
      if e.due < now(n) {
        DeliversAllAdvance(states(n), mid, now(n), outs(n), e);
      } else {
        DeliversAllKeep(states(n), mid, now(n), outs(n), e);
      }
    }

    // The bounded wait: once time has passed an entry's due time, it is delivered within as
    // many cycles as there are entries due no later.
    lemma {:induction false} DeliveredWithinRank(n: nat, e: Entry) returns (j: nat)
      requires Valid() && e in states(n).bucket && e.due < now(n)
      ensures n <= j < n + Rank(states(n).bucket, e.due)
      ensures DeliveredAt(j, Reply(e.tag, e.addr))
      decreases Rank(states(n).bucket, e.due)
    {
      assert ValidAt(n);
      CycleAdvances(n, e);
      if DeliveredAt(n, Reply(e.tag, e.addr)) {
        j := n;
      } else {
        j := DeliveredWithinRank(n + 1, e);
      }
    }

    // Hence every entry is delivered: time passes every due time.
    lemma {:induction false} EntryDelivered(n: nat, e: Entry) returns (j: nat)
      requires Valid() && e in states(n).bucket
      ensures n <= j && DeliveredAt(j, Reply(e.tag, e.addr))
      decreases if e.due < now(n) then 0 else e.due - now(n) + 1
    {
      assert ValidAt(n);
      if e.due < now(n) {
        j := DeliveredWithinRank(n, e);
      } else {
        CycleAdvances(n, e);
        if DeliveredAt(n, Reply(e.tag, e.addr)) {
          j := n;
        } else {
          j := EntryDelivered(n + 1, e);
        }
      }
    }

    lemma CycleKeepsMerged(n: nat, tag: Tag, addr: Addr)
      requires ValidAt(n) && Merged(states(n), tag, addr)
      ensures || DeliveredAt(n, Reply(tag, addr))
              || Pending(states(n + 1), tag, addr)
              || (Merged(states(n + 1), tag, addr) && forall t :: !DeliveredAt(n, Reply(t, addr)))
    {
      var mid :| DeliversAll(states(n), mid, now(n), outs(n)) && states(n + 1) == AcceptAll(mid, now(n), arrivals(n));
      DeliversAllMerged(states(n), mid, now(n), outs(n), tag, addr);
      AcceptAllKeeps(mid, now(n), arrivals(n), tag, addr);
    }

    // A merged request becomes a reply of its own when a reply for its address goes out.
    lemma {:induction false} MergedIsAnswered(n: nat, tag: Tag, addr: Addr, j0: nat, t0: Tag) returns (j: nat)
      requires Valid() && Merged(states(n), tag, addr)
      requires n <= j0 && DeliveredAt(j0, Reply(t0, addr))
      ensures n <= j && DeliveredAt(j, Reply(tag, addr))
      decreases j0 - n
    {
      assert ValidAt(n);
      CycleKeepsMerged(n, tag, addr);
      if DeliveredAt(n, Reply(tag, addr)) {
        j := n;
      } else if Pending(states(n + 1), tag, addr) {
        var k :| 0 <= k < |states(n + 1).bucket| && IsFor(states(n + 1).bucket[k], tag, addr);
        j := EntryDelivered(n + 1, states(n + 1).bucket[k]);
      } else {
        assert n != j0;
        j := MergedIsAnswered(n + 1, tag, addr, j0, t0);
      }
    }

    // Every request that is on its way or merged behind another one is answered.
    lemma EveryRequestAnswered(n: nat, tag: Tag, addr: Addr) returns (j: nat)
      requires Valid()
      requires Pending(states(n), tag, addr) || Merged(states(n), tag, addr)
      ensures n <= j && DeliveredAt(j, Reply(tag, addr))
    {
      if Pending(states(n), tag, addr) {
        var k :| 0 <= k < |states(n).bucket| && IsFor(states(n).bucket[k], tag, addr);
        j := EntryDelivered(n, states(n).bucket[k]);
      } else {
        CoveredThroughout(n);
        var k :| 0 <= k < |states(n).bucket| && states(n).bucket[k].addr == addr;
        var e := states(n).bucket[k];
        var j0 := EntryDelivered(n, e);
        j := MergedIsAnswered(n, tag, addr, j0, e.tag);
      }
    }

    // In particular every request accepted in a cycle.
    lemma AcceptedIsAnswered(n: nat, k: nat) returns (j: nat)
      requires Valid() && k < |arrivals(n)|
      ensures n < j && DeliveredAt(j, Reply(arrivals(n)[k].tag, arrivals(n)[k].addr))
    {
      assert ValidAt(n);
      var mid :| DeliversAll(states(n), mid, now(n), outs(n)) && states(n + 1) == AcceptAll(mid, now(n), arrivals(n));
      AcceptedIsThere(mid, now(n), arrivals(n), k);
      j := EveryRequestAnswered(n + 1, arrivals(n)[k].tag, arrivals(n)[k].addr);
    }

    // How often a request was accepted, and answered, in the first n cycles.
    ghost function AcceptedUpTo(n: nat, r: Reply): nat {
      if n == 0 then 0 else AcceptedUpTo(n - 1, r) + Accepted(arrivals(n - 1), r)
    }

    ghost function DeliveredUpTo(n: nat, r: Reply): nat {
      if n == 0 then 0 else DeliveredUpTo(n - 1, r) + Delivered(outs(n - 1), r)
    }

    // Conservation over a run: of the requests outstanding at the start and those accepted
    // since, each is answered once or still outstanding.
    lemma {:induction false} TotalsBalance(n: nat, r: Reply)
      requires Valid()
      ensures Outstanding(states(0), r) + AcceptedUpTo(n, r) == Outstanding(states(n), r) + DeliveredUpTo(n, r)
    {
      if n > 0 {
        TotalsBalance(n - 1, r);
        assert ValidAt(n - 1);
        CycleConserves(states(n - 1), states(n), now(n - 1), outs(n - 1), arrivals(n - 1), r);
      }
    }

    lemma {:induction false} DeliveredGrows(n: nat, j: nat, r: Reply)
      requires n <= j
      ensures DeliveredUpTo(n, r) <= DeliveredUpTo(j, r)
      ensures n < j && DeliveredAt(j - 1, r) ==> DeliveredUpTo(n, r) < DeliveredUpTo(j, r)
      decreases j
    {
      if n < j {
        DeliveredGrows(n, j - 1, r);
        DeliveredCounts(outs(j - 1), r);
      }
    }

    // Every request is answered as often as it was made: by some cycle as many equal replies
    // have gone out as equal requests had come in by cycle n.
    lemma {:induction false} AllAnswered(n: nat, r: Reply) returns (j: nat)
      requires Valid()
      ensures n <= j && DeliveredUpTo(j, r) >= Outstanding(states(0), r) + AcceptedUpTo(n, r)
    {
      j := AnsweredFrom(n, n, r);
    }

    lemma {:induction false} AnsweredFrom(n: nat, m: nat, r: Reply) returns (j: nat)
      requires Valid() && n <= m
      ensures m <= j && DeliveredUpTo(j, r) >= Outstanding(states(0), r) + AcceptedUpTo(n, r)
      decreases Outstanding(states(0), r) + AcceptedUpTo(n, r) - DeliveredUpTo(m, r)
    {
      if DeliveredUpTo(m, r) >= Outstanding(states(0), r) + AcceptedUpTo(n, r) {
        j := m;
      } else {
        TotalsBalance(m, r);
        AcceptedGrows(n, m, r);
        OutstandingIsThere(states(m), r);
        var i := EveryRequestAnswered(m, r.tag, r.addr);
        DeliveredGrows(m, i + 1, r);
        j := AnsweredFrom(n, i + 1, r);
      }
    }

    lemma {:induction false} AcceptedGrows(n: nat, m: nat, r: Reply)
      requires n <= m
      ensures AcceptedUpTo(n, r) <= AcceptedUpTo(m, r)
      decreases m
    {
      if n < m {
        AcceptedGrows(n, m - 1, r);
      }
    }
  }

  // A reply that goes out is counted.
  lemma {:induction false} DeliveredCounts(outs: seq<Option<Reply>>, r: Reply)
    ensures Some(r) in outs ==> Delivered(outs, r) > 0
  {
    if outs != [] {
      DeliveredCounts(outs[..|outs| - 1], r);
      assert outs == outs[..|outs| - 1] + [outs[|outs| - 1]];
    }
  }

  // A request that is counted as outstanding is on its way or merged.
  lemma OutstandingIsThere(c: Channel, r: Reply)
    requires Outstanding(c, r) > 0
    ensures Pending(c, r.tag, r.addr) || Merged(c, r.tag, r.addr)
  {
    if InBucket(c.bucket, r) > 0 {
      var k := CountedInBucket(c.bucket, r);
      assert IsFor(c.bucket[k], r.tag, r.addr);
    }
  }

  lemma {:induction false} CountedInBucket(bucket: seq<Entry>, r: Reply) returns (k: nat)
    requires InBucket(bucket, r) > 0
    ensures k < |bucket| && bucket[k].tag == r.tag && bucket[k].addr == r.addr
  {
    var n := |bucket| - 1;
    if Reply(bucket[n].tag, bucket[n].addr) == r {
      k := n;
    } else {
      k := CountedInBucket(bucket[..n], r);
    }
  }

  // The request is merged behind another one for its address.
  ghost predicate Merged(c: Channel, tag: Tag, addr: Addr) {
    addr in c.mshr && tag in c.mshr[addr]
  }

  ghost predicate IsFor(e: Entry, tag: Tag, addr: Addr) {
    e.tag == tag && e.addr == addr
  }

  // A reply to the request is on its way.
  ghost predicate Pending(c: Channel, tag: Tag, addr: Addr) {
    exists k :: 0 <= k < |c.bucket| && IsFor(c.bucket[k], tag, addr)
  }

  lemma DeliverMerged(c: Channel, c': Channel, now: int, out: Option<Reply>, tag: Tag, addr: Addr)
    requires Delivers(c, c', now, out) && Merged(c, tag, addr)
    ensures (Merged(c', tag, addr) && (out.Some? ==> out.value.addr != addr)) || Pending(c', tag, addr)
  {
    if out.Some? && out.value.addr == addr {
      var i: nat :| DeliversEntry(c, c', now, out.value, i);
      var k :| 0 <= k < |c.mshr[addr]| && c.mshr[addr][k] == tag;
      assert IsFor(c'.bucket[|c.bucket| - 1 + k], tag, addr);
    }
  }

  lemma DeliverPending(c: Channel, c': Channel, now: int, out: Option<Reply>, tag: Tag, addr: Addr)
    requires Delivers(c, c', now, out) && Pending(c, tag, addr)
    ensures Pending(c', tag, addr) || out == Some(Reply(tag, addr))
  {
    var k :| 0 <= k < |c.bucket| && IsFor(c.bucket[k], tag, addr);
    DeliverKeeps(c, c', now, out, c.bucket[k]);
    if c.bucket[k] in c'.bucket {
      var k' :| 0 <= k' < |c'.bucket| && c'.bucket[k'] == c.bucket[k];
      assert IsFor(c'.bucket[k'], tag, addr);
    }
  }

  lemma {:induction false} DeliversAllMerged(c: Channel, c': Channel, now: int,
                                             outs: seq<Option<Reply>>, tag: Tag, addr: Addr)
    requires DeliversAll(c, c', now, outs) && Merged(c, tag, addr)
    ensures || Some(Reply(tag, addr)) in outs
            || Pending(c', tag, addr)
            || (Merged(c', tag, addr) && forall t :: Some(Reply(t, addr)) !in outs)
    decreases |outs|
  {
    if outs != [] {
      var front, last := outs[..|outs| - 1], outs[|outs| - 1];
      var mid :| Delivers(mid, c', now, last) && DeliversAll(c, mid, now, front);
      DeliversAllMerged(c, mid, now, front, tag, addr);
      assert outs == front + [last];
      if Pending(mid, tag, addr) {
        DeliverPending(mid, c', now, last, tag, addr);
      } else if Merged(mid, tag, addr) {
        DeliverMerged(mid, c', now, last, tag, addr);
      }
    }
  }

  lemma {:induction false} AcceptAllKeeps(c: Channel, now: int, arrivals: seq<Arrival>, tag: Tag, addr: Addr)
    ensures Merged(c, tag, addr) ==> Merged(AcceptAll(c, now, arrivals), tag, addr)
    ensures Pending(c, tag, addr) ==> Pending(AcceptAll(c, now, arrivals), tag, addr)
    decreases |arrivals|
  {
    if arrivals != [] {
      var front, a := arrivals[..|arrivals| - 1], arrivals[|arrivals| - 1];
      AcceptAllKeeps(c, now, front, tag, addr);
      AcceptKeeps(AcceptAll(c, now, front), now, a, tag, addr);
    }
  }

  lemma AcceptKeeps(c: Channel, now: int, a: Arrival, tag: Tag, addr: Addr)
    ensures Merged(c, tag, addr) ==> Merged(Accept(c, now, a), tag, addr)
    ensures Pending(c, tag, addr) ==> Pending(Accept(c, now, a), tag, addr)
    ensures Merged(Accept(c, now, a), a.tag, a.addr) || Pending(Accept(c, now, a), a.tag, a.addr)
  {
    var c' := Accept(c, now, a);
    if Pending(c, tag, addr) {
      var k :| 0 <= k < |c.bucket| && IsFor(c.bucket[k], tag, addr);
      assert IsFor(c'.bucket[k], tag, addr);
    }
    if a.addr in c.mshr {
      assert c'.mshr[a.addr][|c.mshr[a.addr]|] == a.tag;
    } else {
      assert IsFor(c'.bucket[|c.bucket|], a.tag, a.addr);
    }
  }

  lemma {:induction false} AcceptedIsThere(c: Channel, now: int, arrivals: seq<Arrival>, k: nat)
    requires k < |arrivals|
    ensures var c' := AcceptAll(c, now, arrivals);
            Merged(c', arrivals[k].tag, arrivals[k].addr) || Pending(c', arrivals[k].tag, arrivals[k].addr)
    decreases |arrivals|
  {
    var front, a := arrivals[..|arrivals| - 1], arrivals[|arrivals| - 1];
    if k < |front| {
      AcceptedIsThere(c, now, front, k);
    }
    AcceptKeeps(AcceptAll(c, now, front), now, a, arrivals[k].tag, arrivals[k].addr);
  }

  // An entry that is not delivered stays.
  lemma {:induction false} DeliversAllKeep(c: Channel, c': Channel, now: int, outs: seq<Option<Reply>>, e: Entry)
    requires DeliversAll(c, c', now, outs) && e in c.bucket
    ensures Some(Reply(e.tag, e.addr)) in outs || e in c'.bucket
    decreases |outs|
  {
    if outs != [] {
      var front, last := outs[..|outs| - 1], outs[|outs| - 1];
      var mid :| Delivers(mid, c', now, last) && DeliversAll(c, mid, now, front);
      DeliversAllKeep(c, mid, now, front, e);
      if e in mid.bucket {
        DeliverKeeps(mid, c', now, last, e);
        assert last in outs;
      }
    }
  }

  lemma DeliverKeeps(c: Channel, c': Channel, now: int, out: Option<Reply>, e: Entry)
    requires Delivers(c, c', now, out) && e in c.bucket
    ensures out == Some(Reply(e.tag, e.addr)) || e in c'.bucket
  {
    if out.Some? {
      var k :| 0 <= k < |c.bucket| && c.bucket[k] == e;
      var i: nat :| DeliversEntry(c, c', now, out.value, i);
      if k != i {
        assert c'.bucket[if k < i then k else k - 1] == e;
      }
    }
  }
}
