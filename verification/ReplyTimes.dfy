// When the replies of core-project/memory.cc go out: not before the latency of a request has
// passed, not much later, and merged requests not before the one they are merged behind,
// with the exact condition for the last.
module ReplyTimes {
  import opened LruSetModel
  import opened Channels
  import opened Waiting

  ghost predicate IsReplyFor(out: Option<Reply>, addr: Addr) {
    out.Some? && out.value.addr == addr
  }

  ghost predicate NoReplyFor(outs: seq<Option<Reply>>, addr: Addr) {
    forall k :: 0 <= k < |outs| ==> !IsReplyFor(outs[k], addr)
  }

  // The first reply for the address is this one.
  ghost predicate FirstReply(outs: seq<Option<Reply>>, reply: Reply) {
    exists k :: 0 <= k < |outs| && outs[k] == Some(reply) && NoReplyFor(outs[..k], reply.addr)
  }

  // Every other reply for the address of e falls due later.
  ghost predicate Leads(bucket: seq<Entry>, e: Entry) {
    e in bucket && forall x :: x in bucket && x.addr == e.addr ==> x == e || x.due > e.due
  }

  // While e leads, requests for its address are merged behind it.
  ghost predicate Guarded(c: Channel, e: Entry) {
    e.addr in c.mshr && Leads(c.bucket, e)
  }

  ghost function ReplyOf(e: Entry): Reply {
    Reply(e.tag, e.addr)
  }

  // ---- deliveries ----

  lemma InRemoved(bucket: seq<Entry>, i: nat, x: Entry)
    requires i < |bucket|
    ensures x in Removed(bucket, i) ==> x in bucket
    ensures x in bucket && x != bucket[i] ==> x in Removed(bucket, i)
  {
    assert bucket == bucket[..i] + [bucket[i]] + bucket[i + 1..];
  }

  // A delivery for another address leaves the entries for this one as they are.
  lemma OtherDelivered(c: Channel, c': Channel, now: int, out: Option<Reply>, x: Entry)
    requires Delivers(c, c', now, out) && !IsReplyFor(out, x.addr)
    ensures x in c'.bucket <==> x in c.bucket
    ensures x.addr in c'.mshr <==> x.addr in c.mshr
  {
    if out.Some? {
      var i: nat :| DeliversEntry(c, c', now, out.value, i);
      InRemoved(c.bucket, i, x);
    }
  }

  lemma OtherKeepsGuarded(c: Channel, c': Channel, now: int, out: Option<Reply>, e: Entry)
    requires Delivers(c, c', now, out) && Guarded(c, e) && !IsReplyFor(out, e.addr)
    ensures Guarded(c', e)
  {
    OtherDelivered(c, c', now, out, e);
    forall x | x in c'.bucket && x.addr == e.addr
      ensures x == e || x.due > e.due
    {
      OtherDelivered(c, c', now, out, x);
    }
  }

  // The first delivery for the address is that of e, when it is due.
  lemma LeaderDelivered(c: Channel, c': Channel, now: int, out: Option<Reply>, e: Entry)
    requires Delivers(c, c', now, out) && Guarded(c, e) && IsReplyFor(out, e.addr)
    ensures out == Some(ReplyOf(e)) && now >= e.due
  {
    var i: nat :| DeliversEntry(c, c', now, out.value, i);
    var k :| 0 <= k < |c.bucket| && c.bucket[k] == e;
    assert c.bucket[i].due <= c.bucket[k].due;
    assert c.bucket[i] in c.bucket;
  }

  lemma {:induction false} GuardedDeliveries(c: Channel, c': Channel, now: int, outs: seq<Option<Reply>>, e: Entry)
    requires DeliversAll(c, c', now, outs) && Guarded(c, e)
    ensures if NoReplyFor(outs, e.addr) then Guarded(c', e) else FirstReply(outs, ReplyOf(e)) && now >= e.due
    decreases |outs|
  {
    if outs != [] {
      var n := |outs| - 1;
      var mid :| Delivers(mid, c', now, outs[n]) && DeliversAll(c, mid, now, outs[..n]);
      OneMoreReply(outs, ReplyOf(e));
      GuardedDeliveries(c, mid, now, outs[..n], e);
      if NoReplyFor(outs[..n], e.addr) {
        GuardedDelivery(mid, c', now, outs[n], e);
      }
    }
  }

  lemma GuardedDelivery(c: Channel, c': Channel, now: int, out: Option<Reply>, e: Entry)
    requires Delivers(c, c', now, out) && Guarded(c, e)
    ensures if IsReplyFor(out, e.addr) then out == Some(ReplyOf(e)) && now >= e.due else Guarded(c', e)
  {
    if IsReplyFor(out, e.addr) {
      LeaderDelivered(c, c', now, out, e);
    } else {
      OtherKeepsGuarded(c, c', now, out, e);
    }
  }

  lemma OneMoreReply(outs: seq<Option<Reply>>, reply: Reply)
    requires outs != []
    ensures var n := |outs| - 1;
            && (NoReplyFor(outs, reply.addr) <==> NoReplyFor(outs[..n], reply.addr) && !IsReplyFor(outs[n], reply.addr))
            && (Some(reply) in outs <==> Some(reply) in outs[..n] || outs[n] == Some(reply))
            && (FirstReply(outs[..n], reply) ==> FirstReply(outs, reply))
            && (NoReplyFor(outs[..n], reply.addr) && outs[n] == Some(reply) ==> FirstReply(outs, reply))
  {
    var n := |outs| - 1;
    assert outs == outs[..n] + [outs[n]];
    if FirstReply(outs[..n], reply) {
      var k :| 0 <= k < n && outs[..n][k] == Some(reply) && NoReplyFor(outs[..n][..k], reply.addr);
      assert outs[..n][..k] == outs[..k];
    }
  }

  // ---- acceptances ----

  lemma {:induction false} GuardedAcceptances(c: Channel, now: int, arrivals: seq<Arrival>, e: Entry)
    requires Guarded(c, e)
    ensures Guarded(AcceptAll(c, now, arrivals), e)
    decreases |arrivals|
  {
    if arrivals != [] {
      GuardedAcceptances(c, now, arrivals[..|arrivals| - 1], e);
    }
  }

  lemma {:induction false} AcceptPrefix(c: Channel, now: int, arrivals: seq<Arrival>, k: nat)
    requires k <= |arrivals|
    ensures AcceptAll(c, now, arrivals) == AcceptAll(AcceptAll(c, now, arrivals[..k]), now, arrivals[k..])
    decreases |arrivals|
  {
    if k == |arrivals| {
      assert arrivals[..k] == arrivals;
    } else {
      var n := |arrivals| - 1;
      AcceptPrefix(c, now, arrivals[..n], k);
      assert arrivals[..n][..k] == arrivals[..k];
      assert arrivals[k..][..n - k] == arrivals[..n][k..];
    }
  }

  // ---- whole runs ----

  // What the channel is when request k of cycle n has its turn.
  ghost predicate TurnAt(run: Run, n: nat, k: nat, c: Channel) {
    && k <= |run.arrivals(n)|
    && exists mid :: DeliversAll(run.states(n), mid, run.now(n), run.outs(n))
                     && run.states(n + 1) == AcceptAll(mid, run.now(n), run.arrivals(n))
                     && c == AcceptAll(mid, run.now(n), run.arrivals(n)[..k])
  }

  // The reply is the first one for its address from cycle n on, in cycle i.
  ghost predicate FirstFrom(run: Run, n: nat, i: nat, reply: Reply) {
    && n <= i && FirstReply(run.outs(i), reply)
    && forall m: nat :: n <= m < i ==> NoReplyFor(run.outs(m), reply.addr)
  }

  lemma GuardedCycle(run: Run, n: nat, e: Entry)
    requires run.ValidAt(n) && Guarded(run.states(n), e)
    ensures if NoReplyFor(run.outs(n), e.addr) then Guarded(run.states(n + 1), e)
            else FirstReply(run.outs(n), ReplyOf(e)) && run.now(n) >= e.due
  {
    var mid :| DeliversAll(run.states(n), mid, run.now(n), run.outs(n))
               && run.states(n + 1) == AcceptAll(mid, run.now(n), run.arrivals(n));
    GuardedDeliveries(run.states(n), mid, run.now(n), run.outs(n), e);
    if NoReplyFor(run.outs(n), e.addr) {
      GuardedAcceptances(mid, run.now(n), run.arrivals(n), e);
    }
  }

  // No reply for the address goes out before e is due, and the first one is that of e.
  lemma {:induction false} GuardedRun(run: Run, n: nat, j: nat, e: Entry) returns (i: nat)
    requires run.Valid() && Guarded(run.states(n), e) && n <= j && !NoReplyFor(run.outs(j), e.addr)
    ensures n <= i <= j && FirstFrom(run, n, i, ReplyOf(e)) && e.due <= run.now(i) <= run.now(j)
    decreases j - n
  {
    assert run.ValidAt(n);
    GuardedCycle(run, n, e);
    TimePasses(run, n, j);
    if NoReplyFor(run.outs(n), e.addr) {
      i := GuardedRun(run, n + 1, j, e);
      TimePasses(run, i, j);
    } else {
      i := n;
    }
  }

  lemma {:induction false} TimePasses(run: Run, n: nat, m: nat)
    requires run.Valid() && n <= m
    ensures run.now(n) <= run.now(m)
    decreases m
  {
    if n < m {
      TimePasses(run, n, m - 1);
      assert run.ValidAt(m - 1);
    }
  }

  lemma {:induction false} EntryStays(run: Run, n: nat, m: nat, e: Entry)
    requires run.Valid() && e in run.states(n).bucket && n <= m
    ensures e in run.states(m).bucket || exists j: nat :: n <= j < m && run.DeliveredAt(j, ReplyOf(e))
    decreases m
  {
    if n < m {
      EntryStays(run, n, m - 1, e);
      assert run.ValidAt(m - 1);
      if e in run.states(m - 1).bucket {
        run.CycleAdvances(m - 1, e);
        if e !in run.states(m).bucket {
          assert run.DeliveredAt(m - 1, ReplyOf(e));
        }
      } else {
        var j: nat :| n <= j < m - 1 && run.DeliveredAt(j, ReplyOf(e));
      }
    }
  }

  ghost function EntryFor(now: int, a: Arrival): Entry {
    Entry(now + a.latency, a.tag, a.addr)
  }

  // No other reply for the address is due as early as this request will be.
  ghost predicate Unopposed(c: Channel, now: int, a: Arrival) {
    && a.addr !in c.mshr
    && forall x :: x in c.bucket && x.addr == a.addr ==> x == EntryFor(now, a) || x.due > now + a.latency
  }

  lemma SentIsThere(c: Channel, c': Channel, now: int, arrivals: seq<Arrival>, k: nat)
    requires k < |arrivals| && arrivals[k].addr !in AcceptAll(c, now, arrivals[..k]).mshr
    requires forall i :: 0 <= i < |arrivals| ==> arrivals[i].latency >= 0
    requires c' == AcceptAll(c, now, arrivals)
    ensures EntryFor(now, arrivals[k]) in c'.bucket
    ensures Unopposed(AcceptAll(c, now, arrivals[..k]), now, arrivals[k]) ==> Guarded(c', EntryFor(now, arrivals[k]))
  {
    var before, a := AcceptAll(c, now, arrivals[..k]), arrivals[k];
    AcceptPrefix(c, now, arrivals, k + 1);
    assert arrivals[..k + 1][..k] == arrivals[..k];
    var sent := Accept(before, now, a);
    SentLeads(before, now, a);
    AcceptAllAdds(sent, now, arrivals[k + 1..], 0);
    if Unopposed(before, now, a) {
      GuardedAcceptances(sent, now, arrivals[k + 1..], EntryFor(now, a));
    }
  }

  lemma SentLeads(c: Channel, now: int, a: Arrival)
    requires a.addr !in c.mshr
    ensures EntryFor(now, a) in Accept(c, now, a).bucket
    ensures Unopposed(c, now, a) ==> Guarded(Accept(c, now, a), EntryFor(now, a))
  {
    assert Accept(c, now, a).bucket[|c.bucket|] == EntryFor(now, a);
  }

  lemma SentInRun(run: Run, n: nat, k: nat, c: Channel)
    requires run.Valid() && TurnAt(run, n, k, c) && k < |run.arrivals(n)| && run.arrivals(n)[k].addr !in c.mshr
    ensures var e := EntryFor(run.now(n), run.arrivals(n)[k]);
            && e in run.states(n + 1).bucket
            && (Unopposed(c, run.now(n), run.arrivals(n)[k]) ==> Guarded(run.states(n + 1), e))
  {
    assert run.ValidAt(n);
    var mid :| DeliversAll(run.states(n), mid, run.now(n), run.outs(n))
               && run.states(n + 1) == AcceptAll(mid, run.now(n), run.arrivals(n))
               && c == AcceptAll(mid, run.now(n), run.arrivals(n)[..k]);
    SentIsThere(mid, run.states(n + 1), run.now(n), run.arrivals(n), k);
  }

  // A request that is sent while no other reply for its address is due as early: no reply
  // for the address, its own or that of a request merged behind it, goes out before its
  // latency has passed since it was accepted, and its own is the first.
  lemma NotBeforeLatency(run: Run, n: nat, k: nat, c: Channel, j: nat, tag: Tag) returns (i: nat)
    requires run.Valid() && TurnAt(run, n, k, c) && k < |run.arrivals(n)|
    requires Unopposed(c, run.now(n), run.arrivals(n)[k])
    requires n < j && run.DeliveredAt(j, Reply(tag, run.arrivals(n)[k].addr))
    ensures var a := run.arrivals(n)[k];
            && n < i <= j && FirstFrom(run, n + 1, i, Reply(a.tag, a.addr))
            && run.now(n) + a.latency <= run.now(i) <= run.now(j)
  {
    SentInRun(run, n, k, c);
    i := GuardedRun(run, n + 1, j, EntryFor(run.now(n), run.arrivals(n)[k]));
  }

  // In particular when no request for the address is outstanding.
  lemma NothingOutstanding(c: Channel, now: int, a: Arrival)
    requires a.addr !in c.mshr && !OnItsWay(c.bucket, a.addr)
    ensures Unopposed(c, now, a)
  {}

  // Once the latency has passed, a request that was sent is answered within as many cycles as
  // there are replies due no later than it.
  lemma AnsweredAfterLatency(run: Run, n: nat, k: nat, c: Channel, m: nat) returns (j: nat)
    requires run.Valid() && TurnAt(run, n, k, c) && k < |run.arrivals(n)| && run.arrivals(n)[k].addr !in c.mshr
    requires n < m && run.now(n) + run.arrivals(n)[k].latency < run.now(m)
    ensures var a := run.arrivals(n)[k];
            && n < j < m + Rank(run.states(m).bucket, run.now(n) + a.latency)
            && run.DeliveredAt(j, Reply(a.tag, a.addr))
  {
    SentInRun(run, n, k, c);
    j := EntryInTime(run, n + 1, m, EntryFor(run.now(n), run.arrivals(n)[k]));
  }

  lemma EntryInTime(run: Run, n: nat, m: nat, e: Entry) returns (j: nat)
    requires run.Valid() && e in run.states(n).bucket && n <= m && e.due < run.now(m)
    ensures n <= j < m + Rank(run.states(m).bucket, e.due) && run.DeliveredAt(j, ReplyOf(e))
  {
    EntryStays(run, n, m, e);
    if e in run.states(m).bucket {
      j := run.DeliveredWithinRank(m, e);
    } else {
      j :| n <= j < m && run.DeliveredAt(j, ReplyOf(e));
    }
  }

  // ---- merged requests ----

  // A reply for the request is on its way and falls due by then.
  ghost predicate DueBy(bucket: seq<Entry>, reply: Reply, limit: int) {
    exists x :: x in bucket && ReplyOf(x) == reply && x.due <= limit
  }

  lemma DeliveryKeepsDue(c: Channel, c': Channel, now: int, out: Option<Reply>, reply: Reply, limit: int)
    requires Delivers(c, c', now, out) && DueBy(c.bucket, reply, limit)
    ensures out == Some(reply) || DueBy(c'.bucket, reply, limit)
  {
    var x :| x in c.bucket && ReplyOf(x) == reply && x.due <= limit;
    DeliverKeeps(c, c', now, out, x);
  }

  // The first delivery for its address makes a merged request due at once.
  lemma DeliveryReleases(c: Channel, c': Channel, now: int, out: Option<Reply>, reply: Reply)
    requires Delivers(c, c', now, out) && Merged(c, reply.tag, reply.addr)
    ensures if IsReplyFor(out, reply.addr) then DueBy(c'.bucket, reply, now) else Merged(c', reply.tag, reply.addr)
  {
    if IsReplyFor(out, reply.addr) {
      var i: nat :| DeliversEntry(c, c', now, out.value, i);
      var tags := c.mshr[reply.addr];
      var k :| 0 <= k < |tags| && tags[k] == reply.tag;
      assert c'.bucket[|c.bucket| - 1 + k] == Entry(now, reply.tag, reply.addr);
    }
  }

  ghost predicate LetGo(c: Channel, now: int, outs: seq<Option<Reply>>, reply: Reply) {
    Some(reply) in outs || DueBy(c.bucket, reply, now)
  }

  lemma {:induction false} DeliveriesRelease(c: Channel, c': Channel, now: int, outs: seq<Option<Reply>>, reply: Reply)
    requires DeliversAll(c, c', now, outs) && Merged(c, reply.tag, reply.addr)
    ensures if NoReplyFor(outs, reply.addr) then Merged(c', reply.tag, reply.addr) else LetGo(c', now, outs, reply)
    decreases |outs|
  {
    if outs != [] {
      var n := |outs| - 1;
      var mid :| Delivers(mid, c', now, outs[n]) && DeliversAll(c, mid, now, outs[..n]);
      OneMoreReply(outs, reply);
      DeliveriesRelease(c, mid, now, outs[..n], reply);
      if NoReplyFor(outs[..n], reply.addr) {
        DeliveryReleases(mid, c', now, outs[n], reply);
      } else if DueBy(mid.bucket, reply, now) {
        DeliveryKeepsDue(mid, c', now, outs[n], reply, now);
      }
    }
  }

  lemma {:induction false} AcceptancesKeep(c: Channel, now: int, arrivals: seq<Arrival>, reply: Reply, limit: int)
    ensures Merged(c, reply.tag, reply.addr) ==> Merged(AcceptAll(c, now, arrivals), reply.tag, reply.addr)
    ensures DueBy(c.bucket, reply, limit) ==> DueBy(AcceptAll(c, now, arrivals).bucket, reply, limit)
    decreases |arrivals|
  {
    if arrivals != [] {
      AcceptancesKeep(c, now, arrivals[..|arrivals| - 1], reply, limit);
    }
  }

  lemma CycleReleases(run: Run, n: nat, reply: Reply)
    requires run.ValidAt(n) && Merged(run.states(n), reply.tag, reply.addr)
    ensures if NoReplyFor(run.outs(n), reply.addr) then Merged(run.states(n + 1), reply.tag, reply.addr)
            else run.DeliveredAt(n, reply) || DueBy(run.states(n + 1).bucket, reply, run.now(n))
  {
    var mid :| DeliversAll(run.states(n), mid, run.now(n), run.outs(n))
               && run.states(n + 1) == AcceptAll(mid, run.now(n), run.arrivals(n));
    DeliveriesRelease(run.states(n), mid, run.now(n), run.outs(n), reply);
    AcceptancesKeep(mid, run.now(n), run.arrivals(n), reply, run.now(n));
  }

  // A merged request is answered, or its reply is due, by the cycle in which some reply for
  // its address goes out.
  lemma {:induction false} ReleasedBy(run: Run, n: nat, j: nat, reply: Reply) returns (i: nat)
    requires run.Valid() && Merged(run.states(n), reply.tag, reply.addr)
    requires n <= j && !NoReplyFor(run.outs(j), reply.addr)
    ensures n <= i <= j
    ensures run.DeliveredAt(i, reply) || DueBy(run.states(i + 1).bucket, reply, run.now(i))
    decreases j - n
  {
    assert run.ValidAt(n);
    CycleReleases(run, n, reply);
    if NoReplyFor(run.outs(n), reply.addr) {
      i := ReleasedBy(run, n + 1, j, reply);
    } else {
      i := n;
    }
  }

  // The bounded wait of a merged request: once time has passed the due time of some reply for
  // its address, that goes out within as many cycles as there are replies due no later, and
  // from then on the same holds of its own reply.
  lemma MergedInTime(run: Run, n: nat, m: nat, reply: Reply, e: Entry) returns (i: nat, j: nat)
    requires run.Valid() && Merged(run.states(n), reply.tag, reply.addr)
    requires e in run.states(n).bucket && e.addr == reply.addr && n <= m && e.due < run.now(m)
    ensures n <= i < m + Rank(run.states(m).bucket, e.due)
    ensures n <= j < i + 2 + Rank(run.states(i + 2).bucket, run.now(i)) && run.DeliveredAt(j, reply)
  {
    var j0 := EntryInTime(run, n, m, e);
    assert IsReplyFor(Some(ReplyOf(e)), reply.addr);
    i := ReleasedBy(run, n, j0, reply);
    if run.DeliveredAt(i, reply) {
      j := i;
    } else {
      j := DueInTime(run, i, reply);
    }
  }

  lemma DueInTime(run: Run, i: nat, reply: Reply) returns (j: nat)
    requires run.Valid() && DueBy(run.states(i + 1).bucket, reply, run.now(i))
    ensures i < j < i + 2 + Rank(run.states(i + 2).bucket, run.now(i)) && run.DeliveredAt(j, reply)
  {
    assert run.ValidAt(i) && run.ValidAt(i + 1);
    var x :| x in run.states(i + 1).bucket && ReplyOf(x) == reply && x.due <= run.now(i);
    j := EntryInTime(run, i + 1, i + 2, x);
    RankMonotone(run.states(i + 2).bucket, x.due, run.now(i));
  }

  lemma {:induction false} RankMonotone(bucket: seq<Entry>, due: int, later: int)
    requires due <= later
    ensures Rank(bucket, due) <= Rank(bucket, later)
  {
    if bucket != [] {
      RankMonotone(bucket[..|bucket| - 1], due, later);
    }
  }

  // ---- exactly when merged requests wait for the one they are merged behind ----

  // Within one cycle x may be the first reply for its address to go out.
  ghost predicate MayGoFirst(c: Channel, x: Entry) {
    exists now: int, outs: seq<Option<Reply>>, mid: Channel ::
      DeliversAll(c, mid, now, outs) && NoReplyFor(outs, x.addr) && MayGoNext(mid.bucket, now, x)
  }

  ghost predicate MayGoNext(bucket: seq<Entry>, now: int, x: Entry) {
    exists i: nat :: i < |bucket| && bucket[i] == x && Ready(bucket, now, i)
  }

  lemma {:induction false} OthersDelivered(c: Channel, c': Channel, now: int, outs: seq<Option<Reply>>, x: Entry)
    requires DeliversAll(c, c', now, outs) && NoReplyFor(outs, x.addr)
    ensures x in c'.bucket <==> x in c.bucket
    decreases |outs|
  {
    if outs != [] {
      var n := |outs| - 1;
      var mid :| Delivers(mid, c', now, outs[n]) && DeliversAll(c, mid, now, outs[..n]);
      OneMoreReply(outs, ReplyOf(x));
      OthersDelivered(c, mid, now, outs[..n], x);
      OtherDelivered(mid, c', now, outs[n], x);
    }
  }

  lemma OneMoreDelivery(c: Channel, mid: Channel, c': Channel, now: int, outs: seq<Option<Reply>>, out: Option<Reply>)
    requires DeliversAll(c, mid, now, outs) && Delivers(mid, c', now, out)
    ensures DeliversAll(c, c', now, outs + [out])
  {
    assert (outs + [out])[..|outs|] == outs;
  }

  lemma {:induction false} LeastDue(bucket: seq<Entry>) returns (i: nat)
    requires bucket != []
    ensures i < |bucket| && forall j :: 0 <= j < |bucket| ==> bucket[i].due <= bucket[j].due
  {
    i := 0;
    if |bucket| > 1 {
      var k := LeastDue(bucket[1..]);
      assert forall j :: 1 <= j < |bucket| ==> bucket[j] == bucket[1..][j - 1];
      i := if bucket[0].due <= bucket[k + 1].due then 0 else k + 1;
    }
  }

  // A cycle with enough ports delivers everything due before x, if that is for other
  // addresses; x is still there, and may go next.
  lemma {:induction false} DrainBefore(c: Channel, mid: Channel, outs: seq<Option<Reply>>, x: Entry)
    requires DeliversAll(c, mid, x.due, outs) && NoReplyFor(outs, x.addr) && x in mid.bucket
    requires forall y :: y in mid.bucket && y.due < x.due ==> y.addr != x.addr
    ensures MayGoFirst(c, x)
    decreases Rank(mid.bucket, x.due - 1)
  {
    var i := LeastDue(mid.bucket);
    if mid.bucket[i].due < x.due {
      assert mid.bucket[i] in mid.bucket;
      var next := DeliverOther(mid, i, x);
      OneMoreDelivery(c, mid, next, x.due, outs, Some(ReplyOf(mid.bucket[i])));
      DrainBefore(c, next, outs + [Some(ReplyOf(mid.bucket[i]))], x);
    } else {
      GoesNext(mid.bucket, x);
    }
  }

  lemma GoesNext(bucket: seq<Entry>, x: Entry)
    requires x in bucket && forall j :: 0 <= j < |bucket| ==> x.due <= bucket[j].due
    ensures MayGoNext(bucket, x.due, x)
  {
    var k :| 0 <= k < |bucket| && bucket[k] == x;
    assert Ready(bucket, x.due, k);
  }

  lemma DeliverOther(c: Channel, i: nat, x: Entry) returns (c': Channel)
    requires Ready(c.bucket, x.due, i) && c.bucket[i].due < x.due && c.bucket[i].addr != x.addr && x in c.bucket
    requires forall y :: y in c.bucket && y.due < x.due ==> y.addr != x.addr
    ensures Delivers(c, c', x.due, Some(ReplyOf(c.bucket[i])))
    ensures x in c'.bucket && forall y :: y in c'.bucket && y.due < x.due ==> y.addr != x.addr
    ensures Rank(c'.bucket, x.due - 1) < Rank(c.bucket, x.due - 1)
  {
    c' := DeliverEntry(c, i, x.due);
    DeliveryUsesUp(c, c', x.due, ReplyOf(c.bucket[i]), i, x.due - 1);
    StillOthers(c, c', ReplyOf(c.bucket[i]), i, x);
  }

  lemma DeliverEntry(c: Channel, i: nat, now: int) returns (c': Channel)
    requires Ready(c.bucket, now, i)
    ensures DeliversEntry(c, c', now, ReplyOf(c.bucket[i]), i)
    ensures Delivers(c, c', now, Some(ReplyOf(c.bucket[i])))
  {
    var reply := ReplyOf(c.bucket[i]);
    c' := Channel(Removed(c.bucket, i)
                  + (if reply.addr in c.mshr then Released(now, reply.addr, c.mshr[reply.addr]) else []),
                  c.mshr - {reply.addr});
    assert DeliversEntry(c, c', now, reply, i);
  }

  lemma StillOthers(c: Channel, c': Channel, reply: Reply, i: nat, x: Entry)
    requires DeliversEntry(c, c', x.due, reply, i) && reply.addr != x.addr && x in c.bucket
    requires forall y :: y in c.bucket && y.due < x.due ==> y.addr != x.addr
    ensures x in c'.bucket && forall y :: y in c'.bucket && y.due < x.due ==> y.addr != x.addr
  {
    assert Delivers(c, c', x.due, Some(reply));
    OtherDelivered(c, c', x.due, Some(reply), x);
    forall y | y in c'.bucket && y.due < x.due && y.addr == x.addr
      ensures false
    {
      OtherDelivered(c, c', x.due, Some(reply), y);
    }
  }

  // Of the replies for an address that may oppose e, one with the least due time.
  lemma {:induction false} EarliestRival(bucket: seq<Entry>, e: Entry) returns (x: Entry)
    requires exists y :: y in bucket && IsRival(y, e)
    ensures x in bucket && IsRival(x, e) && forall y :: y in bucket && IsRival(y, e) ==> x.due <= y.due
    decreases |bucket|
  {
    var n := |bucket| - 1;
    assert bucket == bucket[..n] + [bucket[n]];
    if y :| y in bucket[..n] && IsRival(y, e) {
      x := EarliestRival(bucket[..n], e);
      if IsRival(bucket[n], e) && bucket[n].due < x.due {
        x := bucket[n];
      }
    } else {
      x := bucket[n];
    }
  }

  ghost predicate IsRival(x: Entry, e: Entry) {
    x.addr == e.addr && x != e && x.due <= e.due
  }

  // The first reply for the address of e to go out, which releases the requests merged behind
  // e, is that of e in every case if and only if no other one is due as early.
  lemma LeadsExactly(c: Channel, e: Entry)
    requires e in c.bucket
    ensures Leads(c.bucket, e) <==> forall x: Entry :: x.addr == e.addr && MayGoFirst(c, x) ==> x == e
  {
    if Leads(c.bucket, e) {
      forall x: Entry | x.addr == e.addr && MayGoFirst(c, x)
        ensures x == e
      {
        FirstIsLeader(c, e, x);
      }
    } else {
      var y :| y in c.bucket && IsRival(y, e);
      var x := EarliestRival(c.bucket, e);
      DrainBefore(c, c, [], x);
    }
  }

  lemma FirstIsLeader(c: Channel, e: Entry, x: Entry)
    requires Leads(c.bucket, e) && x.addr == e.addr && MayGoFirst(c, x)
    ensures x == e
  {
    var now: int, outs: seq<Option<Reply>>, mid: Channel :|
      DeliversAll(c, mid, now, outs) && NoReplyFor(outs, x.addr) && MayGoNext(mid.bucket, now, x);
    OthersDelivered(c, mid, now, outs, x);
    OthersDelivered(c, mid, now, outs, e);
    var i: nat :| i < |mid.bucket| && mid.bucket[i] == x && Ready(mid.bucket, now, i);
    var k :| 0 <= k < |mid.bucket| && mid.bucket[k] == e;
    assert mid.bucket[i].due <= mid.bucket[k].due;
  }

  // For a request that is sent this can be told when it is sent.
  lemma UnopposedExactly(c: Channel, now: int, a: Arrival)
    requires a.addr !in c.mshr
    ensures Unopposed(c, now, a) <==>
            forall x: Entry :: x.addr == a.addr && MayGoFirst(Accept(c, now, a), x) ==> x == EntryFor(now, a)
  {
    SentLeads(c, now, a);
    LeadsExactly(Accept(c, now, a), EntryFor(now, a));
    forall x | x in c.bucket
      ensures x in Accept(c, now, a).bucket
    {}
  }

  // Otherwise a merged request may be answered before the one it is merged behind. In four
  // cycles with one reply port: requests 1 and 2 for address a, the second merged; the reply
  // to 1, which makes 2 due, while request 4 is sent and 5 merged behind it; the reply to 2,
  // which makes 5 due; the reply to 5. Request 4 still waits.
  lemma MergedOvertakes(a: Addr) returns (c: seq<Channel>)
    ensures |c| == 5 && c[0] == Channel([], map[])
    ensures Cycle(c[0], c[1], 0, [None], [Arrival(1, a, 2), Arrival(2, a, 2)])
    ensures Cycle(c[1], c[2], 2, [Some(Reply(1, a))], [Arrival(4, a, 3), Arrival(5, a, 3)])
    ensures Cycle(c[2], c[3], 3, [Some(Reply(2, a))], [])
    ensures Cycle(c[3], c[4], 4, [Some(Reply(5, a))], [])
    ensures c[4].bucket == [Entry(5, 4, a)]
  {
    c := [Channel([], map[]), Channel([Entry(2, 1, a)], map[a := [2]]),
          Channel([Entry(2, 2, a), Entry(5, 4, a)], map[a := [5]]),
          Channel([Entry(5, 4, a), Entry(3, 5, a)], map[]), Channel([Entry(5, 4, a)], map[])];
    FirstCycle(a);
    SecondCycle(a);
    ThirdCycle(a);
    FourthCycle(a);
  }

  lemma FirstCycle(a: Addr)
    ensures Cycle(Channel([], map[]), Channel([Entry(2, 1, a)], map[a := [2]]), 0,
                  [None], [Arrival(1, a, 2), Arrival(2, a, 2)])
  {
    var empty := Channel([], map[]);
    OneDelivery(empty, empty, 0, None, 0);
    TwoAcceptances(empty, 0, Arrival(1, a, 2), Arrival(2, a, 2));
    assert [] + [Entry(2, 1, a)] == [Entry(2, 1, a)];
  }

  lemma SecondCycle(a: Addr)
    ensures Cycle(Channel([Entry(2, 1, a)], map[a := [2]]),
                  Channel([Entry(2, 2, a), Entry(5, 4, a)], map[a := [5]]), 2,
                  [Some(Reply(1, a))], [Arrival(4, a, 3), Arrival(5, a, 3)])
  {
    var c, mid := Channel([Entry(2, 1, a)], map[a := [2]]), Channel([Entry(2, 2, a)], map[]);
    assert Removed(c.bucket, 0) + Released(2, a, [2]) == mid.bucket;
    assert c.mshr - {a} == map[];
    OneDelivery(c, mid, 2, Some(Reply(1, a)), 0);
    TwoAcceptances(mid, 2, Arrival(4, a, 3), Arrival(5, a, 3));
    assert [Entry(2, 2, a)] + [Entry(5, 4, a)] == [Entry(2, 2, a), Entry(5, 4, a)];
  }

  lemma ThirdCycle(a: Addr)
    ensures Cycle(Channel([Entry(2, 2, a), Entry(5, 4, a)], map[a := [5]]),
                  Channel([Entry(5, 4, a), Entry(3, 5, a)], map[]), 3, [Some(Reply(2, a))], [])
  {
    var c, c' := Channel([Entry(2, 2, a), Entry(5, 4, a)], map[a := [5]]),
                 Channel([Entry(5, 4, a), Entry(3, 5, a)], map[]);
    assert Removed(c.bucket, 0) + Released(3, a, [5]) == c'.bucket;
    assert c.mshr - {a} == map[];
    OneDelivery(c, c', 3, Some(Reply(2, a)), 0);
    assert AcceptAll(c', 3, []) == c';
  }

  lemma FourthCycle(a: Addr)
    ensures Cycle(Channel([Entry(5, 4, a), Entry(3, 5, a)], map[]), Channel([Entry(5, 4, a)], map[]), 4,
                  [Some(Reply(5, a))], [])
  {
    var c, c' := Channel([Entry(5, 4, a), Entry(3, 5, a)], map[]), Channel([Entry(5, 4, a)], map[]);
    assert Removed(c.bucket, 1) + [] == c'.bucket;
    OneDelivery(c, c', 4, Some(Reply(5, a)), 1);
    assert AcceptAll(c', 4, []) == c';
  }

  lemma OneDelivery(c: Channel, c': Channel, now: int, out: Option<Reply>, i: nat)
    requires if out.None? then c' == c && c.bucket == [] else DeliversEntry(c, c', now, out.value, i)
    ensures DeliversAll(c, c', now, [out])
  {
    assert [out][..0] == [];
    assert DeliversAll(c, c, now, []) && Delivers(c, c', now, out);
  }

  lemma TwoAcceptances(c: Channel, now: int, a: Arrival, b: Arrival)
    requires a.addr == b.addr && a.addr !in c.mshr
    ensures AcceptAll(c, now, [a, b]) == Channel(c.bucket + [EntryFor(now, a)], c.mshr[a.addr := [b.tag]])
  {
    assert [a, b][..1] == [a] && [a][..0] == [];
    var sent := Accept(c, now, a);
    assert AcceptAll(c, now, [a]) == sent;
    assert sent.mshr[a.addr] + [b.tag] == [b.tag];
    assert sent.mshr[a.addr := [b.tag]] == c.mshr[a.addr := [b.tag]];
  }
}
