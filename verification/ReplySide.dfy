// core-project/delaybucket.h, and one side of Memory::work built on it: the delayed
// replies and the lists of requests merged behind them (core-project/memory.cc:107-136).
module ReplySideModel {
  import opened LruSetModel
  import opened Channels

  // No entry falls due before entry i.
  predicate IsTop(bucket: seq<Entry>, i: nat) {
    i < |bucket| && forall j :: 0 <= j < |bucket| ==> bucket[i].due <= bucket[j].due
  }

  lemma {:induction false} TopExists(bucket: seq<Entry>) returns (i: nat)
    requires bucket != []
    ensures IsTop(bucket, i)
  {
    if |bucket| == 1 {
      i := 0;
    } else {
      i := TopExists(bucket[1..]);
      assert forall j :: 1 <= j < |bucket| ==> bucket[j] == bucket[1..][j - 1];
      i := if bucket[0].due <= bucket[i + 1].due then 0 else i + 1;
    }
  }

  class DelayBucket {
    // the priority queue; its order is not observable
    var pq: seq<Entry>

    constructor ()
      ensures pq == []
    {
      pq := [];
    }

    method Add(tag: Tag, addr: Addr, now: int, delay: int)
      modifies this
      ensures pq == old(pq) + [Entry(now + delay, tag, addr)]
    {
      pq := pq + [Entry(now + delay, tag, addr)];
    }

    // Removes the top of the queue when it is due. The comparator leaves open which of
    // several entries with the least time is the top.
    method Get(now: int) returns (out: Option<Reply>, ghost i: nat)
      modifies this
      ensures out.None? ==> pq == old(pq) && forall j :: 0 <= j < |pq| ==> pq[j].due > now
      ensures out.Some? ==>
                && Ready(old(pq), now, i)
                && out.value == Reply(old(pq)[i].tag, old(pq)[i].addr)
                && pq == Removed(old(pq), i)
    {
      out, i := None, 0;
      if pq == [] {
        return;
      }
      ghost var least := TopExists(pq);
      var queue := pq;
      var top: nat :| top < |queue| && IsTop(queue, top);
      assert IsTop(queue, top);
      if queue[top].due <= now {
        i := top;
        out := Some(Reply(queue[top].tag, queue[top].addr));
        pq := queue[..top] + queue[top + 1..];
      }
    }
  }

  class ReplySide {
    const resp: DelayBucket
    var mshr: map<Addr, seq<Tag>>

    ghost function View(): Channel
      reads this, resp
    {
      Channel(resp.pq, mshr)
    }

    constructor ()
      ensures fresh(resp) && View() == Channel([], map[])
    {
      resp := new DelayBucket();
      mshr := map[];
    }

    // One reply port: a due reply, and the requests merged behind it become due.
    method Deliver(now: int) returns (out: Option<Reply>)
      modifies this, resp
      ensures Delivers(old(View()), View(), now, out)
    {
      ghost var was, i := View(), 0;
      out, i := resp.Get(now);
      if out.None? {
        return;
      }
      ghost var rest := resp.pq;
      var addr := out.value.addr;
      if addr in mshr {
        var tags := mshr[addr];
        for k := 0 to |tags|
          invariant mshr == was.mshr
          invariant resp.pq == rest + Released(now, addr, tags[..k])
        {
          resp.Add(tags[k], addr, now, 0);
          assert Released(now, addr, tags[..k + 1]) == Released(now, addr, tags[..k]) + [Entry(now, tags[k], addr)];
        }
        assert tags[..|tags|] == tags;
        mshr := mshr - {addr};
      }
      assert DeliversEntry(was, View(), now, out.value, i);
    }

    // A request for an address that is on its way is merged.
    method Merge(tag: Tag, addr: Addr, ghost now: int, ghost latency: int)
      requires addr in mshr
      modifies this
      ensures View() == Accept(old(View()), now, Arrival(tag, addr, latency))
    {
      mshr := mshr[addr := mshr[addr] + [tag]];
    }

    // A request for another address is sent on its way.
    method Send(tag: Tag, addr: Addr, now: int, latency: int)
      requires addr !in mshr
      modifies this, resp
      ensures View() == Accept(old(View()), now, Arrival(tag, addr, latency))
    {
      resp.Add(tag, addr, now, latency);
      mshr := mshr[addr := []];
    }
  }
}
