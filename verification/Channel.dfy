// The reply side of core-project/memory.cc: a bucket of delayed replies
// (core-project/delaybucket.h) and the lists of merged requests, as transitions.
module Channels {
  import opened LruSetModel

  type Tag = int
  type Addr = int

  // A reply on its way, and when it falls due.
  datatype Entry = Entry(due: int, tag: Tag, addr: Addr)

  datatype Reply = Reply(tag: Tag, addr: Addr)

  // An accepted request and the latency the caches gave it.
  datatype Arrival = Arrival(tag: Tag, addr: Addr, latency: int)

  datatype Channel = Channel(bucket: seq<Entry>, mshr: map<Addr, seq<Tag>>)

  ghost function Removed(bucket: seq<Entry>, i: nat): seq<Entry>
    requires i < |bucket|
  {
    bucket[..i] + bucket[i + 1..]
  }

  // The merged requests for one address, due at once.
  ghost function Released(now: int, addr: Addr, tags: seq<Tag>): (r: seq<Entry>)
    ensures |r| == |tags|
  {
    seq(|tags|, i requires 0 <= i < |tags| => Entry(now, tags[i], addr))
  }

  // Some entry with the least due time, if that time has come.
  ghost predicate Ready(bucket: seq<Entry>, now: int, i: nat) {
    i < |bucket| && bucket[i].due <= now && forall j :: 0 <= j < |bucket| ==> bucket[i].due <= bucket[j].due
  }

  // One reply port (memory.cc:107-121 and 122-136): a ready entry is delivered and the
  // requests merged with it become due.
  ghost predicate Delivers(c: Channel, c': Channel, now: int, out: Option<Reply>) {
    match out
    case None => c' == c && forall i :: 0 <= i < |c.bucket| ==> c.bucket[i].due > now
    case Some(reply) => exists i: nat :: DeliversEntry(c, c', now, reply, i)
  }

  ghost predicate DeliversEntry(c: Channel, c': Channel, now: int, reply: Reply, i: nat) {
    && Ready(c.bucket, now, i)
    && reply == Reply(c.bucket[i].tag, c.bucket[i].addr)
    && c'.mshr == c.mshr - {reply.addr}
    && c'.bucket == Removed(c.bucket, i)
                    + (if reply.addr in c.mshr then Released(now, reply.addr, c.mshr[reply.addr]) else [])
  }

  // One request port (memory.cc:141-160 and 171-197): merged with a request for the same
  // address that is on its way, or sent on its way.
  ghost function Accept(c: Channel, now: int, a: Arrival): Channel {
    if a.addr in c.mshr then Channel(c.bucket, c.mshr[a.addr := c.mshr[a.addr] + [a.tag]])
    else Channel(c.bucket + [Entry(now + a.latency, a.tag, a.addr)], c.mshr[a.addr := []])
  }

  // All reply ports of a cycle, in order.
  ghost predicate DeliversAll(c: Channel, c': Channel, now: int, outs: seq<Option<Reply>>)
    decreases |outs|
  {
    if outs == [] then c' == c
    else
      var front, last := outs[..|outs| - 1], outs[|outs| - 1];
      exists mid :: Delivers(mid, c', now, last) && DeliversAll(c, mid, now, front)
  }

  ghost function AcceptAll(c: Channel, now: int, arrivals: seq<Arrival>): Channel {
    if arrivals == [] then c
    else Accept(AcceptAll(c, now, arrivals[..|arrivals| - 1]), now, arrivals[|arrivals| - 1])
  }

  ghost predicate Cycle(c: Channel, c': Channel, now: int, outs: seq<Option<Reply>>, arrivals: seq<Arrival>) {
    && (forall i :: 0 <= i < |arrivals| ==> arrivals[i].latency >= 0)
    && exists mid :: DeliversAll(c, mid, now, outs) && c' == AcceptAll(mid, now, arrivals)
  }

  // ---- invariant: every address with merged requests has a reply on its way ----

  ghost predicate OnItsWay(bucket: seq<Entry>, addr: Addr) {
    exists i :: 0 <= i < |bucket| && bucket[i].addr == addr
  }

  ghost predicate Covered(c: Channel) {
    forall addr :: addr in c.mshr ==> OnItsWay(c.bucket, addr)
  }

  lemma DeliverKeepsCovered(c: Channel, c': Channel, now: int, out: Option<Reply>)
    requires Covered(c) && Delivers(c, c', now, out)
    ensures Covered(c')
  {
    if out.Some? {
      var i: nat :| DeliversEntry(c, c', now, out.value, i);
      forall addr | addr in c'.mshr
        ensures OnItsWay(c'.bucket, addr)
      {
        var j :| 0 <= j < |c.bucket| && c.bucket[j].addr == addr;
        assert c'.bucket[if j < i then j else j - 1] == c.bucket[j];
      }
    }
  }

  lemma AcceptKeepsCovered(c: Channel, now: int, a: Arrival)
    requires Covered(c)
    ensures Covered(Accept(c, now, a))
  {
    var c' := Accept(c, now, a);
    forall addr | addr in c'.mshr
      ensures OnItsWay(c'.bucket, addr)
    {
      if a.addr !in c.mshr && addr == a.addr {
        assert c'.bucket[|c.bucket|].addr == addr;
      } else {
        var j :| 0 <= j < |c.bucket| && c.bucket[j].addr == addr;
        assert c'.bucket[j] == c.bucket[j];
      }
    }
  }

  lemma {:induction false} CycleKeepsCovered(c: Channel, c': Channel, now: int,
                                             outs: seq<Option<Reply>>, arrivals: seq<Arrival>)
    requires Covered(c) && Cycle(c, c', now, outs, arrivals)
    ensures Covered(c')
  {
    var mid :| DeliversAll(c, mid, now, outs) && c' == AcceptAll(mid, now, arrivals);
    DeliversAllKeepCovered(c, mid, now, outs);
    AcceptAllKeepsCovered(mid, now, arrivals);
  }

  lemma {:induction false} DeliversAllKeepCovered(c: Channel, c': Channel, now: int, outs: seq<Option<Reply>>)
    requires Covered(c) && DeliversAll(c, c', now, outs)
    ensures Covered(c')
    decreases |outs|
  {
    if outs != [] {
      var mid :| Delivers(mid, c', now, outs[|outs| - 1]) && DeliversAll(c, mid, now, outs[..|outs| - 1]);
      DeliversAllKeepCovered(c, mid, now, outs[..|outs| - 1]);
      DeliverKeepsCovered(mid, c', now, outs[|outs| - 1]);
    }
  }

  lemma {:induction false} AcceptAllKeepsCovered(c: Channel, now: int, arrivals: seq<Arrival>)
    requires Covered(c)
    ensures Covered(AcceptAll(c, now, arrivals))
    decreases |arrivals|
  {
    if arrivals != [] {
      AcceptAllKeepsCovered(c, now, arrivals[..|arrivals| - 1]);
      AcceptKeepsCovered(AcceptAll(c, now, arrivals[..|arrivals| - 1]), now, arrivals[|arrivals| - 1]);
    }
  }

  // ---- conservation: every request is outstanding until it is delivered, once ----

  ghost function InBucket(bucket: seq<Entry>, r: Reply): nat {
    if bucket == [] then 0
    else InBucket(bucket[..|bucket| - 1], r)
         + (if Reply(bucket[|bucket| - 1].tag, bucket[|bucket| - 1].addr) == r then 1 else 0)
  }

  // Requests with this tag and address in the bucket or merged behind it.
  ghost function Outstanding(c: Channel, r: Reply): nat {
    InBucket(c.bucket, r) + (if r.addr in c.mshr then multiset(c.mshr[r.addr])[r.tag] else 0)
  }

  ghost function Delivered(outs: seq<Option<Reply>>, r: Reply): nat {
    if outs == [] then 0
    else Delivered(outs[..|outs| - 1], r) + (if outs[|outs| - 1] == Some(r) then 1 else 0)
  }

  ghost function Accepted(arrivals: seq<Arrival>, r: Reply): nat {
    if arrivals == [] then 0
    else Accepted(arrivals[..|arrivals| - 1], r)
         + (if Reply(arrivals[|arrivals| - 1].tag, arrivals[|arrivals| - 1].addr) == r then 1 else 0)
  }

  lemma {:induction false} InBucketConcat(a: seq<Entry>, b: seq<Entry>, r: Reply)
    ensures InBucket(a + b, r) == InBucket(a, r) + InBucket(b, r)
  {
    if b == [] {
      assert a + b == a;
    } else {
      assert (a + b)[..|a + b| - 1] == a + b[..|b| - 1];
      InBucketConcat(a, b[..|b| - 1], r);
    }
  }

  lemma InBucketRemoved(bucket: seq<Entry>, i: nat, r: Reply)
    requires i < |bucket|
    ensures InBucket(bucket, r) ==
            InBucket(Removed(bucket, i), r) + (if Reply(bucket[i].tag, bucket[i].addr) == r then 1 else 0)
  {
    assert bucket == bucket[..i] + ([bucket[i]] + bucket[i + 1..]);
    InBucketConcat(bucket[..i], [bucket[i]] + bucket[i + 1..], r);
    InBucketConcat([bucket[i]], bucket[i + 1..], r);
    InBucketConcat(bucket[..i], bucket[i + 1..], r);
    assert [bucket[i]][..0] == [];
  }

  lemma {:induction false} InReleased(now: int, addr: Addr, tags: seq<Tag>, r: Reply)
    ensures InBucket(Released(now, addr, tags), r) == if r.addr == addr then multiset(tags)[r.tag] else 0
    decreases |tags|
  {
    var all := Released(now, addr, tags);
    if tags != [] {
      var front := tags[..|tags| - 1];
      assert all[..|all| - 1] == Released(now, addr, front);
      assert tags == front + [tags[|tags| - 1]];
      InReleased(now, addr, front, r);
    }
  }

  lemma DeliverConserves(c: Channel, c': Channel, now: int, out: Option<Reply>, r: Reply)
    requires Delivers(c, c', now, out)
    ensures Outstanding(c, r) == Outstanding(c', r) + (if out == Some(r) then 1 else 0)
  {
    if out.Some? {
      var i: nat :| DeliversEntry(c, c', now, out.value, i);
      var addr := out.value.addr;
      InBucketRemoved(c.bucket, i, r);
      if addr in c.mshr {
        InBucketConcat(Removed(c.bucket, i), Released(now, addr, c.mshr[addr]), r);
        InReleased(now, addr, c.mshr[addr], r);
      } else {
        assert c'.bucket == Removed(c.bucket, i);
      }
    }
  }

  lemma AcceptConserves(c: Channel, now: int, a: Arrival, r: Reply)
    ensures Outstanding(Accept(c, now, a), r) == Outstanding(c, r) + (if Reply(a.tag, a.addr) == r then 1 else 0)
  {
    var e := Entry(now + a.latency, a.tag, a.addr);
    assert (c.bucket + [e])[..|c.bucket|] == c.bucket;
  }

  // As multisets: accepted before and now == delivered now + outstanding after.
  lemma CycleConserves(c: Channel, c': Channel, now: int, outs: seq<Option<Reply>>, arrivals: seq<Arrival>, r: Reply)
    requires Cycle(c, c', now, outs, arrivals)
    ensures Outstanding(c, r) + Accepted(arrivals, r) == Outstanding(c', r) + Delivered(outs, r)
  {
    var mid :| DeliversAll(c, mid, now, outs) && c' == AcceptAll(mid, now, arrivals);
    DeliversAllConserve(c, mid, now, outs, r);
    AcceptAllConserves(mid, now, arrivals, r);
  }

  lemma {:induction false} DeliversAllConserve(c: Channel, c': Channel, now: int, outs: seq<Option<Reply>>, r: Reply)
    requires DeliversAll(c, c', now, outs)
    ensures Outstanding(c, r) == Outstanding(c', r) + Delivered(outs, r)
    decreases |outs|
  {
    if outs != [] {
      var front, last := outs[..|outs| - 1], outs[|outs| - 1];
      var mid :| Delivers(mid, c', now, last) && DeliversAll(c, mid, now, front);
      DeliversAllConserve(c, mid, now, front, r);
      DeliverConserves(mid, c', now, last, r);
    }
  }

  lemma {:induction false} AcceptAllConserves(c: Channel, now: int, arrivals: seq<Arrival>, r: Reply)
    ensures Outstanding(AcceptAll(c, now, arrivals), r) == Outstanding(c, r) + Accepted(arrivals, r)
    decreases |arrivals|
  {
    if arrivals != [] {
      var front := arrivals[..|arrivals| - 1];
      AcceptAllConserves(c, now, front, r);
      AcceptConserves(AcceptAll(c, now, front), now, arrivals[|arrivals| - 1], r);
    }
  }
}
