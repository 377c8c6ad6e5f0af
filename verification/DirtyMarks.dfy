// Which entries of the first-level data cache of core-project/memory.cc:175-195 are dirty.
module DirtyMarks {
  import opened LruSetModel
  import opened Channels

  const L1_SIZE: nat := 128

  datatype Dirty = Clean | Dirty

  // Of the accesses to a first-level cache, each with a mark for writes: whether a was
  // written since it entered the cache the last time.
  ghost predicate WrittenSince(trace: seq<Addr>, writes: seq<bool>, a: Addr)
    requires |trace| == |writes|
  {
    if trace == [] then false
    else
      var n := |trace| - 1;
      if trace[n] != a then WrittenSince(trace[..n], writes[..n], a)
      else writes[n] || (a in UseAll(L1_SIZE, trace[..n]) && WrittenSince(trace[..n], writes[..n], a))
  }

  // The dirty entries are those that were written since they entered.
  ghost predicate Marked(entries: seq<(Addr, Dirty)>, trace: seq<Addr>, writes: seq<bool>) {
    |trace| == |writes| && forall e :: e in entries ==> (e.1.Dirty? <==> WrittenSince(trace, writes, e.0))
  }

  // One access marks its entry dirty if it writes, leaves the mark it finds if not, and
  // starts clean; other entries keep theirs.
  ghost predicate Remarked(before: seq<(Addr, Dirty)>, after: seq<(Addr, Dirty)>, addr: Addr, write: bool) {
    forall e :: e in after ==>
      if e.0 != addr then e in before
      else if write then e.1.Dirty?
      else if addr in LruSet.KeysOf(before) then e in before
      else e.1.Clean?
  }

  lemma RemarkedInsert(before: seq<(Addr, Dirty)>, kept: seq<(Addr, Dirty)>, addr: Addr, write: bool)
    requires addr !in LruSet.KeysOf(before) && (kept == before || (before != [] && kept == before[1..]))
    ensures Remarked(before, kept + [(addr, if write then Dirty else Clean)], addr, write)
  {
    var after := kept + [(addr, if write then Dirty else Clean)];
    forall e | e in after && e != after[|kept|]
      ensures e.0 != addr && e in before
    {
      var i :| 0 <= i < |before| && before[i] == e;
      assert LruSet.KeysOf(before)[i] == e.0;
    }
  }

  lemma RemarkedHit(before: seq<(Addr, Dirty)>, found: seq<(Addr, Dirty)>, after: seq<(Addr, Dirty)>,
                    addr: Addr, write: bool)
    requires addr in LruSet.KeysOf(before) && multiset(found) == multiset(before)
    requires if write then forall e :: e in after ==> if e.0 == addr then e == (addr, Dirty) else e in found
             else after == found
    ensures Remarked(before, after, addr, write)
  {
    forall e | e in found
      ensures e in before
    {
      assert e in multiset(found);
    }
  }

  lemma MarkedOnceMore(before: seq<(Addr, Dirty)>, after: seq<(Addr, Dirty)>, trace: seq<Addr>, writes: seq<bool>,
                       addr: Addr, write: bool)
    requires Marked(before, trace, writes) && Remarked(before, after, addr, write)
    requires LruSet.KeysOf(before) == UseAll(L1_SIZE, trace)
    ensures Marked(after, trace + [addr], writes + [write])
  {
    var n := |trace|;
    assert (trace + [addr])[..n] == trace && (writes + [write])[..n] == writes;
    forall e | e in after
      ensures e.1.Dirty? <==> WrittenSince(trace + [addr], writes + [write], e.0)
    {}
  }
}
