// core-project/lruset.h: a set of bounded size that evicts the least recently used key,
// kept as a list from the least to the most recently used entry.
module LruSetModel {

  datatype Option<T> = None | Some(value: T)

  ghost predicate Distinct<K>(s: seq<K>) {
    forall i, j :: 0 <= i < j < |s| ==> s[i] != s[j]
  }

  // s without its (first) k
  ghost function Without<K>(s: seq<K>, k: K): (r: seq<K>)
    ensures |r| <= |s|
  {
    if s == [] then [] else if s[0] == k then s[1..] else [s[0]] + Without(s[1..], k)
  }

  // How many elements come before the last n.
  ghost function Cut(length: nat, n: nat): (c: nat)
    ensures c <= length
  {
    if length <= n then 0 else length - n
  }

  // The last n elements of s, or all of s.
  ghost function Newest<K>(s: seq<K>, n: nat): seq<K> {
    s[Cut(|s|, n)..]
  }

  // Every key used so far, in the order of its last use.
  ghost function Recency<K>(trace: seq<K>): seq<K> {
    if trace == [] then [] else Without(Recency(trace[..|trace| - 1]), trace[|trace| - 1]) + [trace[|trace| - 1]]
  }

  // One use of a key: `get`, and `put` when `get` did not find it.
  ghost function Use<K>(keys: seq<K>, capacity: nat, k: K): seq<K> {
    if k in keys then Without(keys, k) + [k]
    else if |keys| == capacity && keys != [] then keys[1..] + [k]
    else keys + [k]
  }

  ghost function UseAll<K>(capacity: nat, trace: seq<K>): seq<K> {
    if trace == [] then [] else Use(UseAll(capacity, trace[..|trace| - 1]), capacity, trace[|trace| - 1])
  }

  lemma {:induction false} WithoutSplit<K>(s: seq<K>, i: nat)
    requires Distinct(s) && i < |s|
    ensures Without(s, s[i]) == s[..i] + s[i + 1..]
  {
    if i > 0 {
      WithoutSplit(s[1..], i - 1);
    }
  }

  lemma {:induction false} WithoutAbsent<K>(s: seq<K>, k: K)
    requires k !in s
    ensures Without(s, k) == s
  {
    if s != [] {
      WithoutAbsent(s[1..], k);
    }
  }

  // Moving a key to the end keeps the list free of duplicates.
  lemma MoveToEnd<K>(s: seq<K>, k: K)
    requires Distinct(s)
    ensures Distinct(Without(s, k) + [k])
    ensures forall x :: x in Without(s, k) + [k] <==> x in s || x == k
  {
    if k in s {
      var i :| 0 <= i < |s| && s[i] == k;
      WithoutSplit(s, i);
      RemovedAt(s, i);
    } else {
      WithoutAbsent(s, k);
    }
  }

  lemma RemovedAt<K>(s: seq<K>, i: nat)
    requires Distinct(s) && i < |s|
    ensures var r := s[..i] + s[i + 1..];
            Distinct(r + [s[i]]) && forall x :: x in r + [s[i]] <==> x in s
  {
    var r := s[..i] + s[i + 1..];
    assert forall j :: 0 <= j < |r| ==> r[j] == s[if j < i then j else j + 1];
    forall x | x in s
      ensures x in r + [s[i]]
    {
      var j :| 0 <= j < |s| && s[j] == x;
      assert j == i || x == r[if j < i then j else j - 1];
    }
  }

  lemma {:induction false} RecencyDistinct<K>(trace: seq<K>)
    ensures Distinct(Recency(trace))
    ensures forall k :: k in Recency(trace) <==> k in trace
  {
    if trace != [] {
      var front, k := trace[..|trace| - 1], trace[|trace| - 1];
      RecencyDistinct(front);
      MoveToEnd(Recency(front), k);
      assert trace == front + [k];
    }
  }

  // The position of the last use of k, counted from 1.
  ghost function LastUse<K>(trace: seq<K>, k: K): nat {
    if trace == [] then 0 else if trace[|trace| - 1] == k then |trace| else LastUse(trace[..|trace| - 1], k)
  }

  lemma {:induction false} LastUseBound<K>(trace: seq<K>, k: K)
    ensures LastUse(trace, k) <= |trace|
    ensures k in trace ==> LastUse(trace, k) >= 1 && trace[LastUse(trace, k) - 1] == k
  {
    if trace != [] {
      LastUseBound(trace[..|trace| - 1], k);
    }
  }

  // Two entries that stay when a key is taken out.
  lemma Staying<K>(s: seq<K>, k: K, i: nat, j: nat) returns (i': nat, j': nat)
    requires Distinct(s) && i < j < |Without(s, k)|
    ensures i' < j' < |s|
    ensures Without(s, k)[i] == s[i'] && Without(s, k)[j] == s[j'] && s[i'] != k && s[j'] != k
  {
    if k in s {
      var p :| 0 <= p < |s| && s[p] == k;
      WithoutSplit(s, p);
      i', j' := if i < p then i else i + 1, if j < p then j else j + 1;
    } else {
      WithoutAbsent(s, k);
      i', j' := i, j;
    }
  }

  // Recency lists the keys of the trace by their last use.
  lemma {:induction false} RecencyOrder<K>(trace: seq<K>, i: nat, j: nat)
    requires i < j < |Recency(trace)|
    ensures LastUse(trace, Recency(trace)[i]) < LastUse(trace, Recency(trace)[j])
  {
    var front, k := trace[..|trace| - 1], trace[|trace| - 1];
    var before := Recency(front);
    var rest := Without(before, k);
    RecencyDistinct(front);
    if j < |rest| {
      var i', j' := Staying(before, k, i, j);
      RecencyOrder(front, i', j');
    } else {
      MoveToEnd(before, k);
      assert (rest + [k])[i] != (rest + [k])[j];
      LastUseBound(front, rest[i]);
    }
  }

  lemma DistinctTail<K>(s: seq<K>, cut: nat)
    requires Distinct(s) && cut <= |s|
    ensures Distinct(s[cut..])
    ensures forall i :: 0 <= i < cut ==> s[i] !in s[cut..]
  {
    forall i | 0 <= i < cut
      ensures s[i] !in s[cut..]
    {
      forall q | 0 <= q < |s| - cut
        ensures s[cut..][q] != s[i]
      {
        assert s[cut..][q] == s[cut + q];
      }
    }
  }

  // Using a key the set holds.
  lemma UseHeld<K>(stack: seq<K>, capacity: nat, p: nat)
    requires Distinct(stack) && capacity >= 1 && Cut(|stack|, capacity) <= p < |stack|
    ensures Use(Newest(stack, capacity), capacity, stack[p]) == Newest(Without(stack, stack[p]) + [stack[p]], capacity)
  {
    var k, cut := stack[p], Cut(|stack|, capacity);
    assert Without(stack, k) == stack[..p] + stack[p + 1..] by {
      WithoutSplit(stack, p);
    }
    UseTail(stack, capacity, p, cut);
    assert |stack[..p] + stack[p + 1..] + [k]| == |stack|;
  }

  lemma UseTail<K>(stack: seq<K>, capacity: nat, p: nat, cut: nat)
    requires Distinct(stack) && cut <= p < |stack|
    ensures Use(stack[cut..], capacity, stack[p]) == (stack[..p] + stack[p + 1..] + [stack[p]])[cut..]
  {
    DistinctTail(stack, cut);
    assert stack[cut..][p - cut] == stack[p];
    UseMoves(stack[cut..], capacity, p - cut);
    TailOfMoved(stack, p, cut);
  }

  lemma UseMoves<K>(keys: seq<K>, capacity: nat, q: nat)
    requires Distinct(keys) && q < |keys|
    ensures Use(keys, capacity, keys[q]) == keys[..q] + keys[q + 1..] + [keys[q]]
  {
    WithoutSplit(keys, q);
  }

  lemma TailOfMoved<K>(s: seq<K>, p: nat, cut: nat)
    requires cut <= p < |s|
    ensures s[cut..][..p - cut] + s[cut..][p - cut + 1..] + [s[p]] == (s[..p] + s[p + 1..] + [s[p]])[cut..]
  {
    var a, b := s[cut..][..p - cut] + s[cut..][p - cut + 1..] + [s[p]], s[..p] + s[p + 1..] + [s[p]];
    assert |b| == |s|;
    forall i | 0 <= i < |s| - cut
      ensures a[i] == b[cut..][i]
    {
      assert b[cut..][i] == b[cut + i];
    }
  }

  lemma TailAfterRemoval<K>(s: seq<K>, p: nat, cut: nat)
    requires p < cut < |s|
    ensures (s[..p] + s[p + 1..] + [s[p]])[cut..] == s[cut..][1..] + [s[p]]
  {
    var a, b := s[cut..][1..] + [s[p]], s[..p] + s[p + 1..] + [s[p]];
    assert |b| == |s|;
    forall i | 0 <= i < |s| - cut
      ensures a[i] == b[cut..][i]
    {
      assert b[cut..][i] == b[cut + i];
    }
  }

  lemma TailOfAppended<K>(s: seq<K>, cut: nat, k: K)
    requires cut <= |s| && k !in s
    ensures k !in s[cut..]
    ensures (s + [k])[cut..] == s[cut..] + [k]
    ensures cut < |s| ==> (s + [k])[cut + 1..] == s[cut..][1..] + [k]
  {}

  // Using a key the set has evicted.
  lemma UseEvicted<K>(stack: seq<K>, capacity: nat, p: nat)
    requires Distinct(stack) && capacity >= 1 && p < Cut(|stack|, capacity)
    ensures Use(Newest(stack, capacity), capacity, stack[p]) == Newest(Without(stack, stack[p]) + [stack[p]], capacity)
  {
    var k, cut := stack[p], Cut(|stack|, capacity);
    DistinctTail(stack, cut);
    WithoutSplit(stack, p);
    TailAfterRemoval(stack, p, cut);
  }

  // Using a key for the first time.
  lemma UseNew<K>(stack: seq<K>, capacity: nat, k: K)
    requires capacity >= 1 && k !in stack
    ensures Use(Newest(stack, capacity), capacity, k) == Newest(Without(stack, k) + [k], capacity)
  {
    WithoutAbsent(stack, k);
    var cut := Cut(|stack|, capacity);
    TailOfAppended(stack, cut, k);
  }

  // One use keeps exactly the newest keys.
  lemma UseKeepsNewest<K>(stack: seq<K>, capacity: nat, k: K)
    requires Distinct(stack) && capacity >= 1
    ensures Use(Newest(stack, capacity), capacity, k) == Newest(Without(stack, k) + [k], capacity)
  {
    if k in stack {
      var p :| 0 <= p < |stack| && stack[p] == k;
      if p >= Cut(|stack|, capacity) {
        UseHeld(stack, capacity, p);
      } else {
        UseEvicted(stack, capacity, p);
      }
    } else {
      UseNew(stack, capacity, k);
    }
  }

  // The meaning of the set: after any trace of uses it holds the `capacity` most recently
  // used distinct keys, in the order of their last use.
  lemma {:induction false} HoldsMostRecent<K>(capacity: nat, trace: seq<K>)
    requires capacity >= 1
    ensures UseAll(capacity, trace) == Newest(Recency(trace), capacity)
  {
    if trace != [] {
      var front, k := trace[..|trace| - 1], trace[|trace| - 1];
      HoldsMostRecent(capacity, front);
      RecencyDistinct(front);
      UseKeepsNewest(Recency(front), capacity, k);
    }
  }

  lemma UseAllSnoc<K>(capacity: nat, trace: seq<K>, k: K)
    ensures UseAll(capacity, trace + [k]) == Use(UseAll(capacity, trace), capacity, k)
  {
    assert (trace + [k])[..|trace|] == trace;
  }

  // The keys are those a set holds after the trace.
  ghost predicate LeftBy<K>(keys: seq<K>, capacity: nat, trace: seq<K>) {
    keys == UseAll(capacity, trace)
  }

  lemma LeftByOneMore<K>(keys: seq<K>, capacity: nat, trace: seq<K>, k: K)
    requires LeftBy(keys, capacity, trace)
    ensures LeftBy(Use(keys, capacity, k), capacity, trace + [k])
  {
    UseAllSnoc(capacity, trace, k);
  }

  // Using a key again at once changes nothing.
  lemma UseTwice<K>(keys: seq<K>, capacity: nat, k: K)
    requires Distinct(keys) && capacity >= 1
    ensures Use(Use(keys, capacity, k), capacity, k) == Use(keys, capacity, k)
  {
    MoveToEnd(keys, k);
    if k !in keys {
      WithoutAbsent(keys, k);
    }
    var front := if k !in keys && |keys| == capacity then keys[1..] else Without(keys, k);
    LastAgain(front, k);
  }

  lemma LastAgain<K>(front: seq<K>, k: K)
    requires Distinct(front + [k])
    ensures Without(front + [k], k) == front
  {
    WithoutSplit(front + [k], |front|);
  }

  // The stack property: a larger set holds all that a smaller one holds.
  lemma StackProperty<K>(capacity: nat, trace: seq<K>)
    requires capacity >= 1
    ensures var small, large := UseAll(capacity, trace), UseAll(capacity + 1, trace);
            |small| <= |large| && small == large[|large| - |small|..]
  {
    HoldsMostRecent(capacity, trace);
    HoldsMostRecent(capacity + 1, trace);
  }

  class LruSet<K(==), V> {
    const capacity: nat
    var entries: seq<(K, V)>

    ghost function Keys(): (keys: seq<K>)
      reads this
      ensures |keys| == |entries|
    {
      KeysOf(entries)
    }

    static ghost function KeysOf(entries: seq<(K, V)>): (keys: seq<K>)
      ensures |keys| == |entries|
    {
      seq(|entries|, i requires 0 <= i < |entries| => entries[i].0)
    }

    ghost predicate Valid()
      reads this
    {
      capacity >= 1 && |entries| <= capacity && Distinct(Keys())
    }

    constructor (capacity: nat)
      requires capacity >= 1
      ensures Valid() && this.capacity == capacity && Keys() == []
    {
      this.capacity := capacity;
      entries := [];
    }

    method Find(k: K) returns (i: nat)
      requires Valid()
      ensures i <= |entries|
      ensures i < |entries| ==> Keys()[i] == k
      ensures i == |entries| <==> k !in Keys()
    {
      i := 0;
      while i < |entries| && entries[i].0 != k
        invariant i <= |entries|
        invariant forall j :: 0 <= j < i ==> Keys()[j] != k
      {
        i := i + 1;
      }
    }

    // Finds the value of k; `promote` makes k the most recently used key.
    method Get(k: K, promote: bool) returns (v: Option<V>)
      requires Valid()
      modifies this
      ensures Valid()
      ensures v.Some? <==> k in old(Keys())
      ensures v.Some? ==> (k, v.value) in entries
      ensures Keys() == if promote && k in old(Keys()) then Without(old(Keys()), k) + [k] else old(Keys())
      ensures multiset(entries) == multiset(old(entries))
      ensures v.None? ==> entries == old(entries)
    {
      var i := Find(k);
      if i == |entries| {
        return None;
      }
      v := Some(entries[i].1);
      if promote {
        ghost var keys := Keys();
        WithoutSplit(keys, i);
        MoveToEnd(keys, k);
        assert entries == entries[..i] + [entries[i]] + entries[i + 1..];
        entries := entries[..i] + entries[i + 1..] + [entries[i]];
        assert Keys() == keys[..i] + keys[i + 1..] + [k];
      }
    }

    // Replaces the value of k, as an assignment through the reference that get returns.
    method Assign(k: K, v: V)
      requires Valid() && k in Keys()
      modifies this
      ensures Valid() && Keys() == old(Keys())
      ensures forall e :: e in entries ==> if e.0 == k then e == (k, v) else e in old(entries)
    {
      var i := Find(k);
      ghost var keys := Keys();
      entries := entries[i := (k, v)];
      assert Keys() == keys;
      forall e | e in entries
        ensures if e.0 == k then e == (k, v) else e in old(entries)
      {
        var j :| 0 <= j < |entries| && entries[j] == e;
        assert keys[j] == e.0;
      }
    }

    // Makes room by evicting the least recently used entry, then inserts. An insertion
    // under a key that is still present is refused by the underlying map.
    method Put(k: K, v: V) returns (victim: Option<(K, V)>)
      requires Valid()
      modifies this
      ensures Valid()
      ensures victim == if |old(entries)| == capacity then Some(old(entries)[0]) else None
      ensures var kept := if victim.Some? then old(entries)[1..] else old(entries);
              entries == if k in KeysOf(kept) then kept else kept + [(k, v)]
    {
      victim := None;
      if |entries| == capacity {
        victim := Some(entries[0]);
        assert KeysOf(entries[1..]) == Keys()[1..];
        entries := entries[1..];
      }
      var i := Find(k);
      if i == |entries| {
        assert KeysOf(entries + [(k, v)]) == Keys() + [k];
        entries := entries + [(k, v)];
      }
    }

    // An insertion of a key that is not held, the only use the memory makes of it.
    method PutAbsent(k: K, v: V) returns (victim: Option<(K, V)>)
      requires Valid() && k !in Keys()
      modifies this
      ensures Valid() && Keys() == Use(old(Keys()), capacity, k)
      ensures victim == if |old(entries)| == capacity then Some(old(entries)[0]) else None
      ensures entries == (if victim.Some? then old(entries)[1..] else old(entries)) + [(k, v)]
    {
      ghost var kept := if |entries| == capacity then entries[1..] else entries;
      assert KeysOf(kept) == if |entries| == capacity then Keys()[1..] else Keys();
      victim := Put(k, v);
      assert Keys() == KeysOf(kept) + [k];
    }
  }
}
