// What the cache of warmup-project/cache.h is for, as an atomic direct-mapped store:
// requests, their effect, their replies, and how many clock edges a reply takes.
module CacheSpec {

  // sc_uint<64>
  type Address = a: int | 0 <= a < 0x1_0000_0000_0000_0000
  type Block = int

  const SETS := 16
  const MISS := 0xff

  // The general inputs of the cache port (warmup-project/cache.h:74-83).
  datatype Request = Request(
    addr: Address, isInsert: bool, hasData: bool, data: Block,
    needsData: bool, updateState: bool, newState: int)

  datatype Input = Nothing | Submit(req: Request)

  // The four kinds of request the controller tells apart, in the order it tests them; a
  // request of no kind is dropped.
  datatype Kind = Insert | Read | Write | Update | Ignored

  function Classify(q: Request): Kind {
    if q.isInsert && q.hasData && q.updateState then Insert
    else if q.needsData then Read
    else if q.hasData && q.updateState then Write
    else if q.updateState then Update
    else Ignored
  }

  // (addr & 0x3C0) >> 6: bits 6 to 9
  function IndexOf(a: Address): (i: nat)
    ensures i < SETS
  {
    a / 64 % 16
  }

  // addr & ~0x3FF: the address without its low ten bits
  function TagOf(a: Address): Address {
    a - a % 1024
  }

  datatype Line = Line(tag: Address, state: int, data: Block)

  type Store = s: seq<Line> | |s| == SETS witness seq(SETS, i => Line(0, 0, 0))

  predicate Hit(store: Store, q: Request) {
    store[IndexOf(q.addr)].tag == TagOf(q.addr)
  }

  // The store after the request.
  function Serve(store: Store, q: Request): Store {
    var i := IndexOf(q.addr);
    match Classify(q)
    case Insert => store[i := Line(TagOf(q.addr), q.newState, q.data)]
    case Write => if Hit(store, q) then store[i := Line(TagOf(q.addr), q.newState, q.data)] else store
    case Update => if Hit(store, q) then store[i := store[i].(state := q.newState)] else store
    case _ => store
  }

  // Clock edges from the one that accepts the request to the one that replies, for a
  // memory delay d: a second pass is needed to write after a tag hit.
  function Latency(store: Store, q: Request, d: nat): nat {
    if (Classify(q).Write? || Classify(q).Update?) && Hit(store, q) then 2 * (d + 1) else d + 1
  }

  // The state a reply reports, in terms of the store after the request.
  function ReplyState(store: Store, q: Request): int {
    if Hit(store, q) then store[IndexOf(q.addr)].state else MISS
  }

  datatype Phase = Idle | Working(q: Request, remaining: nat) | Answered(q: Request)

  datatype Atomic = Atomic(store: Store, phase: Phase) {

    predicate Available() {
      !phase.Working?
    }

    function Step(input: Input, d: nat): Atomic {
      match phase
      case Working(q, remaining) =>
        if remaining <= 1 then Atomic(store, Answered(q)) else Atomic(store, Working(q, remaining - 1))
      case _ =>
        if input.Submit? && Classify(input.req) != Ignored
        then Atomic(Serve(store, input.req), Working(input.req, Latency(store, input.req, d)))
        else Atomic(store, Idle)
    }

    ghost function Run(inputs: seq<Input>, d: nat): Atomic {
      if inputs == [] then this else Run(inputs[..|inputs| - 1], d).Step(inputs[|inputs| - 1], d)
    }
  }
}
