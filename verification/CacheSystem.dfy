// The wired-up cache of warmup-project/cache.h:431-483: one controller, and two ways of
// memories that share every input signal.
module CacheSystemModel {
  import opened CacheSpec
  import opened SramModel
  import opened CacheMachine
  import opened CacheControllerModel

  class WayMemories {
    const data: Sram<Block>
    const state: Sram<int>
    const tag: Sram<Address>

    ghost const footprint: set<object>

    ghost predicate Valid(delay: nat)
      reads footprint
    {
      && footprint == data.Footprint() + state.Footprint() + tag.Footprint()
      && data.Footprint() !! state.Footprint() && data.Footprint() !! tag.Footprint()
      && state.Footprint() !! tag.Footprint()
      && data.Valid() && state.Valid() && tag.Valid()
      && data.data.Length == state.data.Length == tag.data.Length == SETS
      && data.pipeline.Length == state.pipeline.Length == tag.pipeline.Length == delay
    }

    ghost function Model(delay: nat): Way
      requires Valid(delay)
      reads footprint
    {
      Way(data.Model(), state.Model(), tag.Model())
    }

    constructor (delay: nat)
      requires delay >= 1
      ensures Valid(delay) && fresh(footprint)
      ensures Model(delay) == InitialMachine(delay).way
    {
      var data := new Sram(SETS, delay, 0);
      var state := new Sram(SETS, delay, 0);
      var tag := new Sram(SETS, delay, 0);
      this.data, this.state, this.tag := data, state, tag;
      footprint := data.Footprint() + state.Footprint() + tag.Footprint();
    }

    method Outs(ghost delay: nat) returns (outs: Douts)
      requires Valid(delay)
      ensures outs == Model(delay).Outs()
    {
      outs := Douts(data.dout, state.dout, tag.dout);
    }

    // One clock edge of the three memories.
    method Clock(s: Signals, ghost delay: nat)
      requires Valid(delay) && s.Valid()
      modifies footprint
      ensures Valid(delay) && delay >= 1
      ensures Model(delay) == old(Model(delay)).Step(s)
    {
      data.Work(s.data.ena, s.data.we, s.data.addr, s.data.din);
      state.Work(s.state.ena, s.state.we, s.state.addr, s.state.din);
      tag.Work(s.tag.ena, s.tag.we, s.tag.addr, s.tag.din);
    }
  }

  method TwoWays(delay: nat) returns (way1: WayMemories, way2: WayMemories)
    requires delay >= 1
    ensures way1.Valid(delay) && way2.Valid(delay) && fresh(way1.footprint) && fresh(way2.footprint)
    ensures way1.footprint !! way2.footprint
    ensures way1.Model(delay) == way2.Model(delay) == InitialMachine(delay).way
  {
    way1 := new WayMemories(delay);
    way2 := new WayMemories(delay);
  }

  class CacheProject {
    const controller: Controller
    const way1: WayMemories
    const way2: WayMemories

    ghost const footprint: set<object>

    // The two ways are mirror images.
    ghost predicate Valid()
      reads footprint
    {
      && footprint == {controller} + way1.footprint + way2.footprint
      && controller !in way1.footprint && controller !in way2.footprint && way1.footprint !! way2.footprint
      && controller.Valid() && controller.delay >= 1
      && way1.Valid(controller.delay) && way2.Valid(controller.delay)
      && way1.Model(controller.delay) == way2.Model(controller.delay)
    }

    ghost function Snapshot(): Machine
      requires Valid()
      reads footprint
    {
      Machine(controller.r, controller.s, way1.Model(controller.delay))
    }

    constructor (delay: nat)
      requires delay >= 1
      ensures Valid() && fresh(footprint) && controller.delay == delay
      ensures Snapshot() == InitialMachine(delay)
    {
      var way1, way2 := TwoWays(delay);
      var controller := new Controller(delay);
      this.way1, this.way2, this.controller := way1, way2, controller;
      footprint := {controller} + way1.footprint + way2.footprint;
    }

    // One clock edge. Every process reads the signals visible before it; the memories see
    // the ports as they were, not as the controller has just written them.
    method Edge(input: Input)
      requires Valid()
      modifies footprint
      ensures Valid()
      ensures Snapshot() == MachineStep(old(Snapshot()), input, controller.delay)
    {
      ghost var d := controller.delay;
      var visible := controller.s;
      var outs1 := way1.Outs(d);
      var outs2 := way2.Outs(d);
      controller.Work(input, outs1, outs2);
      way1.Clock(visible, d);
      way2.Clock(visible, d);
      assert way1.Model(d) == way2.Model(d);
      assert Valid();
    }
  }
}
