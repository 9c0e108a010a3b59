/** The virtual interrupt controller as its callers use it, proved to do what GicModel says. */
module Gic {
  import opened Basics
  import opened BitWords
  import opened Distributor
  import opened GicModel

  method FindEmpty(registers: Registers) returns (index: Option<nat>)
    ensures index == FirstEmpty(registers)
  {
    for i := 0 to |registers|
      invariant forall j :: 0 <= j < i ==> registers[j].Some?
    {
      if registers[i].None? { return Some(i); }
    }
    return None;
  }

  /** irq_in_lrs_overflow */
  method InOverflow(q: seq<IRQ>, irq: IRQ) returns (found: bool)
    ensures found == (irq in q)
  {
    for i := 0 to |q|
      invariant irq !in q[..i]
    {
      if q[i] == irq { return true; }
    }
    return false;
  }

  lemma AckAllNext(d: Distributor, list: seq<(IRQ, nat)>, i: nat)
    requires d.Valid() && i <= |list| && forall j :: 0 <= j < i ==> list[j].1 < d.nodes
    ensures i == 0 ==> AckAll(d, list[..i]) == d
    ensures i < |list| && list[i].1 < d.nodes ==>
      AckAll(d, list[..i + 1]) == AckAll(d, list[..i]).Ack(list[i].0, list[i].1)
  {
    if i < |list| && list[i].1 < d.nodes {
      assert list[..i + 1][..i] == list[..i];
    }
  }

  method AckEach(d: Distributor, toAck: seq<(IRQ, nat)>) returns (ok: bool, e: Distributor)
    requires d.Valid()
    ensures ok == (forall i :: 0 <= i < |toAck| ==> toAck[i].1 < d.nodes)
    ensures e.Valid() && e.nodes == d.nodes && (ok ==> e == AckAll(d, toAck))
  {
    hide *;
    e := d;
    AckAllNext(d, toAck, 0);
    for i := 0 to |toAck|
      invariant e.Valid() && e.nodes == d.nodes && forall j :: 0 <= j < i ==> toAck[j].1 < d.nodes
      invariant e == AckAll(d, toAck[..i])
    {
      if d.nodes <= toAck[i].1 { return false, e; }
      AckAllNext(d, toAck, i);
      e := e.Ack(toAck[i].0, toAck[i].1);
    }
    assert toAck[..|toAck|] == toAck;
    ok := true;
  }

  class GIC {
    var dist: Distributor
    var mirror: seq<Registers>
    var overflow: seq<seq<IRQ>>

    /** The list registers themselves, the ends they have still to report, and what happened to them. */
    var hardware: seq<Registers>
    var ended: seq<set<nat>>
    var trace: seq<Access>

    ghost function Now(): State
      reads this
    {
      State(dist, mirror, overflow, hardware, ended, trace)
    }

    constructor (d: Distributor)
      requires d.Valid()
      ensures Ok(Now()) && AllBusy(Now()) && dist == d && trace == []
      ensures forall n :: 0 <= n < d.nodes ==> overflow[n] == [] && ended[n] == {}
    {
      dist := d;
      var empty := seq(NUM_LRS, _ => None);
      mirror, hardware := seq(d.nodes, _ => empty), seq(d.nodes, _ => empty);
      overflow, ended := seq(d.nodes, _ => []), seq(d.nodes, _ => {});
      trace := [];
    }

    method InjectIRQ(node: nat, index: nat, irq: IRQ)
      requires Ok(Now()) && node < dist.nodes && index < NUM_LRS && mirror[node][index].None?
      modifies this
      ensures Ok(Now()) && Now() == Inject(old(Now()), node, index, irq)
    {
      InjectKeeps(Now(), node, index, irq);
      hide Ok;
      var priority := dist.priority.Get(irq, node) / 8;
      dist := dist.SetPending(irq, node);
      var under := dist;
      if dist.ShouldInject(irq, node) {
        dist := dist.SetActive(irq, node);
        mirror := Put(mirror, node, index, Some(irq));
        hardware := Put(hardware, node, index, Some(irq));
        trace := trace + [Injected(node, index, irq, priority, under)];
      }
    }

    method ForwardIRQ(target: nat, irq: IRQ)
      requires Ok(Now()) && target < dist.nodes
      modifies this
      ensures Ok(Now()) && Now() == Forward(old(Now()), target, irq)
    {
      ForwardKeeps(Now(), target, irq);
      hide Inject;
      var index := FindEmpty(mirror[target]);
      if index.Some? {
        InjectIRQ(target, index.value, irq);
      } else {
        var found := InOverflow(overflow[target], irq);
        if !found {
          overflow := overflow[target := overflow[target] + [irq]];
        }
      }
    }

    /** handle_irq */
    method HandlePPI(node: nat, irq: IRQ) returns (ok: bool)
      requires Ok(Now())
      modifies this
      ensures Follows(old(Now()), PPI(node, irq), ok)
    {
      ok := node < dist.nodes;
      if ok { ForwardIRQ(node, irq); }
    }

    method HandleSPI(calling: nat, irq: IRQ) returns (ok: bool)
      requires Ok(Now())
      modifies this
      ensures Follows(old(Now()), SPI(calling, irq), ok)
    {
      hide Forward;
      if dist.IsTarget(irq, calling) {
        ForwardIRQ(calling, irq);
        return true;
      }
      if irq < PRIVATE || dist.nodes == 0 { return false; }
      var targets := dist.targets.Get(irq, 0);
      if targets == 0 { return true; }
      var first := TrailingZeros(targets);
      ok := first < dist.nodes;
      if ok { ForwardIRQ(first, irq); }
    }

    /** The guest ends the interrupt in a list register, and the hardware forgets it. */
    method EndInterrupt(node: nat, index: nat)
      requires Ok(Now()) && node < dist.nodes && index < NUM_LRS && hardware[node][index].Some?
      modifies this
      ensures Follows(old(Now()), End(node, index), true)
    {
      EndKeeps(Now(), node, index);
      hardware := Put(hardware, node, index, None);
      ended := ended[node := ended[node] + {index}];
      trace := trace + [Ended(node, index)];
    }

    /** The fault for an ended interrupt: the mirror has it, and the next in the queue may take the place. */
    method HandleMaintenance(node: nat, index: nat)
      requires Ok(Now()) && node < dist.nodes && index in ended[node]
      modifies this
      ensures Follows(old(Now()), Maintenance(node, index), true)
    {
      hide Inject, Retire, Recorded, Maintain, Mirrors, NoDup;
      MaintainKeeps(Now(), node, index);
      ghost var g := Now();
      MaintainIs(g, node, index);
      hide Ok, Shaped;
      RetireRegister(node, index);
      if overflow[node] != [] {
        var next := overflow[node][0];
        overflow := overflow[node := overflow[node][1..]];
        InjectIRQ(node, index, next);
      }
    }

    /** The ended interrupt leaves the mirror and is acked. */
    method RetireRegister(node: nat, index: nat)
      requires Shaped(Now()) && node < dist.nodes && index < NUM_LRS && mirror[node][index].Some?
      modifies this`mirror, this`ended, this`dist
      ensures Now() == Retire(old(Now()), node, index)
      ensures dist.nodes == |mirror| == |overflow| == old(dist).nodes && |mirror[node]| == NUM_LRS &&
        mirror[node][index].None?
    {
      var irq := mirror[node][index].value;
      mirror := Put(mirror, node, index, None);
      ended := ended[node := ended[node] - {index}];
      dist := dist.Ack(irq, node);
    }

    /** A write to the distributor, whatever it does to the registers, and the acks and injections it asks for. */
    method HandleWrite(d: Distributor, toAck: seq<(IRQ, nat)>, toInject: seq<(IRQ, nat)>) returns (ok: bool)
      requires Ok(Now()) && d.Valid() && d.nodes == dist.nodes
      modifies this
      ensures Follows(old(Now()), Write(d, toAck, toInject), ok)
    {
      WriteKeeps(Now(), d, toAck, toInject);
      hide AckAll, ForwardAll, Mirrors;
      var acked;
      ok, acked := AckEach(d, toAck);
      if !ok { return; }
      dist := acked;
      ok := InjectEach(toInject);
    }

    method InjectEach(toInject: seq<(IRQ, nat)>) returns (ok: bool)
      requires Ok(Now())
      modifies this
      ensures ok == InRange(toInject, old(dist).nodes)
      ensures ok ==> Ok(Now()) && Now() == ForwardAll(old(Now()), toInject)
    {
      hide ForwardAll, Forward, Mirrors;
      ForwardAllNext(Now(), toInject, 0);
      for i := 0 to |toInject|
        invariant Ok(Now()) && dist.nodes == old(dist).nodes && InRange(toInject[..i], dist.nodes)
        invariant Now() == ForwardAll(old(Now()), toInject[..i])
      {
        if dist.nodes <= toInject[i].1 { return false; }
        ForwardAllNext(old(Now()), toInject, i);
        ForwardIRQ(toInject[i].1, toInject[i].0);
      }
      assert toInject[..|toInject|] == toInject;
      ok := true;
    }

    /** The event went through as the model says, or ended the server where the model says so. */
    ghost predicate Follows(g: State, e: Event, ok: bool)
      reads this
    {
      Shaped(g) &&
      if ok then Ok(Now()) && Handle(g, e) == On(Now()) else Handle(g, e).Fails?
    }

    /**
     Any run, up to the first event that ends the server or cannot happen: what is reached is the
     model's state after the events served.
     */
    method Serve(events: seq<Event>) returns (served: nat, ghost last: State)
      requires Ok(Now()) && forall i :: 0 <= i < |events| ==> WriteFits(events[i], dist.nodes)
      modifies this
      ensures served <= |events| && Ok(last) && HandleAll(old(Now()), events[..served]) == Some(last)
      ensures Recorded(old(Now()), last)
      ensures served < |events| ==> !Handle(last, events[served]).On?
      ensures served == |events| ==> Now() == last
    {
      hide Ok, Handle, Recorded;
      served, last := 0, Now();
      OkShaped(last);
      assert events[..0] == [];
      while served < |events|
        invariant served <= |events| && Ok(Now()) && last == Now() && Shaped(old(Now()))
        invariant dist.nodes == old(dist).nodes
        invariant HandleAll(old(Now()), events[..served]) == Some(last)
      {
        var ok := Step(events[served]);
        if !ok { break; }
        HandleAllNext(old(Now()), events, served, last, Now());
        served, last := served + 1, Now();
      }
      RunsAreRightful(old(Now()), events[..served]);
    }

    method Step(e: Event) returns (ok: bool)
      requires Ok(Now()) && WriteFits(e, dist.nodes)
      modifies this
      ensures Shaped(old(Now())) && (ok <==> Handle(old(Now()), e).On?)
      ensures ok ==> dist.nodes == old(dist).nodes
      ensures ok ==> Ok(Now()) && Handle(old(Now()), e) == On(Now())
    {
      hide Forward, ForwardAll, AckAll, Mirrors;
      match e
      case PPI(node, irq) => ok := HandlePPI(node, irq);
      case SPI(calling, irq) => ok := HandleSPI(calling, irq);
      case Write(d, toAck, toInject) =>
        ok := HandleWrite(d, toAck, toInject);
      case End(node, index) =>
        ok := node < dist.nodes && index < NUM_LRS && hardware[node][index].Some?;
        if ok { EndInterrupt(node, index); }
      case Maintenance(node, index) =>
        ok := node < dist.nodes && index in ended[node];
        if ok { HandleMaintenance(node, index); }
        else { NothingEnded(Now(), node, index); }
    }
  }

  /** A write leaves a distributor for the same cores. */
  ghost predicate WriteFits(e: Event, nodes: nat) {
    e.Write? ==> e.dist.Valid() && e.dist.nodes == nodes
  }

  lemma NothingEnded(g: State, node: nat, index: nat)
    requires Shaped(g) && !(node < g.dist.nodes && index in g.ended[node])
    ensures Handle(g, Maintenance(node, index)).Impossible?
  {}

  /** Maintenance as its parts, with the register open again in between. */
  lemma MaintainIs(g: State, node: nat, index: nat)
    requires Ok(g) && node < g.dist.nodes && index in g.ended[node] && index < NUM_LRS
    requires g.mirror[node][index].Some?
    ensures var r := Retire(g, node, index);
      && (g.overflow[node] == [] ==> Maintain(g, node, index) == r)
      && (g.overflow[node] != [] ==>
            var s := r.(overflow := r.overflow[node := r.overflow[node][1..]]);
            Ok(s) && Maintain(g, node, index) == Inject(s, node, index, g.overflow[node][0]))
  {
    assert Mirrors(g.mirror[node], g.hardware[node], g.ended[node]);
    hide Inject;
  }

  lemma ForwardAllNext(g: State, list: seq<(IRQ, nat)>, i: nat)
    requires Shaped(g) && i <= |list| && InRange(list[..i], g.dist.nodes)
    ensures i == 0 ==> ForwardAll(g, list[..i]) == g
    ensures i < |list| && list[i].1 < g.dist.nodes ==>
      && InRange(list[..i + 1], g.dist.nodes)
      && ForwardAll(g, list[..i + 1]) == Forward(ForwardAll(g, list[..i]), list[i].1, list[i].0)
  {
    hide Forward;
    if i < |list| && list[i].1 < g.dist.nodes {
      assert list[..i + 1][..i] == list[..i];
    }
  }

  lemma HandleAllNext(g: State, events: seq<Event>, i: nat, h: State, next: State)
    requires Shaped(g) && i < |events| && HandleAll(g, events[..i]) == Some(h) && Shaped(h)
    requires Handle(h, events[i]) == On(next)
    ensures HandleAll(g, events[..i + 1]) == Some(next)
  {
    hide Handle;
    assert events[..i + 1][..i] == events[..i];
  }
}
