/** Where an interrupt goes: into a register, into the queue, or nowhere since the distributor refuses it. */
module GicDelivery {
  import opened Basics
  import opened BitWords
  import opened Distributor
  import opened GicModel

  /** An interrupt is allowed unless it is active, off, or meant for other cores. */
  lemma AllowedMeans(d: Distributor, irq: IRQ, n: nat)
    requires d.Valid() && n < d.nodes
    ensures Allowed(d, irq, n) <==>
      d.control == 1 && d.enable.Get(irq, n) == 1 && d.IsTarget(irq, n) && d.active.Get(irq, n) == 0
  {
    SetThenGet(d.pending, irq, n, 1, irq, n);
  }

  /** The interrupt is switched on for the core, which is one of its targets, and it is not active there. */
  ghost predicate Welcome(d: Distributor, irq: IRQ, n: nat)
    requires d.Valid() && n < d.nodes
  {
    d.control == 1 && d.enable.Get(irq, n) == 1 && d.IsTarget(irq, n) && d.active.Get(irq, n) == 0
  }

  ghost predicate OthersUntouched(g: State, h: State, n: nat) {
    && |h.mirror| == |g.mirror| && |h.hardware| == |g.hardware| && |h.overflow| == |g.overflow| && h.ended == g.ended
    && (forall m :: 0 <= m < |g.mirror| && m != n ==> h.mirror[m] == g.mirror[m])
    && (forall m :: 0 <= m < |g.hardware| && m != n ==> h.hardware[m] == g.hardware[m])
    && (forall m :: 0 <= m < |g.overflow| && m != n ==> h.overflow[m] == g.overflow[m])
  }

  /**
   From g to h an interrupt has arrived at core n: with all registers taken it waits behind the
   others, once; otherwise it is in the first register that was empty and active, or it is refused
   and stays pending.
   */
  ghost predicate Arrived(g: State, h: State, n: nat, irq: IRQ)
    requires Shaped(g) && Shaped(h) && n < g.dist.nodes == h.dist.nodes
  {
    && OthersUntouched(g, h, n)
    && if forall i :: 0 <= i < 4 ==> g.mirror[n][i].Some? then
         && h.dist == g.dist && h.mirror == g.mirror && h.hardware == g.hardware && h.trace == g.trace
         && h.overflow[n] == g.overflow[n] + if irq in g.overflow[n] then [] else [irq]
       else
         && h.overflow == g.overflow && h.dist.pending.Get(irq, n) == 1
         && if Welcome(g.dist, irq, n) then InRegister(g, h, n, irq)
            else h.mirror == g.mirror && h.hardware == g.hardware && h.trace == g.trace
  }

  ghost predicate InRegister(g: State, h: State, n: nat, irq: IRQ)
    requires Shaped(g) && Shaped(h) && n < g.dist.nodes == h.dist.nodes
  {
    && h.dist.active.Get(irq, n) == 1
    && exists i :: 0 <= i < 4 && g.mirror[n][i].None? && (forall j :: 0 <= j < i ==> g.mirror[n][j].Some?) &&
         h.mirror[n] == g.mirror[n][i := Some(irq)] && h.hardware[n] == g.hardware[n][i := Some(irq)]
  }

  lemma InjectArrives(g: State, n: nat, index: nat, irq: IRQ)
    requires Shaped(g) && n < g.dist.nodes && FirstEmpty(g.mirror[n]) == Some(index)
    ensures index < NUM_LRS && Arrived(g, Inject(g, n, index, irq), n, irq)
  {
    var h, d := Inject(g, n, index, irq), g.dist.SetPending(irq, n);
    AllowedMeans(g.dist, irq, n);
    SetThenGet(g.dist.pending, irq, n, 1, irq, n);
    SetThenGet(d.active, irq, n, 1, irq, n);
    assert g.mirror[n][index].None?;
  }

  lemma ForwardArrives(g: State, n: nat, irq: IRQ)
    requires Shaped(g) && n < g.dist.nodes
    ensures Arrived(g, Forward(g, n, irq), n, irq)
  {
    var index := FirstEmpty(g.mirror[n]);
    if index.Some? {
      assert !(forall i :: 0 <= i < 4 ==> g.mirror[n][i].Some?) by { assert g.mirror[n][index.value].None?; }
      InjectArrives(g, n, index.value, irq);
      hide Inject, Arrived;
    } else {
      hide Inject;
    }
  }

  /** The lowest core of a target byte. */
  ghost predicate IsLowest(targets: nat, n: nat) {
    Bit(targets, n) && forall m: nat :: m < n ==> !Bit(targets, m)
  }

  /**
   A private interrupt arrives at its core.  A shared one arrives at the core that took it if that is
   a target, and else at its lowest target; it goes nowhere only without targets, and ends the server
   only if the lowest target does not exist.
   */
  lemma InterruptArrives(g: State, e: Event)
    requires Shaped(g)
    ensures e.PPI? && e.node < g.dist.nodes ==>
      Handle(g, e).On? && Arrived(g, Handle(g, e).state, e.node, e.irq)
    ensures e.SPI? && e.calling < g.dist.nodes && Bit(g.dist.targets.Get(e.irq, e.calling), e.calling) ==>
      Handle(g, e).On? && Arrived(g, Handle(g, e).state, e.calling, e.irq)
    ensures e.SPI? && 32 <= e.irq && 0 < g.dist.nodes && !g.dist.IsTarget(e.irq, e.calling) ==>
      var targets := g.dist.targets.Get(e.irq, 0);
      && (targets == 0 ==> Handle(g, e) == On(g))
      && forall n: nat :: IsLowest(targets, n) ==>
           if n < g.dist.nodes then Handle(g, e).On? && Arrived(g, Handle(g, e).state, n, e.irq)
           else Handle(g, e).Fails?
  {
    hide Forward, Arrived;
    if e.PPI? && e.node < g.dist.nodes { ForwardArrives(g, e.node, e.irq); }
    if e.SPI? {
      if g.dist.IsTarget(e.irq, e.calling) {
        ForwardArrives(g, e.calling, e.irq);
      } else if 32 <= e.irq && 0 < g.dist.nodes {
        SharedArrives(g, e.calling, e.irq);
      }
    }
  }

  lemma SharedArrives(g: State, calling: nat, irq: IRQ)
    requires Shaped(g) && 32 <= irq && 0 < g.dist.nodes && !g.dist.IsTarget(irq, calling)
    ensures var targets, r := g.dist.targets.Get(irq, 0), SpiNext(g, calling, irq);
      && (targets == 0 ==> r == On(g))
      && forall n: nat :: IsLowest(targets, n) ==>
           if n < g.dist.nodes then r.On? && Arrived(g, r.state, n, irq) else r.Fails?
  {
    hide Forward, Arrived;
    var targets := g.dist.targets.Get(irq, 0);
    forall n: nat | IsLowest(targets, n) ensures 0 < targets && n == TrailingZeros(targets) {
      if targets == 0 { NoBits(n); }
      LowestBit(targets, n);
    }
    if targets != 0 && TrailingZeros(targets) < g.dist.nodes {
      ForwardArrives(g, TrailingZeros(targets), irq);
    }
  }

  /** Whether an interrupt would be let in once `ended` has been acked. */
  ghost predicate WelcomeAfter(d: Distributor, ended: IRQ, irq: IRQ, n: nat)
    requires d.Valid() && n < d.nodes
  {
    d.control == 1 && d.enable.Get(irq, n) == 1 && d.IsTarget(irq, n) &&
    (irq == ended || d.active.Get(irq, n) == 0)
  }

  lemma AckedWelcome(d: Distributor, ended: IRQ, irq: IRQ, n: nat)
    requires d.Valid() && n < d.nodes
    ensures Allowed(d.Ack(ended, n), irq, n) <==> WelcomeAfter(d, ended, irq, n)
    ensures irq != ended ==> d.Ack(ended, n).active.Get(irq, n) == d.active.Get(irq, n)
    ensures d.Ack(ended, n).active.Get(ended, n) == 0
  {
    SetThenGet(d.active, ended, n, 0, irq, n);
    SetThenGet(d.active, ended, n, 0, ended, n);
    AllowedMeans(d.Ack(ended, n), irq, n);
  }

  /**
   Handling an end: the first interrupt waiting leaves the queue; if it is let in, it is in the
   register and active, and else the register is empty.  The ended one is inactive, unless it is
   the one let in.
   */
  lemma MaintenanceDoes(g: State, n: nat, index: nat)
    requires Shaped(g) && n < g.dist.nodes && index < NUM_LRS && g.mirror[n][index].Some?
    ensures var h, q, ended := Maintain(g, n, index), g.overflow[n], g.mirror[n][index].value;
      && h.overflow == g.overflow[n := if q == [] then [] else q[1..]]
      && h.ended == g.ended[n := g.ended[n] - {index}]
      && if q != [] && WelcomeAfter(g.dist, ended, q[0], n) then
           && h.mirror == Put(g.mirror, n, index, Some(q[0])) && h.hardware == Put(g.hardware, n, index, Some(q[0]))
           && h.dist.active.Get(q[0], n) == 1 && (q[0] != ended ==> h.dist.active.Get(ended, n) == 0)
         else
           && h.mirror == Put(g.mirror, n, index, None) && h.hardware == g.hardware
           && h.dist.active.Get(ended, n) == 0
  {
    var h, q, ended := Maintain(g, n, index), g.overflow[n], g.mirror[n][index].value;
    MaintainMirror(g, n, index);
    var d := g.dist.Ack(ended, n);
    AckedWelcome(g.dist, ended, ended, n);
    if q != [] {
      AckedWelcome(g.dist, ended, q[0], n);
      SetThenGet(d.SetPending(q[0], n).active, q[0], n, 1, q[0], n);
      SetThenGet(d.SetPending(q[0], n).active, q[0], n, 1, ended, n);
    }
    hide WelcomeAfter, Put;
  }

  // ----- Guest writes -----

  ghost predicate NamedIn(list: seq<(IRQ, nat)>, irq: IRQ, n: nat) {
    exists i :: 0 <= i < |list| && Same(list[i].0, list[i].1, irq, n)
  }

  lemma NamedSnoc(list: seq<(IRQ, nat)>, k: nat, irq: IRQ, n: nat)
    requires |list| == k + 1
    ensures NamedIn(list, irq, n) <==> NamedIn(list[..k], irq, n) || Same(list[k].0, list[k].1, irq, n)
  {
    if NamedIn(list[..k], irq, n) {
      var i :| 0 <= i < k && Same(list[..k][i].0, list[..k][i].1, irq, n);
      assert Same(list[i].0, list[i].1, irq, n);
    }
    if i :| 0 <= i < |list| && Same(list[i].0, list[i].1, irq, n) {
      assert i < k ==> list[..k][i] == list[i];
    }
  }

  lemma OneAck(d: Distributor, ended: IRQ, m: nat, irq: IRQ, n: nat)
    requires d.Valid() && m < d.nodes && n < d.nodes
    ensures d.Ack(ended, m).active.Get(irq, n) == if Same(ended, m, irq, n) then 0 else d.active.Get(irq, n)
  {
    SetThenGet(d.active, ended, m, 0, irq, n);
  }

  /** After the acks of a write the interrupts named are inactive, and the others as before. */
  lemma {:induction false} AcksClear(d: Distributor, list: seq<(IRQ, nat)>, irq: IRQ, n: nat)
    requires d.Valid() && InRange(list, d.nodes) && n < d.nodes
    ensures AckAll(d, list).active.Get(irq, n) == if NamedIn(list, irq, n) then 0 else d.active.Get(irq, n)
  {
    hide NamedIn, Same;
    if list == [] {
      NamedNowhere(irq, n);
    } else {
      var k := |list| - 1;
      AcksClear(d, list[..k], irq, n);
      NamedSnoc(list, k, irq, n);
      OneAck(AckAll(d, list[..k]), list[k].0, list[k].1, irq, n);
    }
  }

  lemma NamedNowhere(irq: IRQ, n: nat)
    ensures !NamedIn([], irq, n)
  {}

  /** Waiting in the queue, or pending in the distributor. */
  ghost predicate Present(g: State, n: nat, irq: IRQ)
    requires Shaped(g) && n < g.dist.nodes
  {
    irq in g.overflow[n] || g.dist.pending.Get(irq, n) == 1
  }

  lemma ForwardKeepsPresent(g: State, target: nat, irq: IRQ, n: nat, other: IRQ)
    requires Shaped(g) && target < g.dist.nodes && n < g.dist.nodes && Present(g, n, other)
    ensures Present(Forward(g, target, irq), n, other)
  {
    SetThenGet(g.dist.pending, irq, target, 1, other, n);
  }

  /** Every interrupt that a write injects is in the queue of its core afterwards or pending there. */
  lemma {:induction false} AllPresent(g: State, list: seq<(IRQ, nat)>, i: nat)
    requires Shaped(g) && InRange(list, g.dist.nodes) && i < |list|
    ensures Present(ForwardAll(g, list), list[i].1, list[i].0)
    decreases |list|
  {
    hide Forward, Present, Arrived;
    var k := |list| - 1;
    var before, last := ForwardAll(g, list[..k]), list[k];
    if i < k {
      AllPresent(g, list[..k], i);
      ForwardKeepsPresent(before, last.1, last.0, list[i].1, list[i].0);
    } else {
      ForwardArrives(before, last.1, last.0);
      ArrivedIsPresent(before, Forward(before, last.1, last.0), last.1, last.0);
    }
  }

  lemma ArrivedIsPresent(g: State, h: State, n: nat, irq: IRQ)
    requires Shaped(g) && Shaped(h) && n < g.dist.nodes == h.dist.nodes && Arrived(g, h, n, irq)
    ensures Present(h, n, irq)
  {}

  lemma ForwardKeepsActive(g: State, target: nat, irq: IRQ, n: nat, other: IRQ)
    requires Shaped(g) && target < g.dist.nodes && n < g.dist.nodes && !Same(irq, target, other, n)
    ensures Forward(g, target, irq).dist.active.Get(other, n) == g.dist.active.Get(other, n)
  {
    SetThenGet(g.dist.active, irq, target, 1, other, n);
  }

  /** Injections make no other interrupt active. */
  lemma {:induction false} OthersKeepActive(g: State, list: seq<(IRQ, nat)>, irq: IRQ, n: nat)
    requires Shaped(g) && InRange(list, g.dist.nodes) && n < g.dist.nodes && !NamedIn(list, irq, n)
    ensures ForwardAll(g, list).dist.active.Get(irq, n) == g.dist.active.Get(irq, n)
  {
    hide NamedIn, Same, Forward;
    if list != [] {
      var k := |list| - 1;
      NamedSnoc(list, k, irq, n);
      OthersKeepActive(g, list[..k], irq, n);
      ForwardKeepsActive(ForwardAll(g, list[..k]), list[k].1, list[k].0, n, irq);
    }
  }

  /** What is injected is queued or pending, and of the rest exactly what is acked has become inactive. */
  ghost predicate Written(h: State, d: Distributor, toAck: seq<(IRQ, nat)>, toInject: seq<(IRQ, nat)>)
    requires Shaped(h) && d.Valid() && h.dist.nodes == d.nodes && InRange(toInject, d.nodes)
  {
    && (forall i :: 0 <= i < |toInject| ==> Present(h, toInject[i].1, toInject[i].0))
    && forall irq: IRQ, n: nat :: n < d.nodes && !NamedIn(toInject, irq, n) ==>
         h.dist.active.Get(irq, n) == if NamedIn(toAck, irq, n) then 0 else d.active.Get(irq, n)
  }

  /** A guest's write fails exactly if it names a core that does not exist; else acks and injections are made. */
  lemma WriteDoes(g: State, d: Distributor, toAck: seq<(IRQ, nat)>, toInject: seq<(IRQ, nat)>)
    requires Shaped(g) && d.Valid() && d.nodes == g.dist.nodes
    ensures var r := Handle(g, Write(d, toAck, toInject));
      if InRange(toAck, d.nodes) && InRange(toInject, d.nodes) then
        r.On? && Shaped(r.state) && r.state.dist.nodes == d.nodes && Written(r.state, d, toAck, toInject)
      else r.Fails?
  {
    hide Present, NamedIn, ForwardAll, AckAll;
    if InRange(toAck, d.nodes) && InRange(toInject, d.nodes) {
      var s := g.(dist := AckAll(d, toAck));
      forall i | 0 <= i < |toInject| ensures Present(ForwardAll(s, toInject), toInject[i].1, toInject[i].0) {
        AllPresent(s, toInject, i);
      }
      forall irq: IRQ, n: nat | n < d.nodes && !NamedIn(toInject, irq, n) ensures
        ForwardAll(s, toInject).dist.active.Get(irq, n) ==
        if NamedIn(toAck, irq, n) then 0 else d.active.Get(irq, n)
      {
        AcksClear(d, toAck, irq, n);
        OthersKeepActive(s, toInject, irq, n);
      }
    }
  }
}
