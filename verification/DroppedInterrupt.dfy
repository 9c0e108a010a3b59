/**
 How interrupts come to wait beside an empty list register.

 An interrupt that arrives again while it is active finds the registers full and is queued.  When
 another interrupt ends, it is taken from the queue and refused, since it is active still: it is
 dropped, the register stays empty, and whatever is queued behind it goes on waiting.
 */
module DroppedInterrupt {
  import opened Basics
  import opened BitWords
  import opened Distributor
  import opened GicModel
  import opened GicDelivery

  /** A controller that has seen no interrupt. */
  ghost function Fresh(d: Distributor): (g: State)
    requires d.Valid()
    ensures Shaped(g) && g.dist == d
  {
    var empty: Registers := seq(NUM_LRS, _ => None);
    State(d, seq(d.nodes, _ => empty), seq(d.nodes, _ => []), seq(d.nodes, _ => empty), seq(d.nodes, _ => {}), [])
  }

  /** Once active an interrupt is refused; the others are as before. */
  lemma AllowedOnce(d: Distributor, irq: IRQ, other: IRQ, n: nat)
    requires d.Valid() && n < d.nodes
    ensures var e := d.SetPending(irq, n).SetActive(irq, n);
      !Allowed(e, irq, n) && (other != irq ==> (Allowed(e, other, n) <==> Allowed(d, other, n)))
  {
    var e := d.SetPending(irq, n).SetActive(irq, n);
    SetThenGet(d.active, irq, n, 1, irq, n);
    SetThenGet(d.active, irq, n, 1, other, n);
    AllowedMeans(d, other, n);
    AllowedMeans(e, irq, n);
    AllowedMeans(e, other, n);
  }

  lemma AllowedAfterAck(d: Distributor, irq: IRQ, other: IRQ, n: nat)
    requires d.Valid() && n < d.nodes && irq != other
    ensures Allowed(d.Ack(irq, n), other, n) <==> Allowed(d, other, n)
  {
    SetThenGet(d.active, irq, n, 0, other, n);
    AllowedMeans(d, other, n);
    AllowedMeans(d.Ack(irq, n), other, n);
  }

  /** The first `k` of five interrupts are in the registers of core `n`, and the others are allowed there. */
  ghost predicate Filled(g: State, n: nat, irqs: seq<IRQ>, k: nat) {
    && Shaped(g) && n < g.dist.nodes && |irqs| == 5 && NoDup(irqs) && k <= NUM_LRS
    && (forall i :: 0 <= i < NUM_LRS ==> g.mirror[n][i] == g.hardware[n][i] == if i < k then Some(irqs[i]) else None)
    && g.overflow[n] == [] && g.ended[n] == {}
    && forall i :: 0 <= i < 5 ==> (Allowed(g.dist, irqs[i], n) <==> k <= i)
  }

  /** An allowed interrupt goes into the first empty register. */
  lemma ForwardInto(g: State, n: nat, irq: IRQ, k: nat)
    requires Shaped(g) && n < g.dist.nodes && Allowed(g.dist, irq, n) && FirstEmpty(g.mirror[n]) == Some(k)
    ensures var h := Forward(g, n, irq);
      && k < NUM_LRS && h.dist == g.dist.SetPending(irq, n).SetActive(irq, n)
      && h.mirror == Put(g.mirror, n, k, Some(irq)) && h.hardware == Put(g.hardware, n, k, Some(irq))
      && h.overflow == g.overflow && h.ended == g.ended
  {}

  lemma FillOne(g: State, n: nat, irqs: seq<IRQ>, k: nat)
    requires Filled(g, n, irqs, k) && k < NUM_LRS
    ensures Shaped(g) && n < g.dist.nodes && Forward(g, n, irqs[k]).dist.nodes == g.dist.nodes
    ensures Filled(Forward(g, n, irqs[k]), n, irqs, k + 1)
  {
    hide Allowed, Forward;
    var irq, h := irqs[k], Forward(g, n, irqs[k]);
    assert FirstEmpty(g.mirror[n]) == Some(k);
    ForwardInto(g, n, irq, k);
    forall i | 0 <= i < 5 ensures Allowed(h.dist, irqs[i], n) <==> k + 1 <= i {
      AllowedOnce(g.dist, irq, irqs[i], n);
      assert Allowed(g.dist, irqs[i], n) <==> k <= i;
    }
  }

  /** The registers are full; the first interrupt comes again, then a fifth, and the second one ends. */
  lemma QueueTwo(g: State, n: nat, irqs: seq<IRQ>) returns (h: State)
    requires Filled(g, n, irqs, NUM_LRS)
    ensures h == EndAt(Forward(Forward(g, n, irqs[0]), n, irqs[4]), n, 1)
    ensures Forward(Forward(g, n, irqs[0]), n, irqs[4]).hardware[n][1].Some?
    ensures h.dist == g.dist && h.overflow[n] == [irqs[0], irqs[4]] && 1 in h.ended[n]
    ensures h.mirror == g.mirror
  {
    assert FirstEmpty(g.mirror[n]) == None;
    h := EndAt(Forward(Forward(g, n, irqs[0]), n, irqs[4]), n, 1);
  }

  lemma LeavesWaiting(g: State, n: nat, irqs: seq<IRQ>)
    requires Shaped(g) && n < g.dist.nodes && |irqs| == 5 && irqs[0] != irqs[1]
    requires g.overflow[n] == [irqs[0], irqs[4]] && g.mirror[n][1] == Some(irqs[1])
    requires !Allowed(g.dist, irqs[0], n)
    ensures !AllBusy(Maintain(g, n, 1))
  {
    var h := Maintain(g, n, 1);
    AllowedAfterAck(g.dist, irqs[1], irqs[0], n);
    MaintainMirror(g, n, 1);
    hide Maintain, Allowed;
    assert h.overflow[n] == [irqs[4]] && h.mirror[n][1].None?;
    assert !Busy(h, n);
  }

  /** One more event of a run. */
  lemma HandleNext(g0: State, events: seq<Event>, g: State, e: Event)
    requires Shaped(g0) && HandleAll(g0, events) == Some(g) && Shaped(g) && Handle(g, e).On?
    ensures HandleAll(g0, events + [e]) == Some(Handle(g, e).state)
  {
    assert (events + [e])[..|events|] == events;
  }

  lemma ArrivalNext(g0: State, events: seq<Event>, g: State, n: nat, irq: IRQ)
    requires Shaped(g0) && HandleAll(g0, events) == Some(g) && Shaped(g) && n < g.dist.nodes
    ensures HandleAll(g0, events + [PPI(n, irq)]) == Some(Forward(g, n, irq))
  {
    hide HandleAll, Forward, Shaped;
    HandleNext(g0, events, g, PPI(n, irq));
  }

  lemma EndNext(g0: State, events: seq<Event>, g: State, n: nat, index: nat)
    requires Shaped(g0) && HandleAll(g0, events) == Some(g) && Shaped(g) && n < g.dist.nodes && index < NUM_LRS
    requires g.hardware[n][index].Some?
    ensures HandleAll(g0, events + [End(n, index)]) == Some(EndAt(g, n, index))
  {
    hide HandleAll, EndAt;
    HandleNext(g0, events, g, End(n, index));
  }

  lemma MaintenanceNext(g0: State, events: seq<Event>, g: State, n: nat, index: nat)
    requires Shaped(g0) && HandleAll(g0, events) == Some(g) && Shaped(g) && n < g.dist.nodes && index < NUM_LRS
    requires g.mirror[n][index].Some? && index in g.ended[n]
    ensures HandleAll(g0, events + [Maintenance(n, index)]) == Some(Maintain(g, n, index))
  {
    hide HandleAll, Maintain;
    HandleNext(g0, events, g, Maintenance(n, index));
  }

  ghost function Arrivals(n: nat, irqs: seq<IRQ>): seq<Event> {
    if irqs == [] then [] else Arrivals(n, irqs[..|irqs| - 1]) + [PPI(n, irqs[|irqs| - 1])]
  }

  /** Four of five arrive, the first one again, then the fifth; the second ends. */
  ghost function Scenario(n: nat, irqs: seq<IRQ>): seq<Event>
    requires |irqs| == 5
  {
    Arrivals(n, irqs[..NUM_LRS]) + [PPI(n, irqs[0])] + [PPI(n, irqs[4])] + [End(n, 1)] + [Maintenance(n, 1)]
  }

  lemma FreshFilled(d: Distributor, n: nat, irqs: seq<IRQ>)
    requires d.Valid() && n < d.nodes && |irqs| == 5 && NoDup(irqs)
    requires forall i :: 0 <= i < 5 ==> Allowed(d, irqs[i], n)
    ensures HandleAll(Fresh(d), Arrivals(n, [])) == Some(Fresh(d)) && Filled(Fresh(d), n, irqs, 0)
  {
    hide Allowed;
  }

  lemma ArrivalsNext(n: nat, irqs: seq<IRQ>, k: nat)
    requires k < |irqs|
    ensures Arrivals(n, irqs[..k + 1]) == Arrivals(n, irqs[..k]) + [PPI(n, irqs[k])]
  {
    assert irqs[..k + 1][..k] == irqs[..k];
  }

  lemma {:induction false} Fills(d: Distributor, n: nat, irqs: seq<IRQ>, k: nat) returns (g: State)
    requires d.Valid() && n < d.nodes && |irqs| == 5 && NoDup(irqs) && k <= NUM_LRS
    requires forall i :: 0 <= i < 5 ==> Allowed(d, irqs[i], n)
    ensures HandleAll(Fresh(d), Arrivals(n, irqs[..k])) == Some(g) && Filled(g, n, irqs, k)
    ensures Shaped(g) && n < g.dist.nodes
    decreases k
  {
    hide HandleAll, Filled, Allowed, Shaped, Forward, Fresh, Arrivals, NoDup;
    if k == 0 {
      FreshFilled(d, n, irqs);
      assert irqs[..0] == [];
      g := Fresh(d);
    } else {
      var h := Fills(d, n, irqs, k - 1);
      FillOne(h, n, irqs, k - 1);
      ArrivalNext(Fresh(d), Arrivals(n, irqs[..k - 1]), h, n, irqs[k - 1]);
      ArrivalsNext(n, irqs, k - 1);
      g := Forward(h, n, irqs[k - 1]);
    }
  }

  /** The run up to the end of the second interrupt. */
  lemma RunQueued(g0: State, events: seq<Event>, full: State, n: nat, irqs: seq<IRQ>)
    requires Shaped(g0) && HandleAll(g0, events) == Some(full) && Shaped(full) && n < full.dist.nodes && |irqs| == 5
    requires Forward(Forward(full, n, irqs[0]), n, irqs[4]).hardware[n][1].Some?
    ensures HandleAll(g0, events + [PPI(n, irqs[0])] + [PPI(n, irqs[4])] + [End(n, 1)]) ==
      Some(EndAt(Forward(Forward(full, n, irqs[0]), n, irqs[4]), n, 1))
  {
    hide Forward, EndAt, HandleAll, Shaped;
    ArrivalNext(g0, events, full, n, irqs[0]);
    var again := Forward(full, n, irqs[0]);
    ArrivalNext(g0, events + [PPI(n, irqs[0])], again, n, irqs[4]);
    EndNext(g0, events + [PPI(n, irqs[0])] + [PPI(n, irqs[4])], Forward(again, n, irqs[4]), n, 1);
  }

  lemma RunScenario(g0: State, full: State, n: nat, irqs: seq<IRQ>) returns (g: State)
    requires Shaped(g0) && |irqs| == 5 && HandleAll(g0, Arrivals(n, irqs[..NUM_LRS])) == Some(full)
    requires Filled(full, n, irqs, NUM_LRS)
    ensures HandleAll(g0, Scenario(n, irqs)) == Some(g) && Shaped(g) && !AllBusy(g)
  {
    hide Forward, EndAt, Maintain, HandleAll, AllBusy, Arrivals, Allowed, Handle;
    var ended := QueueTwo(full, n, irqs);
    assert full.mirror[n][1] == Some(irqs[1]);
    LeavesWaiting(ended, n, irqs);
    var a := Arrivals(n, irqs[..NUM_LRS]);
    RunQueued(g0, a, full, n, irqs);
    MaintenanceNext(g0, a + [PPI(n, irqs[0])] + [PPI(n, irqs[4])] + [End(n, 1)], ended, n, 1);
    g := Maintain(ended, n, 1);
  }

  /**
   With any five interrupts allowed on a core of a fresh controller: the first is dropped, and the
   fifth waits beside an empty register.
   */
  lemma WaitsBesideEmpty(d: Distributor, n: nat, irqs: seq<IRQ>) returns (g: State)
    requires d.Valid() && n < d.nodes && |irqs| == 5 && NoDup(irqs)
    requires forall i :: 0 <= i < 5 ==> Allowed(d, irqs[i], n)
    ensures HandleAll(Fresh(d), Scenario(n, irqs)) == Some(g) && Shaped(g) && !AllBusy(g)
  {
    hide HandleAll, Arrivals, Allowed, Filled, Shaped, AllBusy, Fresh;
    var full := Fills(d, n, irqs, NUM_LRS);
    g := RunScenario(Fresh(d), full, n, irqs);
  }

  // ----- A distributor that allows five interrupts -----

  function AllRegisters(w: Width, nodes: nat, private: nat, shared: nat): Bank {
    Bank(w, seq(nodes, _ => seq(Banked(w), _ => private)), seq(SharedCount(w), _ => shared))
  }

  lemma {:induction false} OnesDigits(n: nat, i: nat)
    requires i < n
    ensures Digit(2, Power(2, n) - 1, i) == 1
    decreases n
  {
    assert (Power(2, n) - 1) % 2 == 1 && (Power(2, n) - 1) / 2 == Power(2, n - 1) - 1;
    if 0 < i { OnesDigits(n - 1, i - 1); }
  }

  /** As reset leaves it for one core, with the control bit and the interrupts 16 to 20 switched on. */
  function Prepared(): Distributor {
    Distributor(1, 1, AllRegisters(Bits, 1, Power(2, 21) - 1, 0), AllRegisters(Bits, 1, 0, 0),
                AllRegisters(Bits, 1, 0, 0), AllRegisters(Bytes, 1, 0, 0),
                AllRegisters(Bytes, 1, 0x01010101, 0x01010101), [[0, 0, 0, 0]])
  }

  lemma PreparedAllows(irq: IRQ)
    requires 16 <= irq <= 20
    ensures Prepared().Valid() && Prepared().nodes == 1 && Allowed(Prepared(), irq, 0)
  {
    hide Power, Digit, Allowed;
    PowerGrows(2, 21, 32);
    TargetWord();
    var d := Prepared();
    AllowedMeans(d, irq, 0);
    OnesDigits(21, irq);
    HighDigits(2, 0, irq, 0);
    TargetsFirst(irq % 4);
  }

  lemma TargetWord()
    ensures 0x01010101 < Power(256, 4)
  {}

  lemma TargetsFirst(i: nat)
    requires i < 4
    ensures Bit(Digit(256, 0x01010101, i), 0)
  {}

  /** On one core with five of its interrupts enabled, interrupt 16 is dropped and 20 waits beside register 1. */
  lemma DropsAndWaits() returns (g: State)
    ensures Prepared().Valid()
    ensures HandleAll(Fresh(Prepared()), Scenario(0, [16, 17, 18, 19, 20])) == Some(g) && Shaped(g) && !AllBusy(g)
  {
    hide Prepared, HandleAll, Allowed, Arrivals, Fresh, AllBusy, Shaped, NoDup;
    var irqs: seq<IRQ> := [16, 17, 18, 19, 20];
    forall i | 0 <= i < 5 ensures Prepared().Valid() && Prepared().nodes == 1 && Allowed(Prepared(), irqs[i], 0) {
      PreparedAllows(irqs[i]);
    }
    assert NoDup(irqs) by { Distinct(irqs); }
    assert irqs[0] == 16;
    g := WaitsBesideEmpty(Prepared(), 0, irqs);
  }

  lemma Distinct(irqs: seq<IRQ>)
    requires irqs == [16, 17, 18, 19, 20]
    ensures NoDup(irqs)
  {}
}
