/**
 The list registers of a virtual interrupt controller: what the hardware holds for each virtual
 core, the mirror kept of it, and the queue of interrupts that found no register free.

 A guest that ends an interrupt empties its list register at once, and the maintenance fault
 that tells of it comes later; in between, other interrupts may arrive.  The trace records what
 happens to the hardware, each injection with the distributor as it was just before.
 */
module GicModel {
  import opened Basics
  import opened BitWords
  import opened Distributor

  const NUM_LRS: nat := 4

  type Registers = seq<Option<IRQ>>

  datatype Access =
    | Injected(node: nat, index: nat, irq: IRQ, priority: nat, under: Distributor)
    | Ended(node: nat, index: nat)

  datatype State = State(
    dist: Distributor,
    mirror: seq<Registers>,
    overflow: seq<seq<IRQ>>,
    hardware: seq<Registers>,
    ended: seq<set<nat>>,       // registers whose end has still to be handled
    trace: seq<Access>)

  // ----- What each operation does -----

  ghost predicate Shaped(g: State) {
    && g.dist.Valid()
    && |g.mirror| == |g.overflow| == |g.hardware| == |g.ended| == g.dist.nodes
    && (forall n :: 0 <= n < |g.mirror| ==> |g.mirror[n]| == NUM_LRS)
    && (forall n :: 0 <= n < |g.hardware| ==> |g.hardware[n]| == NUM_LRS)
  }

  predicate Allowed(d: Distributor, irq: IRQ, node: nat)
    requires d.Valid() && node < d.nodes
  {
    d.SetPending(irq, node).ShouldInject(irq, node)
  }

  function Put(rs: seq<Registers>, node: nat, index: nat, v: Option<IRQ>): (r: seq<Registers>)
    requires node < |rs| && index < |rs[node]|
    ensures |r| == |rs| && forall n :: 0 <= n < |rs| ==> |r[n]| == |rs[n]|
  {
    rs[node := rs[node][index := v]]
  }

  /** inject_irq: the interrupt becomes pending and, if it should be injected, active and in the register. */
  ghost function Inject(g: State, node: nat, index: nat, irq: IRQ): (h: State)
    requires Shaped(g) && node < g.dist.nodes && index < NUM_LRS
    ensures Shaped(h) && h.dist.nodes == g.dist.nodes
  {
    var d := g.dist.SetPending(irq, node);
    if !d.ShouldInject(irq, node) then g.(dist := d)
    else g.(
      dist := d.SetActive(irq, node),
      mirror := Put(g.mirror, node, index, Some(irq)),
      hardware := Put(g.hardware, node, index, Some(irq)),
      trace := g.trace + [Injected(node, index, irq, g.dist.priority.Get(irq, node) / 8, d)])
  }

  /** The first register that is empty. */
  ghost function FirstEmpty(rs: Registers): (i: Option<nat>)
    ensures i.Some? ==> i.value < |rs| && rs[i.value].None? && forall j :: 0 <= j < i.value ==> rs[j].Some?
    ensures i.None? ==> forall j :: 0 <= j < |rs| ==> rs[j].Some?
  {
    if rs == [] then None
    else if rs[0].None? then Some(0)
    else
      var rest := FirstEmpty(rs[1..]);
      assert forall j :: 1 <= j < |rs| ==> rs[j] == rs[1..][j - 1];
      if rest.None? then None else Some(1 + rest.value)
  }

  /** forward_irq: into the first empty register, or once into the queue. */
  ghost function Forward(g: State, target: nat, irq: IRQ): (h: State)
    requires Shaped(g) && target < g.dist.nodes
    ensures Shaped(h) && h.dist.nodes == g.dist.nodes
  {
    var index := FirstEmpty(g.mirror[target]);
    if index.Some? then Inject(g, target, index.value, irq)
    else if irq in g.overflow[target] then g
    else g.(overflow := g.overflow[target := g.overflow[target] + [irq]])
  }

  ghost function ForwardAll(g: State, list: seq<(IRQ, nat)>): (h: State)
    requires Shaped(g) && forall i :: 0 <= i < |list| ==> list[i].1 < g.dist.nodes
    ensures Shaped(h) && h.dist.nodes == g.dist.nodes
  {
    if list == [] then g else
    var last := list[|list| - 1];
    Forward(ForwardAll(g, list[..|list| - 1]), last.1, last.0)
  }

  ghost function AckAll(d: Distributor, list: seq<(IRQ, nat)>): (e: Distributor)
    requires d.Valid() && forall i :: 0 <= i < |list| ==> list[i].1 < d.nodes
    ensures e.Valid() && e.nodes == d.nodes
  {
    if list == [] then d else
    var last := list[|list| - 1];
    AckAll(d, list[..|list| - 1]).Ack(last.0, last.1)
  }

  /** The guest ends the interrupt in a register. */
  ghost function EndAt(g: State, node: nat, index: nat): (h: State)
    requires Shaped(g) && node < g.dist.nodes && index < NUM_LRS
    ensures Shaped(h) && h.dist.nodes == g.dist.nodes
  {
    g.(hardware := Put(g.hardware, node, index, None),
       ended := g.ended[node := g.ended[node] + {index}],
       trace := g.trace + [Ended(node, index)])
  }

  /** handle_maintenance up to the ack. */
  ghost function Retire(g: State, node: nat, index: nat): (h: State)
    requires Shaped(g) && node < g.dist.nodes && index < NUM_LRS && g.mirror[node][index].Some?
    ensures Shaped(h) && h.dist.nodes == g.dist.nodes
  {
    g.(mirror := Put(g.mirror, node, index, None),
       ended := g.ended[node := g.ended[node] - {index}],
       dist := g.dist.Ack(g.mirror[node][index].value, node))
  }

  /** handle_maintenance: the head of the queue, if there is one, is given the register. */
  ghost function Maintain(g: State, node: nat, index: nat): (h: State)
    requires Shaped(g) && node < g.dist.nodes && index < NUM_LRS && g.mirror[node][index].Some?
    ensures Shaped(h) && h.dist.nodes == g.dist.nodes
  {
    var r := Retire(g, node, index);
    if g.overflow[node] == [] then r
    else Inject(r.(overflow := r.overflow[node := r.overflow[node][1..]]), node, index, g.overflow[node][0])
  }

  datatype Event =
    | PPI(node: nat, irq: IRQ)
    | SPI(calling: nat, irq: IRQ)
    | Write(dist: Distributor, toAck: seq<(IRQ, nat)>, toInject: seq<(IRQ, nat)>)
    | End(node: nat, index: nat)
    | Maintenance(node: nat, index: nat)

  /** An event goes through, ends the server, or cannot happen. */
  datatype Next = On(state: State) | Fails | Impossible

  /** Where handle_irq sends an SPI: to the caller if it is a target, and else to the first target. */
  ghost function SpiNext(g: State, calling: nat, irq: IRQ): Next
    requires Shaped(g)
  {
    if g.dist.IsTarget(irq, calling) then On(Forward(g, calling, irq))
    else if irq < PRIVATE || g.dist.nodes == 0 then Fails
    else
      var targets := g.dist.targets.Get(irq, 0);
      if targets == 0 then On(g)
      else if TrailingZeros(targets) < g.dist.nodes then On(Forward(g, TrailingZeros(targets), irq))
      else Fails
  }

  ghost predicate InRange(list: seq<(IRQ, nat)>, nodes: nat) {
    forall i :: 0 <= i < |list| ==> list[i].1 < nodes
  }

  ghost function WriteNext(g: State, d: Distributor, toAck: seq<(IRQ, nat)>, toInject: seq<(IRQ, nat)>): Next
    requires Shaped(g)
  {
    if !d.Valid() || d.nodes != g.dist.nodes then Impossible
    else if !InRange(toAck, d.nodes) || !InRange(toInject, d.nodes) then Fails
    else On(ForwardAll(g.(dist := AckAll(d, toAck)), toInject))
  }

  /** The hardware ends only what it holds, and reports only what was ended. */
  ghost function Handle(g: State, e: Event): Next
    requires Shaped(g)
  {
    match e
    case PPI(node, irq) => if node < g.dist.nodes then On(Forward(g, node, irq)) else Fails
    case SPI(calling, irq) => SpiNext(g, calling, irq)
    case Write(d, toAck, toInject) => WriteNext(g, d, toAck, toInject)
    case End(node, index) =>
      if node < g.dist.nodes && index < NUM_LRS && g.hardware[node][index].Some? then On(EndAt(g, node, index))
      else Impossible
    case Maintenance(node, index) =>
      if !(node < g.dist.nodes && index in g.ended[node] && index < NUM_LRS) then Impossible
      else if g.mirror[node][index].None? then Fails
      else On(Maintain(g, node, index))
  }

  // ----- Mirror and hardware -----

  /** The mirror shows what the hardware holds, and what was there where an end is still to be handled. */
  ghost predicate Mirrors(mirror: Registers, hardware: Registers, ended: set<nat>) {
    && |mirror| == |hardware| == NUM_LRS
    && (forall i :: i in ended ==> i < NUM_LRS)
    && forall i :: 0 <= i < NUM_LRS ==>
         if i in ended then hardware[i].None? && mirror[i].Some? else mirror[i] == hardware[i]
  }

  ghost predicate Ok(g: State) {
    && Shaped(g)
    && (forall n :: 0 <= n < g.dist.nodes ==> Mirrors(g.mirror[n], g.hardware[n], g.ended[n]))
    && (forall n :: 0 <= n < g.dist.nodes ==> NoDup(g.overflow[n]))
  }

  /** The hardware after a sequence of accesses. */
  ghost function Replay(hw: seq<Registers>, trace: seq<Access>): (r: seq<Registers>)
    ensures |r| == |hw|
  {
    if trace == [] then hw else
    var before, a := Replay(hw, trace[..|trace| - 1]), trace[|trace| - 1];
    if !(a.node < |before| && a.index < |before[a.node]|) then before
    else Put(before, a.node, a.index, if a.Injected? then Some(a.irq) else None)
  }

  /** An injection finds its register empty and the interrupt allowed, and has its priority; an end finds it full. */
  ghost predicate Rightful(hw: seq<Registers>, a: Access) {
    && a.node < |hw| && a.index < |hw[a.node]|
    && match a
       case Injected(node, index, irq, priority, under) =>
         && hw[node][index].None? && under.Valid() && under.ShouldInject(irq, node)
         && priority == under.priority.Get(irq, node) / 8  // the registers have the upper five bits only
       case Ended(node, index) => hw[node][index].Some?
  }

  ghost predicate AllRightful(hw: seq<Registers>, trace: seq<Access>) {
    trace == [] ||
    (AllRightful(hw, trace[..|trace| - 1]) && Rightful(Replay(hw, trace[..|trace| - 1]), trace[|trace| - 1]))
  }

  /** From g to h the trace has grown by rightful accesses that lead from one hardware to the other. */
  ghost predicate Recorded(g: State, h: State) {
    && |g.trace| <= |h.trace| && h.trace[..|g.trace|] == g.trace
    && h.hardware == Replay(g.hardware, h.trace[|g.trace|..])
    && AllRightful(g.hardware, h.trace[|g.trace|..])
  }

  lemma RecordedNothing(g: State, h: State)
    requires h.trace == g.trace && h.hardware == g.hardware
    ensures Recorded(g, h)
  {
    assert h.trace[|g.trace|..] == [];
  }

  lemma RecordedOne(g: State, h: State, a: Access)
    requires h.trace == g.trace + [a] && Rightful(g.hardware, a)
    requires h.hardware == Put(g.hardware, a.node, a.index, if a.Injected? then Some(a.irq) else None)
    ensures Recorded(g, h)
  {
    assert h.trace[|g.trace|..] == [a] && [a][..0] == [];
    assert Replay(g.hardware, []) == g.hardware;
  }

  lemma {:induction false} ReplayBoth(hw: seq<Registers>, a: seq<Access>, b: seq<Access>)
    ensures Replay(hw, a + b) == Replay(Replay(hw, a), b)
    ensures AllRightful(hw, a) && AllRightful(Replay(hw, a), b) ==> AllRightful(hw, a + b)
  {
    if b == [] {
      assert a + b == a;
    } else {
      var n := |b| - 1;
      ReplayBoth(hw, a, b[..n]);
      assert (a + b)[..|a + b| - 1] == a + b[..n];
    }
  }

  lemma RecordedTrans(f: State, g: State, h: State)
    requires Recorded(f, g) && Recorded(g, h)
    ensures Recorded(f, h)
  {
    hide Replay, AllRightful;
    var a, b := g.trace[|f.trace|..], h.trace[|g.trace|..];
    ReplayBoth(f.hardware, a, b);
    assert h.trace[|f.trace|..] == a + b;
    assert h.trace[..|f.trace|] == h.trace[..|g.trace|][..|f.trace|];
  }

  lemma InjectKeeps(g: State, node: nat, index: nat, irq: IRQ)
    requires Ok(g) && node < g.dist.nodes && index < NUM_LRS && g.mirror[node][index].None?
    ensures Ok(Inject(g, node, index, irq)) && Recorded(g, Inject(g, node, index, irq))
  {
    var h := Inject(g, node, index, irq);
    assert Mirrors(g.mirror[node], g.hardware[node], g.ended[node]);
    hide Replay, AllRightful;
    if g.dist.SetPending(irq, node).ShouldInject(irq, node) {
      RecordedOne(g, h, h.trace[|g.trace|]);
    } else {
      RecordedNothing(g, h);
    }
  }

  lemma ForwardKeeps(g: State, target: nat, irq: IRQ)
    requires Ok(g) && target < g.dist.nodes
    ensures Ok(Forward(g, target, irq)) && Recorded(g, Forward(g, target, irq))
  {
    hide Recorded, Inject, Mirrors;
    var index := FirstEmpty(g.mirror[target]);
    if index.Some? {
      InjectKeeps(g, target, index.value, irq);
    } else {
      RecordedNothing(g, Forward(g, target, irq));
    }
  }

  lemma {:induction false} ForwardAllKeeps(g: State, list: seq<(IRQ, nat)>)
    requires Ok(g) && InRange(list, g.dist.nodes)
    ensures Ok(ForwardAll(g, list)) && Recorded(g, ForwardAll(g, list))
  {
    hide Recorded, Forward, Ok, Shaped;
    OkShaped(g);
    if list == [] {
      RecordedNothing(g, g);
    } else {
      var n := |list| - 1;
      ForwardAllKeeps(g, list[..n]);
      var h := ForwardAll(g, list[..n]);
      OkShaped(h);
      ForwardKeeps(h, list[n].1, list[n].0);
      RecordedTrans(g, h, ForwardAll(g, list));
    }
  }

  lemma OkShaped(g: State)
    requires Ok(g)
    ensures Shaped(g)
  {}

  lemma EndKeeps(g: State, node: nat, index: nat)
    requires Ok(g) && node < g.dist.nodes && index < NUM_LRS && g.hardware[node][index].Some?
    ensures Ok(EndAt(g, node, index)) && Recorded(g, EndAt(g, node, index))
  {
    assert Mirrors(g.mirror[node], g.hardware[node], g.ended[node]);
    hide Replay, AllRightful;
    RecordedOne(g, EndAt(g, node, index), Ended(node, index));
  }

  /** The mirror always has the interrupt whose end is reported. */
  lemma MaintainKeeps(g: State, node: nat, index: nat)
    requires Ok(g) && node < g.dist.nodes && index in g.ended[node]
    ensures index < NUM_LRS && g.mirror[node][index].Some?
    ensures Ok(Maintain(g, node, index)) && Recorded(g, Maintain(g, node, index))
  {
    assert Mirrors(g.mirror[node], g.hardware[node], g.ended[node]);
    hide Recorded;
    var r := Retire(g, node, index);
    assert Ok(r);
    if g.overflow[node] == [] {
      RecordedNothing(g, r);
    } else {
      var s := r.(overflow := r.overflow[node := r.overflow[node][1..]]);
      assert Ok(s);
      RecordedNothing(g, s);
      hide Ok, Mirrors, Inject;
      InjectKeeps(s, node, index, g.overflow[node][0]);
      RecordedTrans(g, s, Maintain(g, node, index));
    }
  }

  /**
   Every event that goes through keeps mirror and hardware in agreement; injections find their
   register empty and the interrupt allowed.  A reported end is never missing from the mirror.
   */
  lemma HandleKeeps(g: State, e: Event)
    requires Ok(g)
    ensures Handle(g, e).On? ==> Ok(Handle(g, e).state) && Recorded(g, Handle(g, e).state)
    ensures e.End? || e.Maintenance? ==> !Handle(g, e).Fails?
  {
    hide Recorded, Forward, ForwardAll, Maintain, EndAt;
    match e
    case PPI(node, irq) => if node < g.dist.nodes { ForwardKeeps(g, node, irq); }
    case SPI(calling, irq) => SpiKeeps(g, calling, irq);
    case Write(d, toAck, toInject) => WriteKeeps(g, d, toAck, toInject);
    case End(node, index) => if Handle(g, e).On? { EndKeeps(g, node, index); }
    case Maintenance(node, index) =>
      if node < g.dist.nodes && index in g.ended[node] { MaintainKeeps(g, node, index); }
  }

  lemma SpiKeeps(g: State, calling: nat, irq: IRQ)
    requires Ok(g)
    ensures var n := SpiNext(g, calling, irq); n.On? ==> Ok(n.state) && Recorded(g, n.state)
  {
    hide Recorded, Forward, Ok;
    OkShaped(g);
    RecordedNothing(g, g);
    if g.dist.IsTarget(irq, calling) {
      ForwardKeeps(g, calling, irq);
    } else if PRIVATE <= irq && 0 < g.dist.nodes {
      var targets := g.dist.targets.Get(irq, 0);
      if targets != 0 && TrailingZeros(targets) < g.dist.nodes {
        ForwardKeeps(g, TrailingZeros(targets), irq);
      }
    }
  }

  lemma WriteKeeps(g: State, d: Distributor, toAck: seq<(IRQ, nat)>, toInject: seq<(IRQ, nat)>)
    requires Ok(g)
    ensures var n := WriteNext(g, d, toAck, toInject); n.On? ==> Ok(n.state) && Recorded(g, n.state)
  {
    hide Recorded, ForwardAll, Mirrors;
    if WriteNext(g, d, toAck, toInject).On? {
      var s := g.(dist := AckAll(d, toAck));
      assert Ok(s);
      RecordedNothing(g, s);
      ForwardAllKeeps(s, toInject);
      RecordedTrans(g, s, ForwardAll(s, toInject));
    }
  }

  // ----- Runs -----

  /** The state after all of the events, if they all go through. */
  ghost function HandleAll(g: State, events: seq<Event>): Option<State>
    requires Shaped(g)
    decreases |events|
  {
    if events == [] then Some(g) else
    var h := HandleAll(g, events[..|events| - 1]);
    if h.None? || !Shaped(h.value) then None else
    var n := Handle(h.value, events[|events| - 1]);
    if n.On? then Some(n.state) else None
  }

  /**
   In every run: the hardware is what the recorded injections and ends make of it, no injection
   overwrote an occupied register, each was allowed just before, and the mirror agrees.
   */
  lemma {:induction false} RunsAreRightful(g: State, events: seq<Event>)
    requires Ok(g)
    ensures var h := HandleAll(g, events); h.Some? ==> Ok(h.value) && Recorded(g, h.value)
    decreases |events|
  {
    hide Recorded, Handle, Ok;
    OkShaped(g);
    if events == [] {
      RecordedNothing(g, g);
    } else {
      RunsAreRightful(g, events[..|events| - 1]);
      var h := HandleAll(g, events[..|events| - 1]);
      if h.Some? {
        OkShaped(h.value);
        HandleKeeps(h.value, events[|events| - 1]);
        if HandleAll(g, events).Some? {
          RecordedTrans(g, h.value, HandleAll(g, events).value);
        }
      }
    }
  }

  /** Once every end has been handled, mirror and hardware are equal; no queue outgrows the interrupts. */
  lemma InStep(g: State, n: nat)
    requires Ok(g) && n < g.dist.nodes
    ensures g.ended[n] == {} ==> g.mirror[n] == g.hardware[n]
    ensures |g.overflow[n]| <= NUM_IRQS
  {
    assert Mirrors(g.mirror[n], g.hardware[n], g.ended[n]);
    Pigeonhole(g.overflow[n], NUM_IRQS);
  }

  ghost function Below(n: nat): (r: set<nat>)
    ensures |r| == n && forall i: nat :: i in r <==> i < n
  {
    if n == 0 then {} else Below(n - 1) + {n - 1}
  }

  ghost function Elements(q: seq<IRQ>): (r: set<nat>)
    requires NoDup(q)
    ensures |r| == |q| && forall i: nat :: i in r <==> exists k :: 0 <= k < |q| && q[k] == i
  {
    if q == [] then {} else
    assert forall k :: 0 <= k < |q[1..]| ==> q[1..][k] == q[k + 1] && q[1..][k] != q[0];
    assert forall k :: 1 <= k < |q| ==> q[k] == q[1..][k - 1];
    Elements(q[1..]) + {q[0]}
  }

  lemma Pigeonhole(q: seq<IRQ>, n: nat)
    requires NoDup(q) && forall i :: 0 <= i < |q| ==> q[i] < n
    ensures |q| <= n
  {
    SubsetSize(Elements(q), Below(n));
  }

  // ----- Waiting only for full registers -----

  ghost predicate Full(rs: Registers) {
    forall i :: 0 <= i < |rs| ==> rs[i].Some?
  }

  /** Interrupts wait only while every register of their core is taken. */
  ghost predicate Busy(g: State, n: nat)
    requires Shaped(g) && n < g.dist.nodes
  {
    g.overflow[n] != [] ==> Full(g.mirror[n])
  }

  ghost predicate AllBusy(g: State)
    requires Shaped(g)
  {
    forall n :: 0 <= n < g.dist.nodes ==> Busy(g, n)
  }

  lemma ForwardKeepsBusy(g: State, target: nat, irq: IRQ)
    requires Shaped(g) && target < g.dist.nodes && AllBusy(g)
    ensures AllBusy(Forward(g, target, irq))
  {
    var h := Forward(g, target, irq);
    forall n | 0 <= n < g.dist.nodes ensures Busy(h, n) {
      assert Busy(g, n) && Busy(g, target);
    }
  }

  lemma {:induction false} ForwardAllKeepsBusy(g: State, list: seq<(IRQ, nat)>)
    requires Shaped(g) && InRange(list, g.dist.nodes) && AllBusy(g)
    ensures AllBusy(ForwardAll(g, list))
  {
    if list != [] {
      var n := |list| - 1;
      ForwardAllKeepsBusy(g, list[..n]);
      ForwardKeepsBusy(ForwardAll(g, list[..n]), list[n].1, list[n].0);
    }
  }

  lemma SpiKeepsBusy(g: State, calling: nat, irq: IRQ)
    requires Shaped(g) && AllBusy(g) && SpiNext(g, calling, irq).On?
    ensures var h := SpiNext(g, calling, irq).state; Shaped(h) && AllBusy(h)
  {
    hide Forward, AllBusy;
    if g.dist.IsTarget(irq, calling) {
      ForwardKeepsBusy(g, calling, irq);
    } else {
      var targets := g.dist.targets.Get(irq, 0);
      if targets != 0 { ForwardKeepsBusy(g, TrailingZeros(targets), irq); }
    }
  }

  lemma WriteKeepsBusy(g: State, d: Distributor, toAck: seq<(IRQ, nat)>, toInject: seq<(IRQ, nat)>)
    requires Shaped(g) && AllBusy(g) && WriteNext(g, d, toAck, toInject).On?
    ensures var h := WriteNext(g, d, toAck, toInject).state; Shaped(h) && AllBusy(h)
  {
    hide ForwardAll, AckAll;
    var s := g.(dist := AckAll(d, toAck));
    assert forall n :: 0 <= n < g.dist.nodes ==> Busy(g, n) ==> Busy(s, n);
    ForwardAllKeepsBusy(s, toInject);
  }

  lemma EndKeepsBusy(g: State, node: nat, index: nat)
    requires Shaped(g) && AllBusy(g) && node < g.dist.nodes && index < NUM_LRS
    ensures AllBusy(EndAt(g, node, index))
  {
    var h := EndAt(g, node, index);
    forall n | 0 <= n < g.dist.nodes ensures Busy(h, n) {
      assert Busy(g, n);
    }
  }

  /** Only maintenance can leave interrupts waiting beside an empty register ... */
  lemma HandleKeepsBusy(g: State, e: Event)
    requires Shaped(g) && AllBusy(g) && !e.Maintenance? && Handle(g, e).On?
    ensures Shaped(Handle(g, e).state) && AllBusy(Handle(g, e).state)
  {
    hide Forward, EndAt, SpiNext, WriteNext, AllBusy, Shaped;
    match e
    case PPI(node, irq) => ForwardKeepsBusy(g, node, irq);
    case SPI(calling, irq) => SpiKeepsBusy(g, calling, irq);
    case Write(d, toAck, toInject) => WriteKeepsBusy(g, d, toAck, toInject);
    case End(node, index) => EndKeepsBusy(g, node, index);
  }

  /**
   ... and it does exactly when the distributor refuses the head of a queue of two or more: the
   head is dropped, its register stays empty, and the others go on waiting.
   */
  lemma MaintenanceKeepsBusy(g: State, node: nat, index: nat)
    requires Ok(g) && AllBusy(g) && node < g.dist.nodes && index < NUM_LRS && index in g.ended[node]
    requires g.mirror[node][index].Some?
    ensures var q, d := g.overflow[node], Retire(g, node, index).dist;
      AllBusy(Maintain(g, node, index)) <==> |q| <= 1 || Allowed(d, q[0], node)
  {
    var h, q := Maintain(g, node, index), g.overflow[node];
    MaintainMirror(g, node, index);
    assert |g.mirror[node]| == NUM_LRS;
    var allowed := q != [] && Allowed(Retire(g, node, index).dist, q[0], node);
    assert h.mirror[node] == g.mirror[node][index := if allowed then Some(q[0]) else None];
    assert h.overflow[node] == if q == [] then [] else q[1..];
    hide Maintain, Retire, Allowed, Shaped, Mirrors;
    assert Busy(g, node);
    forall n | 0 <= n < g.dist.nodes && n != node ensures Busy(h, n) {
      assert Busy(g, n);
    }
    assert !allowed ==> h.mirror[node][index].None?;
    assert AllBusy(h) <==> Busy(h, node);
  }

  /** What maintenance does to mirror and queue. */
  lemma MaintainMirror(g: State, node: nat, index: nat)
    requires Shaped(g) && node < g.dist.nodes && index < NUM_LRS && g.mirror[node][index].Some?
    ensures var q, d, h := g.overflow[node], Retire(g, node, index).dist, Maintain(g, node, index);
      && h.mirror == Put(g.mirror, node, index, if q != [] && Allowed(d, q[0], node) then Some(q[0]) else None)
      && h.overflow == g.overflow[node := if q == [] then [] else q[1..]]
  {
    var q, r := g.overflow[node], Retire(g, node, index);
    if q != [] && Allowed(r.dist, q[0], node) {
      assert g.mirror[node][index := None][index := Some(q[0])] == g.mirror[node][index := Some(q[0])];
    }
  }
}
