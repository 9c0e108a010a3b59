/**
 The state of the virtual interrupt controller's distributor: banked registers for the private
 interrupts of each core and shared ones for the others, several fields to a 32-bit word.

 Register layout: section 4.3 of the ARM Generic Interrupt Controller specification 2.0.
 */
module Distributor {
  import opened Basics
  import opened BitWords

  const NUM_IRQS: nat := 1020
  const PRIVATE: nat := 32

  type IRQ = irq: nat | irq < NUM_IRQS

  /** Words of 32 bits or of four bytes. */
  datatype Width = Bits | Bytes

  function Base(w: Width): (b: nat)
    ensures 1 < b
  {
    if w.Bits? then 2 else 256
  }

  function RegisterOf(w: Width, irq: IRQ): nat {
    if w.Bits? then irq / 32 else irq / 4
  }

  function FieldOf(w: Width, irq: IRQ): nat {
    if w.Bits? then irq % 32 else irq % 4
  }

  /** How many registers the private interrupts take, the shared ones, and the fields of each. */
  function Banked(w: Width): nat {
    if w.Bits? then 1 else 8
  }

  function SharedCount(w: Width): nat {
    if w.Bits? then 31 else 247
  }

  function Fields(w: Width): nat {
    if w.Bits? then 32 else 4
  }

  ghost predicate IsWord(w: Width, v: nat) {
    v < Power(Base(w), Fields(w))
  }

  /** The registers of one kind, by core for the private interrupts. */
  datatype Bank = Bank(width: Width, private: seq<seq<nat>>, shared: seq<nat>)
  {
    ghost predicate Valid(nodes: nat) {
      && |private| == nodes && |shared| == SharedCount(width)
      && (forall n :: 0 <= n < nodes ==> |private[n]| == Banked(width))
      && (forall n, r :: 0 <= n < nodes && 0 <= r < Banked(width) ==> IsWord(width, private[n][r]))
      && (forall r :: 0 <= r < |shared| ==> IsWord(width, shared[r]))
    }

    /** The word that holds an interrupt's field. */
    function Word(irq: IRQ, node: nat): (v: nat)
      requires Valid(|private|) && node < |private|
      ensures IsWord(width, v)
    {
      Places(width, irq);
      if irq < PRIVATE then private[node][RegisterOf(width, irq)]
      else shared[RegisterOf(width, irq) - Banked(width)]
    }

    /** (word >> shift) & mask, by Shifted. */
    function Get(irq: IRQ, node: nat): (v: nat)
      requires Valid(|private|) && node < |private|
      ensures v < Base(width)
    {
      Digit(Base(width), Word(irq, node), FieldOf(width, irq))
    }

    function Set(irq: IRQ, node: nat, v: nat): (b: Bank)
      requires Valid(|private|) && node < |private| && v < Base(width)
      ensures b.width == width && b.Valid(|private|)
    {
      Places(width, irq);
      var r := RegisterOf(width, irq);
      var word := SetDigit(Base(width), Word(irq, node), FieldOf(width, irq), v);
      SetDigitBelow(Base(width), Word(irq, node), FieldOf(width, irq), v, Fields(width));
      if irq < PRIVATE then
        var own: seq<nat> := private[node][r := word];
        this.(private := private[node := own])
      else this.(shared := shared[r - Banked(width) := word])
    }
  }

  lemma Places(w: Width, irq: IRQ)
    ensures FieldOf(w, irq) < Fields(w)
    ensures if irq < PRIVATE then RegisterOf(w, irq) < Banked(w)
      else Banked(w) <= RegisterOf(w, irq) < Banked(w) + SharedCount(w)
  {}

  /** Whether two cores see the same field for their interrupts. */
  predicate Same(irq: IRQ, node: nat, irq': IRQ, node': nat) {
    irq == irq' && (irq < PRIVATE ==> node == node')
  }

  lemma OwnPlace(w: Width, irq: IRQ, irq': IRQ)
    ensures RegisterOf(w, irq) == RegisterOf(w, irq') && FieldOf(w, irq) == FieldOf(w, irq') ==> irq == irq'
  {}

  /** Every interrupt has bits of its own: setting one field changes no other. */
  lemma SetThenGet(b: Bank, irq: IRQ, node: nat, v: nat, irq': IRQ, node': nat)
    requires b.Valid(|b.private|) && node < |b.private| && node' < |b.private| && v < Base(b.width)
    ensures b.Set(irq, node, v).Get(irq', node') == if Same(irq, node, irq', node') then v else b.Get(irq', node')
  {
    Places(b.width, irq);
    Places(b.width, irq');
    OwnPlace(b.width, irq, irq');
    DigitOfSet(Base(b.width), b.Word(irq, node), FieldOf(b.width, irq), v, FieldOf(b.width, irq'));
  }

  datatype Distributor = Distributor(
    nodes: nat,
    control: nat,
    enable: Bank,
    pending: Bank,
    active: Bank,
    priority: Bank,
    targets: Bank,
    sgiPending: seq<seq<nat>>)  // by target core, a byte of source cores for each SGI
  {
    ghost predicate Valid() {
      && enable.Valid(nodes) && enable.width.Bits?
      && pending.Valid(nodes) && pending.width.Bits?
      && active.Valid(nodes) && active.width.Bits?
      && priority.Valid(nodes) && priority.width.Bytes?
      && targets.Valid(nodes) && targets.width.Bytes?
      && |sgiPending| == nodes && forall n :: 0 <= n < nodes ==> |sgiPending[n]| == 4
    }

    predicate IsTarget(irq: IRQ, node: nat)
      requires Valid()
    {
      node < nodes && Bit(targets.Get(irq, node), node)
    }

    predicate ShouldInject(irq: IRQ, node: nat)
      requires Valid()
    {
      && node < nodes && control == 1
      && enable.Get(irq, node) == 1 && IsTarget(irq, node)
      && pending.Get(irq, node) == 1 && active.Get(irq, node) == 0
    }

    function SetPending(irq: IRQ, node: nat): (d: Distributor)
      requires Valid() && node < nodes
      ensures d.Valid() && d.nodes == nodes
    {
      this.(pending := pending.Set(irq, node, 1))
    }

    function SetActive(irq: IRQ, node: nat): (d: Distributor)
      requires Valid() && node < nodes
      ensures d.Valid() && d.nodes == nodes
    {
      this.(active := active.Set(irq, node, 1))
    }

    /** Whether core c has raised an SGI of the core, and was not answered. */
    predicate RaisedBy(irq: IRQ, c: nat, node: nat)
      requires Valid() && node < nodes && irq < 16
    {
      Bit(Digit(256, sgiPending[node][irq / 4], irq % 4), c)
    }

    /** The cores other than source that raised an SGI and were not answered. */
    function OtherSources(irq: IRQ, source: nat, node: nat): nat
      requires Valid() && node < nodes && irq < 16
    {
      WithBit(Digit(256, sgiPending[node][irq / 4], irq % 4), source, false)
    }

    /** clear_sgi_pending: the pending bit goes with the last core that raised the SGI. */
    function ClearSgiPending(irq: IRQ, source: nat, node: nat): (d: Distributor)
      requires Valid() && node < nodes && irq < 16 && source < 8
      ensures d.Valid() && d.nodes == nodes
    {
      var word := sgiPending[node][irq / 4];
      ByteWithoutBit(Digit(256, word, irq % 4), source);
      var others := OtherSources(irq, source, node);
      var own: seq<nat> := sgiPending[node][irq / 4 := SetDigit(256, word, irq % 4, others)];
      var d := this.(sgiPending := sgiPending[node := own]);
      if others == 0 then d.(pending := pending.Set(irq, node, 0)) else d
    }

    /** The end of an interrupt. */
    function Ack(irq: IRQ, node: nat): (d: Distributor)
      requires Valid() && node < nodes
      ensures d.Valid() && d.nodes == nodes
    {
      var d := if irq < 16 then ClearSgiPending(irq, 0, node) else this.(pending := pending.Set(irq, node, 0));
      d.(active := active.Set(irq, node, 0))
    }
  }

  lemma ByteWithoutBit(byte: nat, i: nat)
    requires byte < 256 && i < 8
    ensures WithBit(byte, i, false) < 256
  {
    SetDigitValue(2, byte, i, 0);
  }

  /**
   After an ack the interrupt is inactive; it is pending exactly if it was and is an SGI that a core
   other than 0 raised too.  No other interrupt becomes one to inject, or stops being one.
   */
  lemma AckClears(d: Distributor, irq: IRQ, node: nat, irq': IRQ, node': nat)
    requires d.Valid() && node < d.nodes && node' < d.nodes
    ensures var e := d.Ack(irq, node);
      && e.active.Get(irq, node) == 0
      && (e.pending.Get(irq, node) == 1 <==>
          d.pending.Get(irq, node) == 1 && irq < 16 && exists c: nat :: 0 < c && d.RaisedBy(irq, c, node))
      && (irq < 16 ==> forall c: nat :: e.RaisedBy(irq, c, node) <==> 0 < c && d.RaisedBy(irq, c, node))
      && (!Same(irq, node, irq', node') ==> e.ShouldInject(irq', node') == d.ShouldInject(irq', node'))
  {
    SetThenGet(d.active, irq, node, 0, irq', node');
    SetThenGet(d.active, irq, node, 0, irq, node);
    SetThenGet(d.pending, irq, node, 0, irq', node');
    SetThenGet(d.pending, irq, node, 0, irq, node);
    if irq < 16 { OthersRaised(d, irq, node); }
  }

  /** The sources left are those other than core 0, and they are what the register then has. */
  lemma OthersRaised(d: Distributor, irq: IRQ, node: nat)
    requires d.Valid() && node < d.nodes && irq < 16
    ensures d.OtherSources(irq, 0, node) != 0 <==> exists c: nat :: 0 < c && d.RaisedBy(irq, c, node)
    ensures forall c: nat :: d.Ack(irq, node).RaisedBy(irq, c, node) <==> 0 < c && d.RaisedBy(irq, c, node)
  {
    var word, others := d.sgiPending[node][irq / 4], d.OtherSources(irq, 0, node);
    var byte := Digit(256, word, irq % 4);
    ByteWithoutBit(byte, 0);
    DigitOfSet(256, word, irq % 4, others, irq % 4);
    hide Digit, SetDigit;
    forall c: nat ensures Bit(others, c) <==> 0 < c && d.RaisedBy(irq, c, node) {
      BitOfWith(byte, 0, false, c);
    }
    if others != 0 {
      assert Bit(others, TrailingZeros(others));
    } else {
      forall c: nat ensures !Bit(others, c) { NoBits(c); }
    }
  }
}
