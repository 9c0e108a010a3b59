/**
 The capability derivation tree of the untyped-memory allocator, as a value.

 A node covers the 2^bits bytes from `low`; its children cover the two halves.  Inaccessible
 nodes only lead to the built-in regions, which are split into managed nodes as needed.
 */
module DerivationTree {
  import opened Basics
  import opened BestFit

  datatype UntypedId = UntypedId(paddr: nat, bits: nat)

  datatype Access = BuiltIn(cptr: nat) | Managed(slot: nat)

  datatype NodeType = Inaccessible | Accessible(consumed: bool, access: Access)

  datatype Node = Node(ty: NodeType, left: Option<Node>, right: Option<Node>) {
    predicate IsAccessible() { ty.Accessible? }

    predicate IsConsumed() { ty.Accessible? && ty.consumed }

    predicate IsManaged() { ty.Accessible? && ty.access.Managed? }

    predicate IsChildless() { left.None? && right.None? }

    predicate IsDeletable() { IsAccessible() && !IsConsumed() && IsChildless() }

    function WithConsumed(c: bool): Node
      requires IsAccessible()
    {
      this.(ty := Accessible(c, ty.access))
    }
  }

  type Tree = Option<Node>

  function Half(low: nat, bits: nat): nat
    requires 0 < bits
  {
    low + Power(2, bits - 1)
  }

  predicate DeletableChild(t: Tree) {
    t.Some? && t.value.IsDeletable()
  }

  /**
   Shape of the tree between operations.  A consumed node has no children, a split node has
   two managed children, and those are never both deletable.
   */
  ghost predicate WellFormed(t: Tree, bits: nat) {
    t.None? ||
    match t.value.ty
    case Inaccessible =>
      && (bits == 0 ==> t.value.IsChildless())
      && (0 < bits ==> WellFormed(t.value.left, bits - 1) && WellFormed(t.value.right, bits - 1))
      && (t.value.left.Some? ==> !t.value.left.value.IsManaged())
      && (t.value.right.Some? ==> !t.value.right.value.IsManaged())
    case Accessible(consumed, _) =>
      t.value.IsChildless() ||
      (&& 0 < bits && !consumed
       && t.value.left.Some? && t.value.left.value.IsManaged() && WellFormed(t.value.left, bits - 1)
       && t.value.right.Some? && t.value.right.value.IsManaged() && WellFormed(t.value.right, bits - 1)
       && !(DeletableChild(t.value.left) && DeletableChild(t.value.right)))
  }

  predicate Selected(n: Node, live: bool) {
    if live then n.IsConsumed() else n.IsDeletable()
  }

  /** The live (consumed) or free (accessible, unconsumed, childless) regions of a tree. */
  function Ids(t: Tree, low: nat, bits: nat, live: bool): set<UntypedId> {
    if t.None? then {} else
    (if Selected(t.value, live) then {UntypedId(low, bits)} else {}) +
    if bits == 0 then {}
    else Ids(t.value.left, low, bits - 1, live) + Ids(t.value.right, Half(low, bits), bits - 1, live)
  }

  /** Where the walk of get_node ends: the node for `id`, if the walk meets no missing child. */
  function NodeAt(t: Tree, low: nat, bits: nat, id: UntypedId): Tree {
    if t.None? then None
    else if bits <= id.bits then (if id == UntypedId(low, bits) then t else None)
    else if id.paddr < Half(low, bits) then NodeAt(t.value.left, low, bits - 1, id)
    else NodeAt(t.value.right, Half(low, bits), bits - 1, id)
  }

  /** Writing `node` through the reference that get_node_mut returns. */
  function Replace(t: Tree, low: nat, bits: nat, id: UntypedId, node: Node): (r: Tree)
    requires NodeAt(t, low, bits, id).Some?
    ensures r.Some?
  {
    if bits <= id.bits then Some(node)
    else if id.paddr < Half(low, bits) then
      Some(t.value.(left := Replace(t.value.left, low, bits - 1, id, node)))
    else
      Some(t.value.(right := Replace(t.value.right, Half(low, bits), bits - 1, id, node)))
  }

  /** The tree with every built-in whole and free again. */
  function Reset(t: Tree): Tree {
    if t.None? then None
    else match t.value.ty
      case Inaccessible => Some(Node(Inaccessible, Reset(t.value.left), Reset(t.value.right)))
      case Accessible(_, access) => Some(Node(Accessible(false, access), None, None))
  }

  /** How many managed nodes keep their capability in `slot`. */
  function SlotUses(t: Tree, slot: nat): nat {
    if t.None? then 0
    else (if t.value.IsManaged() && t.value.ty.access.slot == slot then 1 else 0) +
         SlotUses(t.value.left, slot) + SlotUses(t.value.right, slot)
  }

  ghost predicate InRegion(id: UntypedId, low: nat, bits: nat) {
    id.bits <= bits && low <= id.paddr && id.paddr + Power(2, id.bits) <= low + Power(2, bits)
  }

  lemma {:induction false} IdsInRegion(t: Tree, low: nat, bits: nat, live: bool)
    ensures forall id :: id in Ids(t, low, bits, live) ==> InRegion(id, low, bits)
    decreases t
  {
    if t.Some? && 0 < bits {
      IdsInRegion(t.value.left, low, bits - 1, live);
      IdsInRegion(t.value.right, Half(low, bits), bits - 1, live);
    }
  }

  lemma {:induction false} WalkInRegion(t: Tree, low: nat, bits: nat, id: UntypedId)
    requires NodeAt(t, low, bits, id).Some?
    ensures InRegion(id, low, bits)
    decreases t
  {
    if id.bits < bits {
      if id.paddr < Half(low, bits) {
        WalkInRegion(t.value.left, low, bits - 1, id);
      } else {
        WalkInRegion(t.value.right, Half(low, bits), bits - 1, id);
      }
    }
  }

  /** The walk reaches exactly the nodes the free list and the outstanding ids name. */
  lemma {:induction false} WalkFindsIds(t: Tree, low: nat, bits: nat, live: bool, id: UntypedId)
    ensures id in Ids(t, low, bits, live) <==>
            NodeAt(t, low, bits, id).Some? && Selected(NodeAt(t, low, bits, id).value, live)
    decreases t
  {
    if t.Some? && 0 < bits {
      IdsInRegion(t.value.left, low, bits - 1, live);
      IdsInRegion(t.value.right, Half(low, bits), bits - 1, live);
      WalkFindsIds(t.value.left, low, bits - 1, live, id);
      WalkFindsIds(t.value.right, Half(low, bits), bits - 1, live, id);
    }
  }

  lemma {:induction false} ReplaceIds(t: Tree, low: nat, bits: nat, id: UntypedId, node: Node, live: bool)
    requires NodeAt(t, low, bits, id).Some?
    ensures Ids(Replace(t, low, bits, id, node), low, bits, live) ==
            Ids(t, low, bits, live) - Ids(NodeAt(t, low, bits, id), id.paddr, id.bits, live)
            + Ids(Some(node), id.paddr, id.bits, live)
    decreases t
  {
    if id.bits < bits {
      var half := Half(low, bits);
      IdsInRegion(NodeAt(t, low, bits, id), id.paddr, id.bits, live);
      IdsInRegion(t.value.left, low, bits - 1, live);
      IdsInRegion(t.value.right, half, bits - 1, live);
      if id.paddr < half {
        WalkInRegion(t.value.left, low, bits - 1, id);
        ReplaceIds(t.value.left, low, bits - 1, id, node, live);
      } else {
        WalkInRegion(t.value.right, half, bits - 1, id);
        ReplaceIds(t.value.right, half, bits - 1, id, node, live);
      }
    }
  }

  /** Replacing a node keeps the shape as long as the new node is not deletable unless the old one was. */
  lemma {:induction false} ReplaceWellFormed(t: Tree, low: nat, bits: nat, id: UntypedId, node: Node)
    requires WellFormed(t, bits) && NodeAt(t, low, bits, id).Some?
    requires var prior := NodeAt(t, low, bits, id).value;
      && prior.IsAccessible() && node.IsAccessible() && prior.ty.access == node.ty.access
      && (node.IsDeletable() ==> prior.IsDeletable())
    requires WellFormed(Some(node), id.bits)
    ensures WellFormed(Replace(t, low, bits, id, node), bits)
    ensures Reset(Replace(t, low, bits, id, node)) == Reset(t)
    decreases t
  {
    if id.bits < bits {
      if id.paddr < Half(low, bits) {
        ReplaceWellFormed(t.value.left, low, bits - 1, id, node);
      } else {
        ReplaceWellFormed(t.value.right, Half(low, bits), bits - 1, id, node);
      }
    }
  }

  lemma {:induction false} ReplaceSlotUses(t: Tree, low: nat, bits: nat, id: UntypedId, node: Node, slot: nat)
    requires NodeAt(t, low, bits, id).Some?
    ensures SlotUses(Replace(t, low, bits, id, node), slot) + SlotUses(NodeAt(t, low, bits, id), slot) ==
            SlotUses(t, slot) + SlotUses(Some(node), slot)
    decreases t
  {
    if id.bits < bits {
      if id.paddr < Half(low, bits) {
        ReplaceSlotUses(t.value.left, low, bits - 1, id, node, slot);
      } else {
        ReplaceSlotUses(t.value.right, Half(low, bits), bits - 1, id, node, slot);
      }
    }
  }

  lemma {:induction false} ReplaceTwice(t: Tree, low: nat, bits: nat, id: UntypedId, a: Node, b: Node)
    requires NodeAt(t, low, bits, id).Some?
    ensures NodeAt(Replace(t, low, bits, id, a), low, bits, id) == Some(a)
    ensures Replace(Replace(t, low, bits, id, a), low, bits, id, b) == Replace(t, low, bits, id, b)
    decreases t
  {
    if id.bits < bits {
      if id.paddr < Half(low, bits) {
        ReplaceTwice(t.value.left, low, bits - 1, id, a, b);
      } else {
        ReplaceTwice(t.value.right, Half(low, bits), bits - 1, id, a, b);
      }
    }
  }

  /** Reaching the right half of a node that has just been written. */
  lemma {:induction false} ReplaceRightChild(t: Tree, low: nat, bits: nat, id: UntypedId, a: Node, c: Node)
    requires NodeAt(t, low, bits, id).Some? && 0 < id.bits && a.right.Some?
    ensures var r := UntypedId(Half(id.paddr, id.bits), id.bits - 1);
      var u := Replace(t, low, bits, id, a);
      && NodeAt(u, low, bits, r) == a.right
      && Replace(u, low, bits, r, c) == Replace(t, low, bits, id, a.(right := Some(c)))
    decreases t
  {
    if id.bits < bits {
      var half := Half(low, bits);
      if id.paddr < half {
        WalkInRegion(t.value.left, low, bits - 1, id);
        ReplaceRightChild(t.value.left, low, bits - 1, id, a, c);
      } else {
        ReplaceRightChild(t.value.right, half, bits - 1, id, a, c);
      }
    }
  }

  /** With nothing live, an accessible node is whole and free. */
  lemma {:induction false} NothingLive(t: Tree, low: nat, bits: nat)
    requires WellFormed(t, bits) && Ids(t, low, bits, true) == {}
    ensures t == Reset(t)
    ensures t.Some? && t.value.IsAccessible() ==> t.value.IsDeletable()
    decreases t
  {
    if t.Some? {
      assert !t.value.IsConsumed() by {
        assert t.value.IsConsumed() ==> UntypedId(low, bits) in Ids(t, low, bits, true);
      }
      if 0 < bits {
        NothingLive(t.value.left, low, bits - 1);
        NothingLive(t.value.right, Half(low, bits), bits - 1);
      }
    }
  }

  function LeftHalf(id: UntypedId): UntypedId
    requires 0 < id.bits
  {
    UntypedId(id.paddr, id.bits - 1)
  }

  function RightHalf(id: UntypedId): UntypedId
    requires 0 < id.bits
  {
    UntypedId(Half(id.paddr, id.bits), id.bits - 1)
  }

  function ManagedLeaf(consumed: bool, slot: nat): Node {
    Node(Accessible(consumed, Managed(slot)), None, None)
  }

  lemma {:induction false} HalvesAbsent(t: Tree, low: nat, bits: nat, id: UntypedId)
    requires NodeAt(t, low, bits, id).Some? && NodeAt(t, low, bits, id).value.IsChildless() && 0 < id.bits
    ensures NodeAt(t, low, bits, LeftHalf(id)).None? && NodeAt(t, low, bits, RightHalf(id)).None?
    decreases t
  {
    if id.bits < bits {
      if id.paddr < Half(low, bits) {
        WalkInRegion(t.value.left, low, bits - 1, id);
        HalvesAbsent(t.value.left, low, bits - 1, id);
      } else {
        HalvesAbsent(t.value.right, Half(low, bits), bits - 1, id);
      }
    }
  }

  /** Consuming a free region. */
  lemma Consume(t: Tree, bits: nat, id: UntypedId, after: Tree)
    requires WellFormed(t, bits) && id in Ids(t, 0, bits, false)
    requires NodeAt(t, 0, bits, id).Some? && NodeAt(t, 0, bits, id).value.IsAccessible()
    requires after == Replace(t, 0, bits, id, NodeAt(t, 0, bits, id).value.WithConsumed(true))
    ensures WellFormed(after, bits) && Reset(after) == Reset(t)
    ensures Ids(after, 0, bits, false) == Ids(t, 0, bits, false) - {id}
    ensures Ids(after, 0, bits, true) == Ids(t, 0, bits, true) + {id} && id !in Ids(t, 0, bits, true)
    ensures forall s :: SlotUses(after, s) == SlotUses(t, s)
  {
    ConsumeIds(t, bits, id, after);
    hide Ids;
    var node := NodeAt(t, 0, bits, id).value.WithConsumed(true);
    ReplaceWellFormed(t, 0, bits, id, node);
    forall s ensures SlotUses(after, s) == SlotUses(t, s) {
      ReplaceSlotUses(t, 0, bits, id, node, s);
    }
  }

  lemma ConsumeIds(t: Tree, bits: nat, id: UntypedId, after: Tree)
    requires WellFormed(t, bits) && id in Ids(t, 0, bits, false)
    requires NodeAt(t, 0, bits, id).Some? && NodeAt(t, 0, bits, id).value.IsAccessible()
    requires after == Replace(t, 0, bits, id, NodeAt(t, 0, bits, id).value.WithConsumed(true))
    ensures NodeAt(t, 0, bits, id).value.IsDeletable()
    ensures Ids(after, 0, bits, false) == Ids(t, 0, bits, false) - {id}
    ensures Ids(after, 0, bits, true) == Ids(t, 0, bits, true) + {id} && id !in Ids(t, 0, bits, true)
  {
    hide Ids, WellFormed;
    WalkFindsIds(t, 0, bits, false, id);
    WalkFindsIds(t, 0, bits, true, id);
    var n := NodeAt(t, 0, bits, id).value;
    var node := n.WithConsumed(true);
    LeafIds(n, id.paddr, id.bits, false);
    LeafIds(n, id.paddr, id.bits, true);
    LeafIds(node, id.paddr, id.bits, false);
    LeafIds(node, id.paddr, id.bits, true);
    ReplaceIds(t, 0, bits, id, node, false);
    ReplaceIds(t, 0, bits, id, node, true);
  }

  /** A consumed node split in two, the left half free and the right half consumed in its place. */
  function SplitNode(access: Access, leftSlot: nat, rightSlot: nat): Node {
    Node(Accessible(false, access), Some(ManagedLeaf(false, leftSlot)), Some(ManagedLeaf(true, rightSlot)))
  }

  lemma LeafIds(n: Node, low: nat, bits: nat, live: bool)
    requires n.IsChildless()
    ensures Ids(Some(n), low, bits, live) == if Selected(n, live) then {UntypedId(low, bits)} else {}
  {
    assert Ids(None, low, bits, live) == {};
  }

  lemma SplitNodeIds(id: UntypedId, access: Access, leftSlot: nat, rightSlot: nat)
    requires 0 < id.bits
    ensures var n := Some(SplitNode(access, leftSlot, rightSlot));
      && Ids(n, id.paddr, id.bits, false) == {LeftHalf(id)}
      && Ids(n, id.paddr, id.bits, true) == {RightHalf(id)}
      && WellFormed(n, id.bits)
  {
    var l, r := ManagedLeaf(false, leftSlot), ManagedLeaf(true, rightSlot);
    LeafIds(l, id.paddr, id.bits - 1, false);
    LeafIds(l, id.paddr, id.bits - 1, true);
    LeafIds(r, Half(id.paddr, id.bits), id.bits - 1, false);
    LeafIds(r, Half(id.paddr, id.bits), id.bits - 1, true);
    assert WellFormed(Some(l), id.bits - 1) && WellFormed(Some(r), id.bits - 1);
    assert l.IsManaged() && r.IsManaged() && !DeletableChild(Some(r));
  }

  /** Splitting a region held for a request hands the request on to the right half. */
  lemma Split(t: Tree, bits: nat, id: UntypedId, access: Access, leftSlot: nat, rightSlot: nat, after: Tree)
    requires WellFormed(t, bits) && 0 < id.bits
    requires NodeAt(t, 0, bits, id) == Some(Node(Accessible(true, access), None, None))
    requires after == Replace(t, 0, bits, id, SplitNode(access, leftSlot, rightSlot))
    ensures WellFormed(after, bits) && Reset(after) == Reset(t)
    ensures Ids(after, 0, bits, false) == Ids(t, 0, bits, false) + {LeftHalf(id)}
    ensures Ids(after, 0, bits, true) == Ids(t, 0, bits, true) - {id} + {RightHalf(id)}
  {
    var node := SplitNode(access, leftSlot, rightSlot);
    SplitNodeIds(id, access, leftSlot, rightSlot);
    LeafIds(NodeAt(t, 0, bits, id).value, id.paddr, id.bits, false);
    LeafIds(NodeAt(t, 0, bits, id).value, id.paddr, id.bits, true);
    ReplaceWellFormed(t, 0, bits, id, node);
    ReplaceIds(t, 0, bits, id, node, false);
    ReplaceIds(t, 0, bits, id, node, true);
  }

  lemma SplitSlotUses(t: Tree, bits: nat, id: UntypedId, access: Access,
                      leftSlot: nat, rightSlot: nat, after: Tree, s: nat)
    requires NodeAt(t, 0, bits, id) == Some(Node(Accessible(true, access), None, None))
    requires after == Replace(t, 0, bits, id, SplitNode(access, leftSlot, rightSlot))
    ensures SlotUses(after, s) ==
      SlotUses(t, s) + (if s == leftSlot then 1 else 0) + (if s == rightSlot then 1 else 0)
  {
    var node := SplitNode(access, leftSlot, rightSlot);
    ReplaceSlotUses(t, 0, bits, id, node, s);
    assert SlotUses(node.left, s) == if s == leftSlot then 1 else 0;
    assert SlotUses(node.right, s) == if s == rightSlot then 1 else 0;
  }

  /** The halves of a region without children are neither free nor live. */
  lemma HalvesUnnamed(t: Tree, bits: nat, id: UntypedId)
    requires NodeAt(t, 0, bits, id).Some? && NodeAt(t, 0, bits, id).value.IsChildless() && 0 < id.bits
    ensures LeftHalf(id) !in Ids(t, 0, bits, false) && RightHalf(id) !in Ids(t, 0, bits, false)
    ensures LeftHalf(id) !in Ids(t, 0, bits, true) && RightHalf(id) !in Ids(t, 0, bits, true)
  {
    HalvesAbsent(t, 0, bits, id);
    AbsentMeansNoId(t, bits, LeftHalf(id));
    AbsentMeansNoId(t, bits, RightHalf(id));
  }

  lemma AbsentMeansNoId(t: Tree, bits: nat, id: UntypedId)
    requires NodeAt(t, 0, bits, id).None?
    ensures id !in Ids(t, 0, bits, false) && id !in Ids(t, 0, bits, true)
  {
    WalkFindsIds(t, 0, bits, false, id);
    WalkFindsIds(t, 0, bits, true, id);
  }

  // ----- Building the tree from the built-in regions -----

  /** The tree with a built-in at `id`, and inaccessible nodes created on the way down to it. */
  function Plant(t: Tree, low: nat, bits: nat, id: UntypedId, cptr: nat): Node
    decreases bits
  {
    if bits <= id.bits then Node(Accessible(false, BuiltIn(cptr)), None, None) else
    var n := if t.None? then Node(Inaccessible, None, None) else t.value;
    if id.paddr < Half(low, bits) then n.(left := Some(Plant(n.left, low, bits - 1, id, cptr)))
    else n.(right := Some(Plant(n.right, Half(low, bits), bits - 1, id, cptr)))
  }

  ghost predicate DisjointIds(a: UntypedId, b: UntypedId) {
    a.paddr + Power(2, a.bits) <= b.paddr || b.paddr + Power(2, b.bits) <= a.paddr
  }

  ghost predicate Aligned(id: UntypedId) {
    exists k: nat :: id.paddr == k * Power(2, id.bits)
  }

  lemma MultiplesApart(i: nat, k: nat, c: nat, p: nat, q: nat)
    requires q == c * p
    ensures i * p < k * q ==> i * p + p <= k * q
  {
    var j := k * c;
    assert k * (c * p) == j * p;
    if j <= i {
      assert j * p <= i * p;
    } else {
      assert (i + 1) * p <= j * p;
    }
  }

  /** An aligned region inside the m-th node of its level lies in one of that node's halves. */
  lemma InOneHalf(id: UntypedId, low: nat, bits: nat, m: nat)
    requires Aligned(id) && InRegion(id, low, bits) && id.bits < bits && low == m * Power(2, bits)
    ensures if id.paddr < Half(low, bits) then InRegion(id, low, bits - 1)
            else InRegion(id, Half(low, bits), bits - 1)
    ensures low == (2 * m) * Power(2, bits - 1) && Half(low, bits) == (2 * m + 1) * Power(2, bits - 1)
  {
    HalfOfMultiple(m, Power(2, bits - 1));
    InBeforeMultiple(id, 2 * m + 1, bits - 1);
  }

  lemma HalfOfMultiple(m: nat, h: nat)
    ensures m * (2 * h) == (2 * m) * h && m * (2 * h) + h == (2 * m + 1) * h
  {}

  /** An aligned region that starts before a larger power-of-two boundary ends before it. */
  lemma InBeforeMultiple(id: UntypedId, k: nat, bits: nat)
    requires Aligned(id) && id.bits <= bits
    ensures id.paddr < k * Power(2, bits) ==> id.paddr + Power(2, id.bits) <= k * Power(2, bits)
  {
    var i: nat :| id.paddr == i * Power(2, id.bits);
    PowerSum(2, bits - id.bits, id.bits);
    MultiplesApart(i, k, Power(2, bits - id.bits), Power(2, id.bits), Power(2, bits));
  }

  /** A region disjoint from the built-ins joins them. */
  lemma {:induction false} PlantAddsRegion(t: Tree, low: nat, bits: nat, m: nat, id: UntypedId, cptr: nat)
    requires WellFormed(t, bits) && t == Reset(t)
    requires Aligned(id) && InRegion(id, low, bits) && low == m * Power(2, bits)
    requires forall f :: f in Ids(t, low, bits, false) ==> DisjointIds(f, id)
    ensures var r := Some(Plant(t, low, bits, id, cptr));
      && WellFormed(r, bits) && r == Reset(r) && !r.value.IsManaged()
      && Ids(r, low, bits, false) == Ids(t, low, bits, false) + {id}
    ensures id.bits < bits && (t.None? || t.value.ty.Inaccessible?) ==> Plant(t, low, bits, id, cptr).ty.Inaccessible?
    decreases bits
  {
    var r := Plant(t, low, bits, id, cptr);
    if bits <= id.bits {
      LeafIds(r, low, bits, false);
      IdsInRegion(t, low, bits, false);
      assert forall f :: f !in Ids(t, low, bits, false);
    } else {
      InOneHalf(id, low, bits, m);
      assert t.Some? && t.value.IsAccessible() ==> UntypedId(low, bits) in Ids(t, low, bits, false);
      var n := if t.None? then Node(Inaccessible, None, None) else t.value;
      if id.paddr < Half(low, bits) {
        PlantAddsRegion(n.left, low, bits - 1, 2 * m, id, cptr);
      } else {
        PlantAddsRegion(n.right, Half(low, bits), bits - 1, 2 * m + 1, id, cptr);
      }
    }
  }

  /** A tree of whole, free built-ins holds nothing live and no slots. */
  lemma {:induction false} PristineIsEmpty(t: Tree, low: nat, bits: nat)
    requires WellFormed(t, bits) && t == Reset(t)
    ensures Ids(t, low, bits, true) == {}
    ensures (t.Some? ==> !t.value.IsManaged()) ==> forall s :: SlotUses(t, s) == 0
    decreases t
  {
    if t.Some? && t.value.ty.Inaccessible? && 0 < bits {
      PristineIsEmpty(t.value.left, low, bits - 1);
      PristineIsEmpty(t.value.right, Half(low, bits), bits - 1);
    } else if t.Some? {
      LeafIds(t.value, low, bits, true);
    }
  }

  // ----- Tiling -----

  ghost predicate Contains(id: UntypedId, addr: nat) {
    id.paddr <= addr < id.paddr + Power(2, id.bits)
  }

  ghost predicate Covered(ids: set<UntypedId>, addr: nat) {
    exists id :: id in ids && Contains(id, addr)
  }

  /** Free and live regions together. */
  ghost function Regions(t: Tree, low: nat, bits: nat): set<UntypedId> {
    Ids(t, low, bits, false) + Ids(t, low, bits, true)
  }

  lemma RegionsInRegion(t: Tree, low: nat, bits: nat)
    ensures forall id :: id in Regions(t, low, bits) ==> InRegion(id, low, bits)
  {
    IdsInRegion(t, low, bits, false);
    IdsInRegion(t, low, bits, true);
  }

  lemma SplitRegions(t: Tree, low: nat, bits: nat)
    requires t.Some? && 0 < bits && !Selected(t.value, false) && !Selected(t.value, true)
    ensures Regions(t, low, bits) ==
            Regions(t.value.left, low, bits - 1) + Regions(t.value.right, Half(low, bits), bits - 1)
  {}

  lemma WholeRegion(t: Tree, low: nat, bits: nat)
    requires t.Some? && t.value.IsAccessible() && t.value.IsChildless()
    ensures Regions(t, low, bits) == {UntypedId(low, bits)}
  {
    LeafIds(t.value, low, bits, false);
    LeafIds(t.value, low, bits, true);
  }

  /** No address lies in two of a tree's regions, free or live. */
  lemma {:induction false} RegionsDisjoint(t: Tree, low: nat, bits: nat, a: UntypedId, b: UntypedId)
    requires WellFormed(t, bits) && a in Regions(t, low, bits) && b in Regions(t, low, bits) && a != b
    ensures DisjointIds(a, b)
    decreases t
  {
    if t.value.IsAccessible() && t.value.IsChildless() {
      WholeRegion(t, low, bits);
    } else if 0 < bits {
      var half := Half(low, bits);
      SplitRegions(t, low, bits);
      RegionsInRegion(t.value.left, low, bits - 1);
      RegionsInRegion(t.value.right, half, bits - 1);
      if a in Regions(t.value.left, low, bits - 1) && b in Regions(t.value.left, low, bits - 1) {
        RegionsDisjoint(t.value.left, low, bits - 1, a, b);
      }
      if a in Regions(t.value.right, half, bits - 1) && b in Regions(t.value.right, half, bits - 1) {
        RegionsDisjoint(t.value.right, half, bits - 1, a, b);
      }
    }
  }

  lemma CoveredByEither(a: set<UntypedId>, b: set<UntypedId>, addr: nat)
    ensures Covered(a + b, addr) <==> Covered(a, addr) || Covered(b, addr)
  {
    if Covered(a + b, addr) {
      var id :| id in a + b && Contains(id, addr);
      assert id in a || id in b;
    }
    if Covered(a, addr) {
      var id :| id in a && Contains(id, addr);
      assert id in a + b;
    }
    if Covered(b, addr) {
      var id :| id in b && Contains(id, addr);
      assert id in a + b;
    }
  }

  /** The regions of a tree cover exactly the addresses of its built-ins. */
  lemma {:induction false} RegionsCoverBuiltIns(t: Tree, low: nat, bits: nat, addr: nat)
    requires WellFormed(t, bits)
    ensures Covered(Regions(t, low, bits), addr) <==> Covered(Ids(Reset(t), low, bits, false), addr)
    ensures t.Some? && t.value.IsAccessible() ==>
      (Covered(Regions(t, low, bits), addr) <==> Contains(UntypedId(low, bits), addr))
    decreases t
  {
    if t.None? {
      assert Regions(t, low, bits) == {};
    } else {
      if t.value.IsAccessible() {
        LeafIds(Reset(t).value, low, bits, false);
        CoveredBySelf(UntypedId(low, bits), addr);
      }
      if t.value.IsAccessible() && t.value.IsChildless() {
        WholeRegion(t, low, bits);
      } else if 0 < bits {
        var half := Half(low, bits);
        SplitRegions(t, low, bits);
        CoveredByEither(Regions(t.value.left, low, bits - 1), Regions(t.value.right, half, bits - 1), addr);
        RegionsCoverBuiltIns(t.value.left, low, bits - 1, addr);
        RegionsCoverBuiltIns(t.value.right, half, bits - 1, addr);
        if t.value.ty.Inaccessible? {
          ResetIds(t, low, bits, addr);
        }
      } else {
        LeafIds(t.value, low, bits, false);
        LeafIds(t.value, low, bits, true);
        LeafIds(Reset(t).value, low, bits, false);
      }
    }
  }

  lemma CoveredBySelf(id: UntypedId, addr: nat)
    ensures Covered({id}, addr) <==> Contains(id, addr)
  {
    if Contains(id, addr) { assert id in {id}; }
  }

  lemma ResetIds(t: Tree, low: nat, bits: nat, addr: nat)
    requires t.Some? && t.value.ty.Inaccessible? && 0 < bits
    ensures Covered(Ids(Reset(t), low, bits, false), addr) <==>
      Covered(Ids(Reset(t.value.left), low, bits - 1, false), addr) ||
      Covered(Ids(Reset(t.value.right), Half(low, bits), bits - 1, false), addr)
  {
    var l := Ids(Reset(t.value.left), low, bits - 1, false);
    var r := Ids(Reset(t.value.right), Half(low, bits), bits - 1, false);
    assert Ids(Reset(t), low, bits, false) == l + r;
    CoveredByEither(l, r, addr);
  }

  /** Every region of a tree that starts on a multiple of its size is aligned. */
  lemma {:induction false} RegionsAligned(t: Tree, low: nat, bits: nat, m: nat, live: bool)
    requires low == m * Power(2, bits)
    ensures forall id :: id in Ids(t, low, bits, live) ==> Aligned(id)
    decreases t
  {
    if t.Some? {
      assert Aligned(UntypedId(low, bits));
      if 0 < bits {
        HalfOfMultiple(m, Power(2, bits - 1));
        RegionsAligned(t.value.left, low, bits - 1, 2 * m, live);
        RegionsAligned(t.value.right, Half(low, bits), bits - 1, 2 * m + 1, live);
      }
    }
  }
}
