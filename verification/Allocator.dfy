/**
 The untyped-memory allocator: the derivation tree, the free list and the allocator's slots,
 changed together by creating objects and by revoking and freeing them.

 The root of the tree covers 2^rootBits bytes, 2^64 in the source.  Kernel calls succeed and
 leave no trace here.
 */
module Allocators {
  import opened Basics
  import opened BestFit
  import opened CRegions
  import opened DerivationTree
  import opened FreeSpace
  import opened LeafLists

  /** The free list names exactly the free regions of the tree. */
  ghost predicate Coherent(t: Tree, bits: nat, listed: set<UntypedId>) {
    listed == Ids(t, 0, bits, false)
  }

  /** Every managed node's slot is in use, and by no other node. */
  ghost predicate SlotsHeld(t: Tree, used: set<nat>) {
    forall s: nat :: SlotUses(t, s) <= if s in used then 1 else 0
  }

  ghost predicate Consistent(t: Tree, bits: nat, listed: set<UntypedId>, used: set<nat>) {
    WellFormed(t, bits) && Coherent(t, bits, listed) && SlotsHeld(t, used)
  }

  function Holds(used: set<nat>, s: nat): int {
    if s in used then 1 else 0
  }

  /** What is in use besides the slots of the tree has not changed from one state to the other. */
  ghost predicate SameSpare(t: Tree, r: Tree, before: set<nat>, after: set<nat>) {
    forall s: nat :: Holds(before, s) - SlotUses(t, s) == Holds(after, s) - SlotUses(r, s)
  }

  lemma SpareSame(t: Tree, used: set<nat>)
    ensures SameSpare(t, t, used, used)
  {}

  lemma SpareTrans(t: Tree, m: Tree, r: Tree, a: set<nat>, b: set<nat>, c: set<nat>)
    requires SameSpare(t, m, a, b) && SameSpare(m, r, b, c)
    ensures SameSpare(t, r, a, c)
  {
    hide SlotUses;
    forall s: nat ensures Holds(a, s) - SlotUses(t, s) == Holds(c, s) - SlotUses(r, s) {
      assert Holds(b, s) - SlotUses(m, s) == Holds(c, s) - SlotUses(r, s);
    }
  }

  /** With the tree the same, so are the slots in use. */
  lemma SameTreeSameSlots(t: Tree, before: set<nat>, after: set<nat>)
    requires SameSpare(t, t, before, after)
    ensures before == after
  {
    forall s: nat ensures s in before <==> s in after {
      assert Holds(before, s) - SlotUses(t, s) == Holds(after, s) - SlotUses(t, s);
    }
  }

  /** Each slot in use besides the tree's was so before: the others are as many as the tree has nodes. */
  lemma SpareSizes(t: Tree, r: Tree, before: set<nat>, after: set<nat>)
    requires SlotsHeld(t, before) && SlotsHeld(r, after) && SameSpare(t, r, before, after)
    ensures |before| - ManagedNodes(t) == |after| - ManagedNodes(r)
  {
    hide SlotUses, SlotSet, ManagedNodes;
    TreeSlots(t, before);
    TreeSlots(r, after);
    forall s: nat ensures s in before - SlotSet(t) <==> s in after - SlotSet(r) {
      SlotSetUses(t, s);
      SlotSetUses(r, s);
      assert Holds(before, s) - SlotUses(t, s) == Holds(after, s) - SlotUses(r, s);
      assert SlotUses(t, s) <= Holds(before, s) && SlotUses(r, s) <= Holds(after, s);
    }
    assert before - SlotSet(t) == after - SlotSet(r);
  }

  lemma TreeSlots(t: Tree, used: set<nat>)
    requires SlotsHeld(t, used)
    ensures SlotSet(t) <= used && |used - SlotSet(t)| == |used| - ManagedNodes(t)
  {
    hide SlotUses, SlotSet, ManagedNodes;
    forall s: nat ensures SlotUses(t, s) <= 1 && (s in SlotSet(t) ==> s in used) {
      SlotSetUses(t, s);
    }
    SlotSetSize(t);
    assert used == used - SlotSet(t) + SlotSet(t);
  }

  /** Trees over the same built-ins have the same kind of root. */
  lemma SameRoot(t: Tree, u: Node)
    requires Reset(t) == Reset(Some(u)) && u.ty.Inaccessible?
    ensures t.Some? && t.value.ty.Inaccessible?
  {}

  /** While region `cur` is off the free list for a request, the state is that of `held`, where it is consumed. */
  ghost predicate Holding(tree: Node, bits: nat, cur: UntypedId, held: Tree) {
    var at := NodeAt(Some(tree), 0, bits, cur);
    at.Some? && at.value.IsDeletable() &&
    held == Replace(Some(tree), 0, bits, cur, at.value.WithConsumed(true))
  }

  /** Taking a region off the free list. */
  lemma HoldLeaf(tree: Node, bits: nat, cur: UntypedId, listed: set<UntypedId>, rest: set<UntypedId>, used: set<nat>)
    returns (held: Tree)
    requires Consistent(Some(tree), bits, listed, used) && cur in listed
    requires rest == listed - {cur}
    ensures Holding(tree, bits, cur, held) && Consistent(held, bits, rest, used)
    ensures Reset(held) == Reset(Some(tree))
    ensures cur !in Ids(Some(tree), 0, bits, true)
    ensures Ids(held, 0, bits, true) == Ids(Some(tree), 0, bits, true) + {cur}
    ensures SameSpare(Some(tree), held, used, used)
  {
    WalkFindsIds(Some(tree), 0, bits, false, cur);
    held := Replace(Some(tree), 0, bits, cur, NodeAt(Some(tree), 0, bits, cur).value.WithConsumed(true));
    Consume(Some(tree), bits, cur, held);
  }

  /** The tree after a free node has been given two free children. */
  function SplitTree(tree: Node, bits: nat, cur: UntypedId, leftSlot: nat, rightSlot: nat): Node
    requires NodeAt(Some(tree), 0, bits, cur).Some?
  {
    var node := NodeAt(Some(tree), 0, bits, cur).value;
    Replace(Some(tree), 0, bits, cur,
            node.(left := Some(ManagedLeaf(false, leftSlot)), right := Some(ManagedLeaf(false, rightSlot)))).value
  }

  /** After a split the right half is the region held. */
  lemma HoldRightHalf(tree: Node, bits: nat, cur: UntypedId, held: Tree, leftSlot: nat, rightSlot: nat)
    returns (next: Tree)
    requires Holding(tree, bits, cur, held) && WellFormed(held, bits) && 0 < cur.bits
    ensures Holding(SplitTree(tree, bits, cur, leftSlot, rightSlot), bits, RightHalf(cur), next)
    ensures WellFormed(next, bits) && Reset(next) == Reset(held)
    ensures Ids(next, 0, bits, false) == Ids(held, 0, bits, false) + {LeftHalf(cur)}
    ensures Ids(next, 0, bits, true) == Ids(held, 0, bits, true) - {cur} + {RightHalf(cur)}
    ensures forall s: nat ::
      SlotUses(next, s) ==
      SlotUses(held, s) + (if s == leftSlot then 1 else 0) + (if s == rightSlot then 1 else 0)
  {
    var node := NodeAt(Some(tree), 0, bits, cur).value;
    var access := node.ty.access;
    var split := node.(left := Some(ManagedLeaf(false, leftSlot)), right := Some(ManagedLeaf(false, rightSlot)));
    var both := SplitNode(access, leftSlot, rightSlot);
    assert both == split.(right := Some(ManagedLeaf(true, rightSlot)));
    ReplaceTwice(Some(tree), 0, bits, cur, node.WithConsumed(true), both);
    next := Replace(held, 0, bits, cur, both);
    ReplaceRightChild(Some(tree), 0, bits, cur, split, ManagedLeaf(true, rightSlot));
    Split(held, bits, cur, access, leftSlot, rightSlot, next);
    forall s: nat ensures SlotUses(next, s) ==
      SlotUses(held, s) + (if s == leftSlot then 1 else 0) + (if s == rightSlot then 1 else 0)
    {
      SplitSlotUses(held, bits, cur, access, leftSlot, rightSlot, next, s);
    }
  }

  lemma HalvesOffList(tree: Node, bits: nat, cur: UntypedId, held: Tree)
    requires Holding(tree, bits, cur, held) && 0 < cur.bits
    ensures LeftHalf(cur) !in Ids(held, 0, bits, false) && RightHalf(cur) !in Ids(held, 0, bits, false)
    ensures LeftHalf(cur) !in Ids(held, 0, bits, true) && RightHalf(cur) !in Ids(held, 0, bits, true)
  {
    var node := NodeAt(Some(tree), 0, bits, cur).value.WithConsumed(true);
    ReplaceTwice(Some(tree), 0, bits, cur, node, node);
    HalvesUnnamed(held, bits, cur);
  }

  /** The free list and the slots after the right half has been taken off the list again. */
  lemma HalvedConsistent(held: Tree, next: Tree, bits: nat, left: UntypedId, right: UntypedId,
                         leftSlot: nat, rightSlot: nat, listed: set<UntypedId>, used: set<nat>)
    requires Consistent(held, bits, listed, used) && WellFormed(next, bits)
    requires Ids(next, 0, bits, false) == Ids(held, 0, bits, false) + {left}
    requires left != right && right !in listed
    requires leftSlot != rightSlot && leftSlot !in used && rightSlot !in used
    requires forall s: nat ::
      SlotUses(next, s) ==
      SlotUses(held, s) + (if s == leftSlot then 1 else 0) + (if s == rightSlot then 1 else 0)
    ensures Consistent(next, bits, listed + {left} + {right} - {right}, used + {leftSlot} + {rightSlot})
    ensures SameSpare(held, next, used, used + {leftSlot} + {rightSlot})
  {
    assert listed + {left} + {right} - {right} == listed + {left};
    forall s: nat ensures SlotUses(next, s) <= if s in used + {leftSlot} + {rightSlot} then 1 else 0 {
      assert SlotUses(held, s) <= if s in used then 1 else 0;
    }
  }

  // ----- Freeing -----

  /** The free list agrees with a subtree on the regions inside it. */
  ghost predicate CoherentWithin(t: Tree, low: nat, bits: nat, listed: set<UntypedId>) {
    forall x :: InRegion(x, low, bits) ==> (x in listed <==> x in Ids(t, low, bits, false))
  }

  ghost predicate SameOutside(low: nat, bits: nat, before: set<UntypedId>, after: set<UntypedId>) {
    forall x :: !InRegion(x, low, bits) ==> (x in after <==> x in before)
  }

  /** The slots given back are exactly those no longer used by the subtree. */
  ghost predicate SlotsReleased(t: Tree, r: Tree, before: set<nat>, after: set<nat>) {
    forall s: nat ::
      SlotUses(r, s) <= SlotUses(t, s) &&
      (s in after <==> s in before && SlotUses(r, s) == SlotUses(t, s))
  }

  ghost predicate SameKind(a: NodeType, b: NodeType) {
    match a
    case Inaccessible => b.Inaccessible?
    case Accessible(_, access) => b.Accessible? && b.access == access
  }

  /** A subtree before and after one of its live regions was freed. */
  ghost predicate FreedIn(t: Tree, r: Tree, low: nat, bits: nat, id: UntypedId) {
    && r.Some? && t.Some? && SameKind(t.value.ty, r.value.ty)
    && WellFormed(r, bits) && Reset(r) == Reset(t)
    && Ids(r, low, bits, true) == Ids(t, low, bits, true) - {id}
  }

  function Child(n: Node, left: bool): Tree {
    if left then n.left else n.right
  }

  function WithChild(n: Node, left: bool, c: Node): Node {
    if left then n.(left := Some(c)) else n.(right := Some(c))
  }

  function ChildLow(low: nat, bits: nat, left: bool): nat
    requires 0 < bits
  {
    if left then low else Half(low, bits)
  }

  /** Which ids of a node come from one of its children. */
  lemma ChildIds(n: Node, low: nat, bits: nat, left: bool, live: bool, x: UntypedId)
    requires 0 < bits
    ensures InRegion(x, ChildLow(low, bits, left), bits - 1) ==>
      InRegion(x, low, bits) &&
      (x in Ids(Some(n), low, bits, live) <==> x in Ids(Child(n, left), ChildLow(low, bits, left), bits - 1, live))
    ensures !InRegion(x, ChildLow(low, bits, left), bits - 1) ==>
      x !in Ids(Child(n, left), ChildLow(low, bits, left), bits - 1, live)
  {
    IdsInRegion(n.left, low, bits - 1, live);
    IdsInRegion(n.right, Half(low, bits), bits - 1, live);
  }

  /** Replacing one child by another changes only the ids inside that child. */
  lemma WithChildIds(n: Node, low: nat, bits: nat, left: bool, c: Node, live: bool, x: UntypedId)
    requires 0 < bits && Child(n, left).Some? && !InRegion(x, ChildLow(low, bits, left), bits - 1)
    ensures x in Ids(Some(WithChild(n, left, c)), low, bits, live) <==> x in Ids(Some(n), low, bits, live)
  {
    ChildIds(n, low, bits, left, live, x);
    ChildIds(WithChild(n, left, c), low, bits, left, live, x);
  }

  lemma DescendState(n: Node, low: nat, bits: nat, left: bool, listed: set<UntypedId>, used: set<nat>)
    requires 0 < bits && CoherentWithin(Some(n), low, bits, listed) && SlotsHeld(Some(n), used)
    ensures CoherentWithin(Child(n, left), ChildLow(low, bits, left), bits - 1, listed)
    ensures SlotsHeld(Child(n, left), used)
  {
    forall x | InRegion(x, ChildLow(low, bits, left), bits - 1)
      ensures x in listed <==> x in Ids(Child(n, left), ChildLow(low, bits, left), bits - 1, false)
    {
      ChildIds(n, low, bits, left, false, x);
    }
  }

  /** A live region below a node is below the child on its side. */
  lemma LiveBelow(n: Node, low: nat, bits: nat, id: UntypedId)
    requires id in Ids(Some(n), low, bits, true) && id.bits != bits
    ensures 0 < bits && InRegion(id, low, bits)
    ensures var left := id.paddr < Half(low, bits);
      id in Ids(Child(n, left), ChildLow(low, bits, left), bits - 1, true)
  {
    IdsInRegion(n.left, low, bits - 1, true);
    IdsInRegion(n.right, Half(low, bits), bits - 1, true);
  }

  /** The free list after the child's part has been done. */
  lemma AscendCoherent(n: Node, low: nat, bits: nat, left: bool, c: Node, before: set<UntypedId>, after: set<UntypedId>)
    requires 0 < bits && Child(n, left).Some? && CoherentWithin(Some(n), low, bits, before)
    requires CoherentWithin(Some(c), ChildLow(low, bits, left), bits - 1, after)
    requires SameOutside(ChildLow(low, bits, left), bits - 1, before, after)
    ensures CoherentWithin(Some(WithChild(n, left, c)), low, bits, after)
    ensures SameOutside(low, bits, before, after)
  {
    forall x ensures InRegion(x, low, bits) ==>
      (x in after <==> x in Ids(Some(WithChild(n, left, c)), low, bits, false))
    {
      ChildIds(WithChild(n, left, c), low, bits, left, false, x);
      if !InRegion(x, ChildLow(low, bits, left), bits - 1) {
        WithChildIds(n, low, bits, left, c, false, x);
      }
    }
    forall x | !InRegion(x, low, bits) ensures x in after <==> x in before {
      ChildIds(n, low, bits, left, false, x);
    }
  }

  lemma AscendLive(n: Node, low: nat, bits: nat, left: bool, c: Node, id: UntypedId)
    requires 0 < bits && Child(n, left).Some?
    requires id in Ids(Child(n, left), ChildLow(low, bits, left), bits - 1, true)
    requires Ids(Some(c), ChildLow(low, bits, left), bits - 1, true) ==
             Ids(Child(n, left), ChildLow(low, bits, left), bits - 1, true) - {id}
    ensures Ids(Some(WithChild(n, left, c)), low, bits, true) == Ids(Some(n), low, bits, true) - {id}
  {
    var m := WithChild(n, left, c);
    forall x ensures x in Ids(Some(m), low, bits, true) <==> x in Ids(Some(n), low, bits, true) - {id} {
      ChildIds(m, low, bits, left, true, x);
      ChildIds(n, low, bits, left, true, x);
      ChildIds(n, low, bits, left, true, id);
      if !InRegion(x, ChildLow(low, bits, left), bits - 1) {
        WithChildIds(n, low, bits, left, c, true, x);
      }
    }
  }

  /** What holds of a node right after one of its regions was freed below it, before any joining. */
  ghost predicate FreedBelow(n: Node, m: Node, low: nat, bits: nat, id: UntypedId) {
    && 0 < bits && m.ty == n.ty && Reset(Some(m)) == Reset(Some(n))
    && Ids(Some(m), low, bits, true) == Ids(Some(n), low, bits, true) - {id}
    && (m.IsAccessible() ==>
        && !m.IsConsumed()
        && m.left.Some? && m.left.value.IsManaged() && m.right.Some? && m.right.value.IsManaged())
    && (MustJoin(m) || WellFormed(Some(m), bits))
  }

  predicate MustJoin(m: Node) {
    m.IsAccessible() && DeletableChild(m.left) && DeletableChild(m.right)
  }

  lemma AscendFreed(n: Node, low: nat, bits: nat, left: bool, c: Node, id: UntypedId)
    requires WellFormed(Some(n), bits) && 0 < bits && Child(n, left).Some?
    requires id in Ids(Child(n, left), ChildLow(low, bits, left), bits - 1, true)
    requires FreedIn(Child(n, left), Some(c), ChildLow(low, bits, left), bits - 1, id)
    ensures FreedBelow(n, WithChild(n, left, c), low, bits, id)
  {
    AscendLive(n, low, bits, left, c, id);
  }

  /** Joining two free halves leaves the node whole and free. */
  lemma Joined(n: Node, m: Node, low: nat, bits: nat, id: UntypedId)
    requires FreedBelow(n, m, low, bits, id) && MustJoin(m)
    ensures FreedIn(Some(n), Some(Node(m.ty, None, None)), low, bits, id)
  {
    var r := Node(m.ty, None, None);
    LeafIds(r, low, bits, true);
    LeafIds(m.left.value, low, bits - 1, true);
    LeafIds(m.right.value, Half(low, bits), bits - 1, true);
  }

  lemma JoinCoherent(m: Node, low: nat, bits: nat, before: set<UntypedId>, after: set<UntypedId>)
    requires 0 < bits && MustJoin(m) && CoherentWithin(Some(m), low, bits, before)
    requires var id := UntypedId(low, bits); after == before - {LeftHalf(id)} - {RightHalf(id)} + {id}
    requires !m.IsConsumed()
    ensures CoherentWithin(Some(Node(m.ty, None, None)), low, bits, after)
    ensures SameOutside(low, bits, before, after)
  {
    LeafIds(Node(m.ty, None, None), low, bits, false);
    HalfIds(m, low, bits);
    HalvesInRegion(low, bits);
  }

  /** The free regions of a node whose two halves are free. */
  lemma HalfIds(m: Node, low: nat, bits: nat)
    requires 0 < bits && MustJoin(m)
    ensures Ids(Some(m), low, bits, false) ==
            {LeftHalf(UntypedId(low, bits)), RightHalf(UntypedId(low, bits))}
  {
    LeafIds(m.left.value, low, bits - 1, false);
    LeafIds(m.right.value, Half(low, bits), bits - 1, false);
    assert Ids(m.left, low, bits - 1, false) == {LeftHalf(UntypedId(low, bits))};
    assert Ids(m.right, Half(low, bits), bits - 1, false) == {RightHalf(UntypedId(low, bits))};
    assert !Selected(m, false);
  }

  lemma HalvesInRegion(low: nat, bits: nat)
    requires 0 < bits
    ensures var id := UntypedId(low, bits);
      && InRegion(id, low, bits) && InRegion(LeftHalf(id), low, bits) && InRegion(RightHalf(id), low, bits)
      && LeftHalf(id) != RightHalf(id)
  {}

  /** The two halves to be joined are on the free list, their parent is not. */
  lemma JoinReady(m: Node, low: nat, bits: nat, listed: set<UntypedId>)
    requires 0 < bits && MustJoin(m) && CoherentWithin(Some(m), low, bits, listed)
    ensures var id := UntypedId(low, bits);
      LeftHalf(id) in listed && RightHalf(id) in listed && LeftHalf(id) != RightHalf(id) &&
      id !in listed
  {
    HalfIds(m, low, bits);
    HalvesInRegion(low, bits);
  }

  lemma JoinSlots(m: Node, used: set<nat>)
    requires MustJoin(m) && m.left.value.IsManaged() && m.right.value.IsManaged()
    requires SlotsHeld(Some(m), used)
    ensures var a, b := m.left.value.ty.access.slot, m.right.value.ty.access.slot;
      && a != b && a in used && b in used
      && SlotsReleased(Some(m), Some(Node(m.ty, None, None)), used, used - {a} - {b})
  {
    var a, b := m.left.value.ty.access.slot, m.right.value.ty.access.slot;
    assert forall s: nat :: SlotUses(m.left, s) == if s == a then 1 else 0;
    assert forall s: nat :: SlotUses(m.right, s) == if s == b then 1 else 0;
    assert SlotUses(Some(m), a) >= 1 && SlotUses(Some(m), b) >= 1;
    assert forall s: nat ::
      SlotUses(Some(m), s) ==
      SlotUses(Some(Node(m.ty, None, None)), s) + SlotUses(m.left, s) + SlotUses(m.right, s);
  }

  lemma NoneAtRoot(n: Node, bits: nat)
    requires n.ty.Inaccessible?
    ensures forall id :: id in Ids(Some(n), 0, bits, false) ==> id.bits < bits
  {
    if 0 < bits {
      IdsInRegion(n.left, 0, bits - 1, false);
      IdsInRegion(n.right, Half(0, bits), bits - 1, false);
    }
  }

  lemma NamedAtRoot(node: Node, low: nat, bits: nat, id: UntypedId)
    requires id in Ids(Some(node), low, bits, true) && id.bits == bits
    ensures id == UntypedId(low, bits) && node.IsConsumed()
  {
    if 0 < bits {
      IdsInRegion(node.left, low, bits - 1, true);
      IdsInRegion(node.right, Half(low, bits), bits - 1, true);
    }
  }

  lemma AscendSlots(n: Node, left: bool, c: Node, before: set<nat>, after: set<nat>)
    requires Child(n, left).Some? && SlotsHeld(Some(n), before)
    requires SlotsReleased(Child(n, left), Some(c), before, after)
    ensures SlotsReleased(Some(n), Some(WithChild(n, left, c)), before, after)
  {
    forall s: nat ensures SlotUses(Some(WithChild(n, left, c)), s) - SlotUses(Some(n), s) ==
      SlotUses(Some(c), s) - SlotUses(Child(n, left), s) {}
  }

  /** Slots given back were the tree's own. */
  lemma ReleasedKeepsSpare(t: Tree, r: Tree, before: set<nat>, after: set<nat>)
    requires SlotsHeld(t, before) && SlotsReleased(t, r, before, after)
    ensures SameSpare(t, r, before, after)
  {
    hide SlotUses;
    forall s: nat ensures Holds(before, s) - SlotUses(t, s) == Holds(after, s) - SlotUses(r, s) {
      assert SlotUses(t, s) <= if s in before then 1 else 0;
    }
  }

  lemma ReleasedTwice(t: Tree, m: Tree, r: Tree, a: set<nat>, b: set<nat>, c: set<nat>)
    requires SlotsReleased(t, m, a, b) && SlotsReleased(m, r, b, c)
    ensures SlotsReleased(t, r, a, c)
  {}

  // ----- A slot beside the tree -----

  lemma MoreSlots(t: Tree, used: set<nat>, more: set<nat>)
    requires SlotsHeld(t, used) && used <= more
    ensures SlotsHeld(t, more)
  {}

  /** A slot taken before an object was created, and given back after, was never the tree's. */
  lemma TemporarySlot(t: Tree, r: Tree, before: set<nat>, during: set<nat>, kept: nat, temp: nat)
    requires SlotsHeld(t, before) && kept !in before && temp !in before && kept != temp
    requires SlotsHeld(r, during) && before + {kept} + {temp} <= during
    requires SameSpare(t, r, before + {kept} + {temp}, during)
    ensures SlotsHeld(r, during - {temp}) && SameSpare(t, r, before + {kept}, during - {temp})
  {
    hide SlotUses;
    var used := before + {kept} + {temp};
    assert Holds(used, temp) - SlotUses(t, temp) == Holds(during, temp) - SlotUses(r, temp);
    assert SlotUses(t, temp) <= if temp in before then 1 else 0;
    forall s: nat ensures Holds(before + {kept}, s) - SlotUses(t, s) == Holds(during - {temp}, s) - SlotUses(r, s) {
      assert Holds(used, s) - SlotUses(t, s) == Holds(during, s) - SlotUses(r, s);
    }
  }

  // ----- Many objects -----

  /** `ids` are new, distinct live regions of the sizes asked for. */
  ghost predicate Created(ids: seq<UntypedId>, sizes: seq<nat>, before: set<UntypedId>, after: set<UntypedId>) {
    && |ids| <= |sizes|
    && (forall i :: 0 <= i < |ids| ==> ids[i].bits == sizes[i] && ids[i] !in before)
    && NoDup(ids)
    && after == before + (set id | id in ids)
  }

  lemma CreatedNone(sizes: seq<nat>, live: set<UntypedId>)
    ensures Created([], sizes, live, live)
  {}

  lemma CreatedNext(ids: seq<UntypedId>, sizes: seq<nat>, before: set<UntypedId>, after: set<UntypedId>, id: UntypedId)
    requires Created(ids, sizes, before, after) && |ids| < |sizes| && id.bits == sizes[|ids|] && id !in after
    ensures Created(ids + [id], sizes, before, after + {id})
  {
    assert forall i :: 0 <= i < |ids| ==> ids[i] in after;
  }

  /** A request of a client: an object of 2^size bytes, or the k-th outstanding region given back. */
  datatype Op = Create(size: nat) | Free(k: nat)

  datatype Snapshot = Snapshot(free: set<UntypedId>, slots: nat, outstanding: seq<UntypedId>)

  /** `id` is the end of `block`. */
  ghost predicate EndsBlock(id: UntypedId, block: UntypedId) {
    id.bits <= block.bits && id.paddr + Power(2, id.bits) == block.paddr + Power(2, block.bits)
  }

  /** `id` is the end, of the size asked for, of one of the smallest free blocks that are large enough. */
  ghost predicate EndOfBestFit(free: set<UntypedId>, counts: Counts, size: nat, id: UntypedId) {
    id.bits == size &&
    exists block :: block in free && EndsBlock(id, block) && Some(block.bits) == Smallest(counts, size)
  }

  /**
   What one request does: an object is created exactly when it can be, at the end of a best-fitting
   block and behind the others; a free takes out the region it names.
   */
  ghost predicate Follows(op: Op, bits: nat, s: Snapshot, next: Snapshot) {
    match op
    case Create(size) =>
      var counts := CountsIn(s.free, bits);
      if !CanServe(counts, s.slots, size) then next == s
      else
        && |next.outstanding| == |s.outstanding| + 1 && next.outstanding[..|s.outstanding|] == s.outstanding
        && EndOfBestFit(s.free, counts, size, next.outstanding[|s.outstanding|])
        && next.outstanding[|s.outstanding|] !in s.outstanding
        && Some(CountsIn(next.free, bits)) == Take(counts, size)
        && next.slots == s.slots - 2 * (Smallest(counts, size).value - size)
    case Free(k) =>
      if |s.outstanding| <= k then next == s
      else next.outstanding == Without(s.outstanding, k)
  }

  /** What is free, and how many slots are unused out of `slots`, is told by what is outstanding. */
  ghost predicate Settled(s: Snapshot, base: Tree, bits: nat, slots: nat) {
    var live := set id | id in s.outstanding;
    s.free == FreeGiven(base, live, 0, bits) && s.slots + 2 * SplitsGiven(base, live, 0, bits) == slots
  }

  ghost predicate IsHistory(history: seq<Snapshot>, ops: seq<Op>, base: Tree, bits: nat, slots: nat) {
    && |history| == |ops| + 1
    && (forall i :: 0 <= i <= |ops| ==> Settled(history[i], base, bits, slots))
    && forall i :: 0 <= i < |ops| ==> Follows(ops[i], bits, history[i], history[i + 1])
  }

  lemma HistoryIs(history: seq<Snapshot>, ops: seq<Op>, base: Tree, bits: nat, slots: nat)
    requires |history| == |ops| + 1
    requires forall i :: 0 <= i <= |ops| ==> Settled(history[i], base, bits, slots)
    requires forall i :: 0 <= i < |ops| ==> Follows(ops[i], bits, history[i], history[i + 1])
    ensures IsHistory(history, ops, base, bits, slots)
  {}

  /** `ids` lists a set without repetition. */
  ghost predicate Lists(ids: seq<UntypedId>, s: set<UntypedId>) {
    NoDup(ids) && forall id :: id in s <==> id in ids
  }

  lemma ListsWithout(ids: seq<UntypedId>, s: set<UntypedId>, k: nat)
    requires Lists(ids, s) && k < |ids|
    ensures Lists(Without(ids, k), s - {ids[k]})
  {
    WithoutMembers(ids, k);
  }

  class Allocator {
    const rootBits: nat
    const region: CRegion
    const leaves: LeafNodes
    var tree: Node

    ghost predicate Valid()
      reads this, region, leaves
    {
      && region.Valid() && leaves.Valid() && leaves.top == rootBits
      && tree.ty.Inaccessible?
      && Consistent(Some(tree), rootBits, leaves.listed, region.used)
    }

    /** The regions handed out and not yet freed. */
    ghost function Live(): set<UntypedId>
      reads this
    {
      Ids(Some(tree), 0, rootBits, true)
    }

    ghost function FreeCounts(): Counts
      reads this, leaves
    {
      CountsOf(leaves.buckets, rootBits)
    }

    /** Build from a list of built-in regions, each with its capability; the slots come with `region`. */
    constructor (rootBits: nat, region: CRegion, untyped: seq<(UntypedId, nat)>)
      requires region.Valid()
      requires forall i :: 0 <= i < |untyped| ==>
        Aligned(untyped[i].0) && InRegion(untyped[i].0, 0, rootBits) && untyped[i].0.bits < rootBits
      requires forall i, j :: 0 <= i < j < |untyped| ==> DisjointIds(untyped[i].0, untyped[j].0)
      ensures Valid() && fresh(leaves) && this.rootBits == rootBits && this.region == region
      ensures Some(tree) == Reset(Some(tree)) && Live() == {}
      ensures forall id :: id in leaves.listed <==> exists i :: 0 <= i < |untyped| && untyped[i].0 == id
    {
      this.rootBits := rootBits;
      this.region := region;
      leaves := new LeafNodes(rootBits);
      tree := Node(Inaccessible, None, None);
      new;
      assert Ids(Some(tree), 0, rootBits, false) == {} by { LeafIds(tree, 0, rootBits, false); }
      for i := 0 to |untyped|
        invariant leaves.Valid() && leaves.top == rootBits && fresh(leaves)
        invariant tree.ty.Inaccessible? && WellFormed(Some(tree), rootBits) && Some(tree) == Reset(Some(tree))
        invariant Coherent(Some(tree), rootBits, leaves.listed)
        invariant forall id :: id in leaves.listed <==> exists k :: 0 <= k < i && untyped[k].0 == id
      {
        var id := untyped[i].0;
        forall f | f in Ids(Some(tree), 0, rootBits, false) ensures DisjointIds(f, id) {
          assert f in leaves.listed;
        }
        PlantAddsRegion(Some(tree), 0, rootBits, 0, id, untyped[i].1);
        tree := Plant(Some(tree), 0, rootBits, id, untyped[i].1);
        leaves.AddLeaf(id);
      }
      PristineIsEmpty(Some(tree), 0, rootBits);
    }

    /** The walk down the tree by address halves. */
    method GetNode(id: UntypedId) returns (node: Node)
      requires NodeAt(Some(tree), 0, rootBits, id).Some?
      ensures Some(node) == NodeAt(Some(tree), 0, rootBits, id)
    {
      var depth: nat, low: nat, high: int := rootBits, 0, Power(2, rootBits) - 1;
      node := tree;
      WalkInRegion(Some(tree), 0, rootBits, id);
      while depth > id.bits
        invariant id.bits <= depth && high == low + Power(2, depth) - 1
        invariant NodeAt(Some(node), low, depth, id) == NodeAt(Some(tree), 0, rootBits, id)
      {
        var half := low + (high - low) / 2 + 1;
        assert half == Half(low, depth);
        if id.paddr < half {
          high := half - 1;
          node := node.left.value;
        } else {
          low := half;
          node := node.right.value;
        }
        depth := depth - 1;
      }
    }

    method SplitUntyped(cur: UntypedId) returns (ghost leftSlot: nat, ghost rightSlot: nat)
      requires region.Valid() && leaves.Valid() && leaves.top == rootBits
      requires NodeAt(Some(tree), 0, rootBits, cur).Some? && NodeAt(Some(tree), 0, rootBits, cur).value.IsDeletable()
      requires 0 < cur.bits <= rootBits && 2 <= |region.free|
      requires LeftHalf(cur) !in leaves.listed && RightHalf(cur) !in leaves.listed
      modifies this`tree, region, leaves
      ensures region.Valid() && leaves.Valid()
      ensures tree == SplitTree(old(tree), rootBits, cur, leftSlot, rightSlot)
      ensures leftSlot != rightSlot && leftSlot in old(region.free) && rightSlot in old(region.free)
      ensures region.free == old(region.free) - {leftSlot} - {rightSlot}
      ensures region.used == old(region.used) + {leftSlot} + {rightSlot}
      ensures leftSlot !in old(region.used) && rightSlot !in old(region.used)
      ensures leaves.listed == old(leaves.listed) + {LeftHalf(cur)} + {RightHalf(cur)}
      ensures forall k: nat ::
        |Bucket(leaves.buckets, k)| == |Bucket(old(leaves.buckets), k)| + if k == cur.bits - 1 then 2 else 0
    {
      var left := region.Alloc();
      assert |region.free| == |old(region.free)| - 1;
      var right := region.Alloc();
      leftSlot, rightSlot := left.value, right.value;
      var node := GetNode(cur);
      assert !node.IsConsumed();
      node := node.(left := Some(ManagedLeaf(false, left.value)), right := Some(ManagedLeaf(false, right.value)));
      tree := Replace(Some(tree), 0, rootBits, cur, node).value;
      leaves.AddLeaf(UntypedId(cur.paddr, cur.bits - 1));
      leaves.AddLeaf(UntypedId(cur.paddr + Power(2, cur.bits - 1), cur.bits - 1));
    }

    /**
     Create an object of 2^size bytes: take the best-fitting free region and split it down, always
     going on with the right half.
     */
    method CreateObject(size: nat) returns (id: UntypedId)
      requires Valid()
      requires Smallest(FreeCounts(), size).Some?
      requires 2 * (Smallest(FreeCounts(), size).value - size) <= |region.free|
      modifies this`tree, region, leaves
      ensures Valid()
      ensures id.bits == size && id !in old(Live()) && Live() == old(Live()) + {id}
      ensures Reset(Some(tree)) == Reset(Some(old(tree)))
      ensures EndOfBestFit(old(leaves.listed), old(FreeCounts()), size, id)
      ensures Some(FreeCounts()) == Take(old(FreeCounts()), size)
      ensures |region.free| == |old(region.free)| - 2 * (Smallest(old(FreeCounts()), size).value - size)
      ensures old(region.used) <= region.used && SameSpare(Some(old(tree)), Some(tree), old(region.used), region.used)
    {
      hide Ids, Reset, WellFormed, NodeAt, SlotUses, Replace;
      ghost var live, before := Live(), leaves.buckets;
      id := leaves.GetLeaf(size);
      ghost var t, block := id.bits, id;
      ghost var held := HoldLeaf(tree, rootBits, id, old(leaves.listed), leaves.listed, region.used);
      while size < id.bits
        invariant size <= id.bits <= t <= rootBits && EndsBlock(id, block)
        invariant region.Valid() && leaves.Valid()
        invariant Holding(tree, rootBits, id, held)
        invariant Consistent(held, rootBits, leaves.listed, region.used)
        invariant Reset(held) == Reset(Some(old(tree)))
        invariant id !in live && Ids(held, 0, rootBits, true) == live + {id}
        invariant Descended(before, leaves.buckets, id.bits, t)
        invariant |region.free| == |old(region.free)| - 2 * (t - id.bits)
        invariant old(region.used) <= region.used && SameSpare(Some(old(tree)), held, old(region.used), region.used)
      {
        hide Descended, Consistent, Holding, SameSpare;
        ghost var was, before', used := leaves.buckets, held, region.used;
        id, held := HalveHeld(id, held);
        SpareTrans(Some(old(tree)), before', held, old(region.used), used, region.used);
        DescendedNext(before, was, leaves.buckets, id.bits, t);
      }
      DescendedCounts(before, leaves.buckets, rootBits, size, t);
      var node := GetNode(id);
      SameRoot(held, old(tree));
      tree := Replace(Some(tree), 0, rootBits, id, node.WithConsumed(true)).value;
    }

    /** One round of the splitting loop. */
    method HalveHeld(cur: UntypedId, ghost held: Tree) returns (next: UntypedId, ghost held': Tree)
      requires region.Valid() && leaves.Valid() && leaves.top == rootBits
      requires Holding(tree, rootBits, cur, held)
      requires Consistent(held, rootBits, leaves.listed, region.used)
      requires 0 < cur.bits <= rootBits && 2 <= |region.free|
      modifies this`tree, region, leaves
      ensures region.Valid() && leaves.Valid() && next == RightHalf(cur)
      ensures Holding(tree, rootBits, next, held')
      ensures Consistent(held', rootBits, leaves.listed, region.used)
      ensures Reset(held') == Reset(held)
      ensures next !in Ids(held, 0, rootBits, true)
      ensures Ids(held', 0, rootBits, true) == Ids(held, 0, rootBits, true) - {cur} + {next}
      ensures forall k: nat ::
        |Bucket(leaves.buckets, k)| == |Bucket(old(leaves.buckets), k)| + if k == next.bits then 1 else 0
      ensures |region.free| == |old(region.free)| - 2
      ensures old(region.used) <= region.used && SameSpare(held, held', old(region.used), region.used)
    {
      hide Ids, Reset, WellFormed, NodeAt, Replace, SlotUses, SameSpare;
      HalvesOffList(tree, rootBits, cur, held);
      ghost var tree0 := tree;
      ghost var leftSlot, rightSlot := SplitUntyped(cur);
      held' := HoldRightHalf(tree0, rootBits, cur, held, leftSlot, rightSlot);
      next := RightHalf(cur);
      HalvedConsistent(held, held', rootBits, LeftHalf(cur), next, leftSlot, rightSlot,
                       old(leaves.listed), old(region.used));
      leaves.RemoveLeaf(next);
    }

    /** Is the requested space, `counts[i]` objects of 2^i bytes each, no more than the free space? */
    method PeekSpace(counts: seq<nat>) returns (enough: bool)
      requires Valid()
      ensures enough <==> Units(counts, 0) <= Units(FreeCounts(), 0)
    {
      var required := 0;
      for size := 0 to |counts|
        invariant required == BytesBelow(counts, size)
      {
        required := required + Power(2, size) * counts[size];
      }
      AllBytes(counts, |counts|);
      var consumable := leaves.ConsumableSpace();
      enough := consumable >= required;
    }

    /**
     create_cnode: a slot for the realm's CNode, which is never given back, another one for the
     time it takes to create it, and the region of the new CNode's own slots.
     */
    method CreateCNode(radix: nat, size: nat) returns (realm: CRegion, id: UntypedId, slot: nat)
      requires Valid() && Smallest(FreeCounts(), size).Some?
      requires 2 + 2 * (Smallest(FreeCounts(), size).value - size) <= |region.free|
      modifies this`tree, region, leaves
      ensures Valid() && fresh(realm) && realm.Valid()
      ensures realm.used == {} && realm.size == |realm.free| == Power(2, radix)
      ensures id.bits == size && id !in old(Live()) && Live() == old(Live()) + {id}
      ensures Reset(Some(tree)) == Reset(Some(old(tree)))
      ensures Some(FreeCounts()) == Take(old(FreeCounts()), size)
      ensures |region.free| == |old(region.free)| - 1 - 2 * (Smallest(old(FreeCounts()), size).value - size)
      ensures slot in old(region.free) && slot !in old(region.used) && old(region.used) + {slot} <= region.used
      ensures SameSpare(Some(old(tree)), Some(tree), old(region.used) + {slot}, region.used)
    {
      hide Ids, Reset, WellFormed, SlotUses, SameSpare, SlotsHeld;
      var first := region.Alloc();
      slot := first.value;
      assert |region.free| == |old(region.free)| - 1;
      realm := new CRegion(radix);
      var second := region.Alloc();
      var temp := second.value;
      assert |region.free| == |old(region.free)| - 2;
      MoreSlots(Some(tree), old(region.used), region.used);
      id := CreateObject(size);
      TemporarySlot(Some(old(tree)), Some(tree), old(region.used), region.used, slot, temp);
      region.FreeOrUsed(temp);
      region.FreeSlot(temp);
    }

    /** One object and its slot in the realm's region. */
    method CreateInRealm(realm: CRegion, size: nat) returns (slot: nat, id: UntypedId)
      requires Valid() && realm.Valid() && realm != region && 0 < |realm.free|
      requires Smallest(FreeCounts(), size).Some?
      requires 2 * (Smallest(FreeCounts(), size).value - size) <= |region.free|
      modifies this`tree, region, leaves, realm
      ensures Valid() && realm.Valid()
      ensures slot in old(realm.free) && realm.free == old(realm.free) - {slot}
      ensures id.bits == size && id !in old(Live()) && Live() == old(Live()) + {id}
      ensures Reset(Some(tree)) == Reset(Some(old(tree)))
      ensures FreeCounts() == Served(old(FreeCounts()), size, Smallest(old(FreeCounts()), size).value)
      ensures |region.free| == |old(region.free)| - 2 * (Smallest(old(FreeCounts()), size).value - size)
      ensures old(region.used) <= region.used && SameSpare(Some(old(tree)), Some(tree), old(region.used), region.used)
    {
      hide SameSpare;
      var s := realm.Alloc();
      slot := s.value;
      id := CreateObject(size);
    }

    /**
     Create objects one after the other, each with a slot of the realm's own region, up to the first
     that lacks memory or slots to split it down with.
     */
    method CreateObjects(realm: CRegion, sizes: seq<nat>)
      returns (short: Shortage, slots: seq<nat>, ids: seq<UntypedId>)
      requires Valid() && realm.Valid() && realm != region
      requires |sizes| <= |realm.free|
      modifies this`tree, region, leaves, realm
      ensures Valid() && realm.Valid()
      ensures short == Short(old(FreeCounts()), sizes, |old(region.free)|)
      ensures |slots| == |ids| && (short.NoShortage? ==> |ids| == |sizes|)
      ensures Created(ids, sizes, old(Live()), Live())
      ensures Taken(slots, old(realm.free), realm.free)
      ensures Reset(Some(tree)) == Reset(Some(old(tree)))
      ensures short.NoShortage? ==> Some(FreeCounts()) == Run(old(FreeCounts()), sizes)
      ensures short.NoShortage? ==> SlotsNeeded(old(FreeCounts()), sizes) + |region.free| == |old(region.free)|
      ensures old(region.used) <= region.used && SameSpare(Some(old(tree)), Some(tree), old(region.used), region.used)
    {
      hide *;
      slots, ids := [], [];
      TakenNone(realm.free);
      CreatedNone(sizes, Live());
      ghost var start, all := FreeCounts(), |region.free|;
      RunBegins(start, sizes, all);
      SpareSame(Some(tree), region.used);
      for i := 0 to |sizes|
        invariant Valid() && realm.Valid()
        invariant |slots| == |ids| == i
        invariant Created(ids, sizes, old(Live()), Live())
        invariant Taken(slots, old(realm.free), realm.free)
        invariant Reset(Some(tree)) == Reset(Some(old(tree)))
        invariant Underway(start, sizes, all, i, FreeCounts(), |region.free|)
        invariant old(region.used) <= region.used &&
          SameSpare(Some(old(tree)), Some(tree), old(region.used), region.used)
      {
        ghost var tree', used := tree, region.used;
        RunStep(start, sizes, all, i, FreeCounts(), |region.free|);
        short := Lacks(sizes[i], 0);
        if !short.NoShortage? { return; }
        TakenSizes(slots, old(realm.free), realm.free);
        slots, ids := CreateNext(realm, sizes, slots, ids, old(realm.free), old(Live()));
        SpareTrans(Some(old(tree)), Some(tree'), Some(tree), old(region.used), used, region.used);
      }
      RunEnds(start, sizes, all, FreeCounts(), |region.free|);
      short := NoShortage;
    }

    /** Where create_object would panic, with some slots set aside: at get_leaf, or at a slot for a half. */
    method Lacks(size: nat, aside: nat) returns (short: Shortage)
      requires Valid() && aside <= |region.free|
      ensures short == Missing(FreeCounts(), |region.free| - aside, size)
    {
      var t := Smallest(CountsOf(leaves.buckets, rootBits), size);
      var unused := region.CountUnused();
      if t.None? { return OutOfMemory; }
      if unused - aside < 2 * (t.value - size) { return OutOfSlots; }
      return NoShortage;
    }

    /** One round of the loop above. */
    method CreateNext(realm: CRegion, sizes: seq<nat>, slots: seq<nat>, ids: seq<UntypedId>,
                      ghost open: set<nat>, ghost live: set<UntypedId>)
      returns (slots': seq<nat>, ids': seq<UntypedId>)
      requires Valid() && realm.Valid() && realm != region
      requires |slots| == |ids| < |sizes| && 0 < |realm.free|
      requires Created(ids, sizes, live, Live()) && Taken(slots, open, realm.free)
      requires CanServe(FreeCounts(), |region.free|, sizes[|ids|])
      modifies this`tree, region, leaves, realm
      ensures Valid() && realm.Valid()
      ensures |slots'| == |ids'| == |ids| + 1
      ensures Created(ids', sizes, live, Live()) && Taken(slots', open, realm.free)
      ensures FreeCounts() == Served(old(FreeCounts()), sizes[|ids|], Smallest(old(FreeCounts()), sizes[|ids|]).value)
      ensures Reset(Some(tree)) == Reset(Some(old(tree)))
      ensures |region.free| ==
        |old(region.free)| - 2 * (Smallest(old(FreeCounts()), sizes[|ids|]).value - sizes[|ids|])
      ensures old(region.used) <= region.used && SameSpare(Some(old(tree)), Some(tree), old(region.used), region.used)
    {
      var size := sizes[|ids|];
      assert Smallest(FreeCounts(), size).Some? && 2 * (Smallest(FreeCounts(), size).value - size) <= |region.free|;
      hide *;
      var slot, id := CreateInRealm(realm, size);
      TakenNext(slots, open, old(realm.free), slot);
      CreatedNext(ids, sizes, live, old(Live()), id);
      slots', ids' := slots + [slot], ids + [id];
    }

    method RevokeAndFree(id: UntypedId)
      requires Valid() && id in Live()
      modifies this`tree, region, leaves
      ensures Valid()
      ensures Live() == old(Live()) - {id}
      ensures Reset(Some(tree)) == Reset(Some(old(tree)))
      ensures old(region.free) <= region.free
      ensures SlotsReleased(Some(old(tree)), Some(tree), old(region.used), region.used)
      ensures SameSpare(Some(old(tree)), Some(tree), old(region.used), region.used)
    {
      IdsInRegion(Some(tree), 0, rootBits, false);
      IdsInRegion(Some(tree), 0, rootBits, true);
      forall k: nat ensures k in region.free <==> k < region.size && k !in region.used {
        region.FreeOrUsed(k);
      }
      tree := RevokeAndFreeHelper(tree, 0, Power(2, rootBits) - 1, 0, id);
      ReleasedKeepsSpare(Some(old(tree)), Some(tree), old(region.used), region.used);
      IdsInRegion(Some(tree), 0, rootBits, false);
      forall k: nat ensures k in region.free <==> k < region.size && k !in region.used {
        region.FreeOrUsed(k);
      }
    }

    /** With nothing outstanding, tree and free list are those of the built-ins alone. */
    lemma NothingOutstanding()
      requires Valid() && Live() == {}
      ensures Some(tree) == Reset(Some(tree))
      ensures leaves.listed == Ids(Reset(Some(tree)), 0, rootBits, false)
    {
      NothingLive(Some(tree), 0, rootBits);
    }

    /** The free list is told by the built-ins and the live regions alone, in whatever way they came about. */
    lemma FreeListDetermined()
      requires Valid()
      ensures leaves.listed == FreeGiven(Reset(Some(tree)), Live(), 0, rootBits)
      ensures FreeCounts() == CountsIn(leaves.listed, rootBits)
    {
      FreeIsDetermined(Some(tree), 0, rootBits, Live());
      leaves.CountsListed();
    }

    /** No free region is as large as the root. */
    lemma NothingAtRoot()
      requires Valid()
      ensures FreeCounts()[rootBits] == 0
    {
      leaves.CountsListed();
      NoneAtRoot(tree, rootBits);
      var largest := set id | id in leaves.listed && id.bits == rootBits;
      assert largest == {};
      assert FreeCounts()[rootBits] == |largest|;
    }

    lemma Sound()
      requires Valid()
      ensures tree.ty.Inaccessible? && WellFormed(Some(tree), rootBits) && SlotsHeld(Some(tree), region.used)
      ensures |region.free| + |region.used| == region.size && Live() == Ids(Some(tree), 0, rootBits, true)
    {
      region.FreeAndUsed();
    }

    /** With the same live regions as in `was`, the tree has as many slots. */
    lemma SlotsBack(was: Node, used: set<nat>)
      requires Valid() && WellFormed(Some(was), rootBits) && was.ty.Inaccessible? && SlotsHeld(Some(was), used)
      requires Reset(Some(was)) == Reset(Some(tree)) && Ids(Some(was), 0, rootBits, true) == Live()
      requires SameSpare(Some(was), Some(tree), used, region.used)
      ensures |region.used| == |used| && |region.free| == region.size - |used|
    {
      hide SameSpare, SlotsHeld, ManagedNodes, Reset;
      FreeIsDetermined(Some(was), 0, rootBits, Live());
      FreeIsDetermined(Some(tree), 0, rootBits, Live());
      SpareSizes(Some(was), Some(tree), used, region.used);
      region.FreeAndUsed();
    }

    /** The free and the live regions tile the built-ins. */
    lemma RegionsTile(addr: nat, a: UntypedId, b: UntypedId)
      requires Valid()
      ensures Covered(leaves.listed + Live(), addr) <==> Covered(Ids(Reset(Some(tree)), 0, rootBits, false), addr)
      ensures a in leaves.listed + Live() && b in leaves.listed + Live() && a != b ==> DisjointIds(a, b)
      ensures a in leaves.listed + Live() ==> Aligned(a) && InRegion(a, 0, rootBits)
    {
      var t := Some(tree);
      assert Regions(t, 0, rootBits) == leaves.listed + Live();
      RegionsCoverBuiltIns(t, 0, rootBits, addr);
      RegionsInRegion(t, 0, rootBits);
      RegionsAligned(t, 0, rootBits, 0, false);
      RegionsAligned(t, 0, rootBits, 0, true);
      if a in leaves.listed + Live() && b in leaves.listed + Live() && a != b {
        RegionsDisjoint(t, 0, rootBits, a, b);
      }
    }

    /** Give back regions in any order; once none is outstanding the allocator is as it was built. */
    method FreeAll(ids: seq<UntypedId>)
      requires Valid()
      requires forall i :: 0 <= i < |ids| ==> ids[i] in Live()
      requires NoDup(ids)
      modifies this`tree, region, leaves
      ensures Valid()
      ensures Live() == old(Live()) - (set id | id in ids)
      ensures Reset(Some(tree)) == Reset(Some(old(tree)))
      ensures old(Live()) == (set id | id in ids) ==> Some(tree) == Reset(Some(old(tree)))
      ensures old(Live()) == (set id | id in ids) ==> leaves.listed == Ids(Reset(Some(old(tree))), 0, rootBits, false)
      ensures SameSpare(Some(old(tree)), Some(tree), old(region.used), region.used)
    {
      for i := 0 to |ids|
        invariant Valid()
        invariant Live() == old(Live()) - (set id | id in ids[..i])
        invariant Reset(Some(tree)) == Reset(Some(old(tree)))
        invariant SameSpare(Some(old(tree)), Some(tree), old(region.used), region.used)
      {
        hide SameSpare;
        assert ids[..i + 1] == ids[..i] + [ids[i]];
        ghost var tree', used := tree, region.used;
        RevokeAndFree(ids[i]);
        SpareTrans(Some(old(tree)), Some(tree'), Some(tree), old(region.used), used, region.used);
      }
      assert ids[..|ids|] == ids;
      if Live() == {} {
        NothingOutstanding();
      }
    }

    method RevokeAndFreeHelper(node: Node, low: nat, high: int, depth: nat, id: UntypedId) returns (r: Node)
      requires region.Valid() && leaves.Valid() && leaves.top == rootBits
      requires depth <= rootBits && high == low + Power(2, rootBits - depth) - 1
      requires WellFormed(Some(node), rootBits - depth)
      requires id in Ids(Some(node), low, rootBits - depth, true)
      requires CoherentWithin(Some(node), low, rootBits - depth, leaves.listed)
      requires SlotsHeld(Some(node), region.used)
      modifies region, leaves
      ensures region.Valid() && leaves.Valid()
      ensures FreedIn(Some(node), Some(r), low, rootBits - depth, id)
      ensures CoherentWithin(Some(r), low, rootBits - depth, leaves.listed)
      ensures SameOutside(low, rootBits - depth, old(leaves.listed), leaves.listed)
      ensures SlotsReleased(Some(node), Some(r), old(region.used), region.used)
      decreases rootBits - depth, 1
    {
      if rootBits - depth == id.bits {
        r := FreeHere(node, low, depth, id);
        return;
      }
      var half := low + (high - low) / 2 + 1;
      r := FreeBelow(node, low, high, half, depth, id);
      if MustJoin(r) {
        ghost var mid, between := r, region.used;
        r := Join(r, low, depth);
        Joined(node, mid, low, rootBits - depth, id);
        ReleasedTwice(Some(node), Some(mid), Some(r), old(region.used), between, region.used);
      }
    }

    /** Recurse into the half that holds the region to free. */
    method FreeBelow(node: Node, low: nat, high: int, half: nat, depth: nat, id: UntypedId) returns (r: Node)
      requires region.Valid() && leaves.Valid() && leaves.top == rootBits
      requires depth <= rootBits && high == low + Power(2, rootBits - depth) - 1
      requires WellFormed(Some(node), rootBits - depth)
      requires id in Ids(Some(node), low, rootBits - depth, true) && id.bits != rootBits - depth
      requires half == low + (high - low) / 2 + 1
      requires CoherentWithin(Some(node), low, rootBits - depth, leaves.listed)
      requires SlotsHeld(Some(node), region.used)
      modifies region, leaves
      ensures region.Valid() && leaves.Valid()
      ensures FreedBelow(node, r, low, rootBits - depth, id)
      ensures CoherentWithin(Some(r), low, rootBits - depth, leaves.listed)
      ensures SameOutside(low, rootBits - depth, old(leaves.listed), leaves.listed)
      ensures SlotsReleased(Some(node), Some(r), old(region.used), region.used)
      decreases rootBits - depth, 0
    {
      ghost var bits := rootBits - depth;
      LiveBelow(node, low, bits, id);
      assert half == Half(low, bits);
      ghost var left := id.paddr < half;
      DescendState(node, low, bits, left, leaves.listed, region.used);
      var c;
      if id.paddr < half {
        c := RevokeAndFreeHelper(node.left.value, low, half - 1, depth + 1, id);
        r := node.(left := Some(c));
      } else {
        c := RevokeAndFreeHelper(node.right.value, half, high, depth + 1, id);
        r := node.(right := Some(c));
      }
      AscendCoherent(node, low, bits, left, c, old(leaves.listed), leaves.listed);
      AscendFreed(node, low, bits, left, c, id);
      AscendSlots(node, left, c, old(region.used), region.used);
    }

    /** The node itself is the region to free. */
    method FreeHere(node: Node, low: nat, depth: nat, id: UntypedId) returns (r: Node)
      requires leaves.Valid() && leaves.top == rootBits && depth <= rootBits
      requires id.bits == rootBits - depth && WellFormed(Some(node), id.bits)
      requires id in Ids(Some(node), low, id.bits, true)
      requires CoherentWithin(Some(node), low, id.bits, leaves.listed)
      modifies leaves
      ensures leaves.Valid()
      ensures FreedIn(Some(node), Some(r), low, id.bits, id)
      ensures CoherentWithin(Some(r), low, id.bits, leaves.listed)
      ensures SameOutside(low, id.bits, old(leaves.listed), leaves.listed)
      ensures forall s: nat :: SlotUses(Some(r), s) == SlotUses(Some(node), s)
    {
      NamedAtRoot(node, low, id.bits, id);
      assert node.IsAccessible() && node.IsConsumed() && node.IsChildless() && low == id.paddr;
      r := node.WithConsumed(false);
      LeafIds(node, low, id.bits, true);
      LeafIds(node, low, id.bits, false);
      LeafIds(r, low, id.bits, true);
      LeafIds(r, low, id.bits, false);
      leaves.AddLeaf(id);
    }

    /** Delete two free children and put their parent on the free list. */
    method Join(m: Node, low: nat, depth: nat) returns (r: Node)
      requires region.Valid() && leaves.Valid() && leaves.top == rootBits && depth < rootBits
      requires MustJoin(m) && m.left.value.IsManaged() && m.right.value.IsManaged() && !m.IsConsumed()
      requires CoherentWithin(Some(m), low, rootBits - depth, leaves.listed)
      requires SlotsHeld(Some(m), region.used)
      modifies region, leaves
      ensures region.Valid() && leaves.Valid() && r == Node(m.ty, None, None)
      ensures CoherentWithin(Some(r), low, rootBits - depth, leaves.listed)
      ensures SameOutside(low, rootBits - depth, old(leaves.listed), leaves.listed)
      ensures SlotsReleased(Some(m), Some(r), old(region.used), region.used)
    {
      ghost var before := leaves.listed;
      var bits := rootBits - depth;
      var id := UntypedId(low, bits);
      JoinReady(m, low, bits, before);
      JoinSlots(m, region.used);
      r := m;
      region.FreeSlot(m.left.value.ty.access.slot);
      leaves.RemoveLeaf(LeftHalf(id));
      r := r.(left := None);
      region.FreeSlot(m.right.value.ty.access.slot);
      leaves.RemoveLeaf(RightHalf(id));
      r := r.(right := None);
      leaves.AddLeaf(id);
      JoinCoherent(m, low, bits, before, leaves.listed);
    }

    /** The free blocks, the unused slots and the regions handed out, oldest first. */
    ghost function Now(outstanding: seq<UntypedId>): Snapshot
      reads this, leaves, region
    {
      Snapshot(leaves.listed, |region.free|, outstanding)
    }

    /** What is outstanding tells the rest, from the built-ins and slots of a tree with nothing live. */
    lemma NowSettled(outstanding: seq<UntypedId>, start: Tree, used: set<nat>, slots: nat)
      requires Valid() && Lists(outstanding, Live())
      requires Reset(Some(tree)) == start && ManagedNodes(start) == 0 && SlotsHeld(start, used)
      requires SameSpare(start, Some(tree), used, region.used) && slots + |used| == region.size
      ensures Settled(Now(outstanding), start, rootBits, slots)
    {
      hide SameSpare, SlotsHeld, ManagedNodes, Reset;
      assert Live() == set id | id in outstanding;
      FreeIsDetermined(Some(tree), 0, rootBits, Live());
      SpareSizes(start, Some(tree), used, region.used);
      region.FreeAndUsed();
    }

    /**
     Any sequence of creates and frees on a freshly built allocator.  Whenever nothing is left
     outstanding, tree, free list and slots are those it was built with.
     */
    method Session(ops: seq<Op>) returns (outstanding: seq<UntypedId>, ghost history: seq<Snapshot>)
      requires Valid() && Live() == {}
      modifies this`tree, region, leaves
      ensures Valid() && Lists(outstanding, Live())
      ensures IsHistory(history, ops, Some(old(tree)), rootBits, |old(region.free)|)
      ensures history[0] == old(Now([])) && history[|ops|] == Now(outstanding)
      ensures Reset(Some(tree)) == Some(old(tree))
      ensures SameSpare(Some(old(tree)), Some(tree), old(region.used), region.used)
      ensures outstanding == [] ==> tree == old(tree) && leaves.listed == old(leaves.listed)
      ensures outstanding == [] ==> region.used == old(region.used) && region.free == old(region.free)
    {
      hide *;
      ghost var slots: nat := |region.free|;
      FreshStart();
      outstanding := [];
      history := [Now([])];
      SpareSame(Some(tree), region.used);
      NowSettled([], Some(tree), region.used, slots);
      for i := 0 to |ops|
        invariant Valid() && Lists(outstanding, Live())
        invariant |history| == i + 1 && history[0] == old(Now([])) && history[i] == Now(outstanding)
        invariant forall j :: 0 <= j <= i ==> Settled(history[j], Some(old(tree)), rootBits, slots)
        invariant forall j :: 0 <= j < i ==> Follows(ops[j], rootBits, history[j], history[j + 1])
        invariant Reset(Some(tree)) == Some(old(tree))
        invariant SameSpare(Some(old(tree)), Some(tree), old(region.used), region.used)
      {
        ghost var tree', used := tree, region.used;
        outstanding := Serve(ops[i], outstanding);
        SpareTrans(Some(old(tree)), Some(tree'), Some(tree), old(region.used), used, region.used);
        NowSettled(outstanding, Some(old(tree)), old(region.used), slots);
        history := history + [Now(outstanding)];
      }
      HistoryIs(history, ops, Some(old(tree)), rootBits, slots);
      if outstanding == [] {
        AsBuilt(old(tree), old(region.used));
      }
    }

    lemma FreshStart()
      requires Valid() && Live() == {}
      ensures Lists([], Live()) && Reset(Some(tree)) == Some(tree) && ManagedNodes(Some(tree)) == 0
      ensures SlotsHeld(Some(tree), region.used) && |region.free| + |region.used| == region.size
      ensures leaves.listed == Ids(Some(tree), 0, rootBits, false)
      ensures region.free == Range(0, region.size) - region.used
    {
      hide SlotUses, WellFormed, ManagedNodes;
      NothingOutstanding();
      PristineHasNoSlots(Some(tree), rootBits);
      region.FreeAndUsed();
      forall k: nat ensures k in region.free <==> k < region.size && k !in region.used {
        region.FreeOrUsed(k);
      }
    }

    /** With nothing live and the slots besides the tree's the same, everything is. */
    lemma AsBuilt(start: Node, used: set<nat>)
      requires Valid() && Lists([], Live()) && Reset(Some(tree)) == Some(start)
      requires SameSpare(Some(start), Some(tree), used, region.used)
      ensures tree == start && leaves.listed == Ids(Some(start), 0, rootBits, false)
      ensures region.used == used && region.free == Range(0, region.size) - used
    {
      assert Live() == {};
      FreshStart();
      SameTreeSameSlots(Some(tree), used, region.used);
    }

    /** One request of a client that has the regions `outstanding`, oldest first. */
    method Serve(op: Op, outstanding: seq<UntypedId>) returns (r: seq<UntypedId>)
      requires Valid() && Lists(outstanding, Live())
      modifies this`tree, region, leaves
      ensures Valid() && Lists(r, Live())
      ensures Follows(op, rootBits, old(Now(outstanding)), Now(r))
      ensures Reset(Some(tree)) == Reset(Some(old(tree)))
      ensures SameSpare(Some(old(tree)), Some(tree), old(region.used), region.used)
    {
      match op {
        case Create(size) => r := ServeCreate(size, outstanding);
        case Free(k) => r := ServeFree(k, outstanding);
      }
    }

    method ServeCreate(size: nat, outstanding: seq<UntypedId>) returns (r: seq<UntypedId>)
      requires Valid() && Lists(outstanding, Live())
      modifies this`tree, region, leaves
      ensures Valid() && Lists(r, Live())
      ensures Follows(Create(size), rootBits, old(Now(outstanding)), Now(r))
      ensures Reset(Some(tree)) == Reset(Some(old(tree)))
      ensures SameSpare(Some(old(tree)), Some(tree), old(region.used), region.used)
    {
      hide SameSpare, Consistent, Reset, EndOfBestFit, Smallest, Take;
      r := outstanding;
      SpareSame(Some(tree), region.used);
      leaves.CountsListed();
      var short := Lacks(size, 0);
      if short.NoShortage? {
        var id := CreateObject(size);
        leaves.CountsListed();
        r := r + [id];
      }
    }

    method ServeFree(k: nat, outstanding: seq<UntypedId>) returns (r: seq<UntypedId>)
      requires Valid() && Lists(outstanding, Live())
      modifies this`tree, region, leaves
      ensures Valid() && Lists(r, Live())
      ensures Follows(Free(k), rootBits, old(Now(outstanding)), Now(r))
      ensures Reset(Some(tree)) == Reset(Some(old(tree)))
      ensures SameSpare(Some(old(tree)), Some(tree), old(region.used), region.used)
    {
      r := outstanding;
      if k < |r| {
        ListsWithout(r, Live(), k);
        RevokeAndFree(r[k]);
        r := Without(r, k);
      }
    }
  }
}
