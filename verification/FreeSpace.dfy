/**
 What is free, said without the tree: in every built-in, the largest aligned blocks that hold
 nothing live.  Tree and free list have no history beyond the built-ins and the live regions.
 */
module FreeSpace {
  import opened Basics
  import opened BestFit
  import opened DerivationTree

  /** Some region of `live` lies in the block of 2^bits bytes from `low`. */
  ghost predicate AnyIn(live: set<UntypedId>, low: nat, bits: nat) {
    exists id :: id in live && InRegion(id, low, bits)
  }

  /** A block must be split for the live regions inside it. */
  ghost predicate MustSplit(live: set<UntypedId>, low: nat, bits: nat) {
    0 < bits && UntypedId(low, bits) !in live && AnyIn(live, low, bits)
  }

  /** The largest blocks without live regions that halving a block leads to. */
  ghost function FreeIn(live: set<UntypedId>, low: nat, bits: nat): set<UntypedId>
    decreases bits
  {
    if MustSplit(live, low, bits) then FreeIn(live, low, bits - 1) + FreeIn(live, Half(low, bits), bits - 1)
    else if AnyIn(live, low, bits) then {}
    else {UntypedId(low, bits)}
  }

  /** How many blocks have to be split for that. */
  ghost function SplitsIn(live: set<UntypedId>, low: nat, bits: nat): nat
    decreases bits
  {
    if MustSplit(live, low, bits) then 1 + SplitsIn(live, low, bits - 1) + SplitsIn(live, Half(low, bits), bits - 1)
    else 0
  }

  /** The free blocks of all the built-ins. */
  ghost function FreeGiven(base: Tree, live: set<UntypedId>, low: nat, bits: nat): set<UntypedId> {
    if base.None? then {}
    else if base.value.IsAccessible() then FreeIn(live, low, bits)
    else if bits == 0 then {}
    else FreeGiven(base.value.left, live, low, bits - 1) + FreeGiven(base.value.right, live, Half(low, bits), bits - 1)
  }

  ghost function SplitsGiven(base: Tree, live: set<UntypedId>, low: nat, bits: nat): nat {
    if base.None? then 0
    else if base.value.IsAccessible() then SplitsIn(live, low, bits)
    else if bits == 0 then 0
    else SplitsGiven(base.value.left, live, low, bits - 1) +
         SplitsGiven(base.value.right, live, Half(low, bits), bits - 1)
  }

  /** `live` is what the tree says inside its block. */
  ghost predicate LiveWithin(t: Tree, low: nat, bits: nat, live: set<UntypedId>) {
    forall id :: InRegion(id, low, bits) ==> (id in live <==> id in Ids(t, low, bits, true))
  }

  /** How many nodes have a slot of the allocator. */
  function ManagedNodes(t: Tree): nat {
    if t.None? then 0
    else (if t.value.IsManaged() then 1 else 0) + ManagedNodes(t.value.left) + ManagedNodes(t.value.right)
  }

  lemma LiveInChildren(n: Node, low: nat, bits: nat, live: set<UntypedId>)
    requires 0 < bits && LiveWithin(Some(n), low, bits, live)
    ensures LiveWithin(n.left, low, bits - 1, live)
    ensures LiveWithin(n.right, Half(low, bits), bits - 1, live)
  {
    var half := Half(low, bits);
    IdsInRegion(n.left, low, bits - 1, true);
    IdsInRegion(n.right, half, bits - 1, true);
    forall id | InRegion(id, low, bits - 1) ensures id in live <==> id in Ids(n.left, low, bits - 1, true) {
      assert InRegion(id, low, bits) && !InRegion(id, half, bits - 1);
    }
    forall id | InRegion(id, half, bits - 1) ensures id in live <==> id in Ids(n.right, half, bits - 1, true) {
      assert InRegion(id, low, bits) && !InRegion(id, low, bits - 1);
    }
  }

  /** A region that is not free has something live in it: a split is never left over. */
  lemma {:induction false} NotFreeIsLive(n: Node, low: nat, bits: nat) returns (id: UntypedId)
    requires WellFormed(Some(n), bits) && n.IsAccessible() && !n.IsDeletable()
    ensures id in Ids(Some(n), low, bits, true)
    decreases n
  {
    if n.IsConsumed() {
      id := UntypedId(low, bits);
    } else if DeletableChild(n.left) {
      id := NotFreeIsLive(n.right.value, Half(low, bits), bits - 1);
    } else {
      id := NotFreeIsLive(n.left.value, low, bits - 1);
    }
  }

  /** A node has children exactly when the live regions demand it. */
  lemma SplitExactly(n: Node, low: nat, bits: nat, live: set<UntypedId>)
    requires WellFormed(Some(n), bits) && n.IsAccessible() && LiveWithin(Some(n), low, bits, live)
    ensures MustSplit(live, low, bits) <==> !n.IsChildless()
    ensures n.IsChildless() ==> (AnyIn(live, low, bits) <==> n.IsConsumed())
  {
    var whole := UntypedId(low, bits);
    IdsInRegion(Some(n), low, bits, true);
    assert InRegion(whole, low, bits);
    if n.IsChildless() {
      LeafIds(n, low, bits, true);
    } else {
      var id := NotFreeIsLive(n, low, bits);
      assert id in live && InRegion(id, low, bits);
      IdsInRegion(n.left, low, bits - 1, true);
      IdsInRegion(n.right, Half(low, bits), bits - 1, true);
    }
  }

  lemma {:induction false} FreeInIsFree(n: Node, low: nat, bits: nat, live: set<UntypedId>)
    requires WellFormed(Some(n), bits) && n.IsAccessible() && LiveWithin(Some(n), low, bits, live)
    ensures Ids(Some(n), low, bits, false) == FreeIn(live, low, bits)
    ensures ManagedNodes(n.left) + ManagedNodes(n.right) == 2 * SplitsIn(live, low, bits)
    decreases n
  {
    hide LiveWithin, MustSplit, AnyIn;
    SplitExactly(n, low, bits, live);
    if n.IsChildless() {
      LeafIds(n, low, bits, false);
    } else {
      LiveInChildren(n, low, bits, live);
      FreeInIsFree(n.left.value, low, bits - 1, live);
      FreeInIsFree(n.right.value, Half(low, bits), bits - 1, live);
    }
  }

  /**
   The free regions and the number of slots a tree has are functions of the built-ins and of the
   live regions, whatever was created and freed before.
   */
  lemma {:induction false} FreeIsDetermined(t: Tree, low: nat, bits: nat, live: set<UntypedId>)
    requires WellFormed(t, bits) && LiveWithin(t, low, bits, live)
    ensures Ids(t, low, bits, false) == FreeGiven(Reset(t), live, low, bits)
    ensures (t.Some? ==> !t.value.IsManaged()) ==> ManagedNodes(t) == 2 * SplitsGiven(Reset(t), live, low, bits)
    decreases t
  {
    hide LiveWithin, FreeIn, SplitsIn;
    if t.Some? {
      if t.value.IsAccessible() {
        FreeInIsFree(t.value, low, bits, live);
      } else if 0 < bits {
        LiveInChildren(t.value, low, bits, live);
        FreeIsDetermined(t.value.left, low, bits - 1, live);
        FreeIsDetermined(t.value.right, Half(low, bits), bits - 1, live);
      } else {
        LeafIds(t.value, low, bits, false);
      }
    }
  }

  /** Two trees over the same built-ins with the same live regions have the same free ones. */
  lemma SameLiveSameFree(t: Tree, u: Tree, bits: nat)
    requires WellFormed(t, bits) && WellFormed(u, bits) && Reset(t) == Reset(u)
    requires Ids(t, 0, bits, true) == Ids(u, 0, bits, true)
    ensures Ids(t, 0, bits, false) == Ids(u, 0, bits, false)
  {
    FreeIsDetermined(t, 0, bits, Ids(t, 0, bits, true));
    FreeIsDetermined(u, 0, bits, Ids(u, 0, bits, true));
  }

  // ----- Slots -----

  /** The slots a tree has. */
  function SlotSet(t: Tree): set<nat> {
    if t.None? then {}
    else (if t.value.IsManaged() then {t.value.ty.access.slot} else {}) +
         SlotSet(t.value.left) + SlotSet(t.value.right)
  }

  lemma {:induction false} SlotSetUses(t: Tree, s: nat)
    ensures s in SlotSet(t) <==> 0 < SlotUses(t, s)
    decreases t
  {
    if t.Some? {
      SlotSetUses(t.value.left, s);
      SlotSetUses(t.value.right, s);
    }
  }

  /** Each node with a slot has one of its own. */
  lemma {:induction false} SlotSetSize(t: Tree)
    requires forall s: nat :: SlotUses(t, s) <= 1
    ensures |SlotSet(t)| == ManagedNodes(t)
    decreases t
  {
    if t.Some? {
      var n := t.value;
      forall s: nat ensures SlotUses(n.left, s) <= 1 && SlotUses(n.right, s) <= 1 {
        assert SlotUses(t, s) <= 1;
      }
      SlotSetSize(n.left);
      SlotSetSize(n.right);
      var own := if n.IsManaged() then {n.ty.access.slot} else {};
      forall s: nat
        ensures !(s in own && s in SlotSet(n.left)) && !(s in own && s in SlotSet(n.right))
        ensures !(s in SlotSet(n.left) && s in SlotSet(n.right))
      {
        assert SlotUses(t, s) <= 1;
        SlotSetUses(n.left, s);
        SlotSetUses(n.right, s);
      }
      DisjointSizes(own, SlotSet(n.left), SlotSet(n.right));
    }
  }

  lemma PristineHasNoSlots(t: Tree, bits: nat)
    requires WellFormed(t, bits) && t == Reset(t) && (t.Some? ==> !t.value.IsManaged())
    ensures ManagedNodes(t) == 0
  {
    PristineIsEmpty(t, 0, bits);
    forall s: nat ensures SlotUses(t, s) == 0 && s !in SlotSet(t) {
      SlotSetUses(t, s);
    }
    SlotSetSize(t);
    assert SlotSet(t) == {};
  }

  lemma DisjointSizes(a: set<nat>, b: set<nat>, c: set<nat>)
    requires a !! b && a !! c && b !! c
    ensures |a + b + c| == |a| + |b| + |c|
  {}
}
