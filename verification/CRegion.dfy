/**
 The slots of a CNode: an ordered map from slot number to whether the slot is in use.
 */
module CRegions {
  import opened Basics
  import opened BestFit

  ghost function Range(lo: nat, hi: nat): (r: set<nat>)
    ensures forall k :: k in r <==> lo <= k < hi
  {
    if hi <= lo then {} else Range(lo, hi - 1) + {hi - 1}
  }

  lemma {:induction false} RangeSize(lo: nat, hi: nat)
    requires lo <= hi
    ensures |Range(lo, hi)| == hi - lo
    decreases hi
  {
    if lo < hi { RangeSize(lo, hi - 1); }
  }

  predicate InUse(elements: map<nat, bool>, k: nat) {
    k in elements && elements[k]
  }

  predicate Unused(elements: map<nat, bool>, k: nat) {
    k in elements && !elements[k]
  }

  lemma MarkOne(elements: map<nat, bool>, key: nat, used: bool, marked: map<nat, bool>)
    requires marked == elements[key := used]
    ensures forall k: nat :: InUse(marked, k) <==> if k == key then used else InUse(elements, k)
    ensures forall k: nat :: Unused(marked, k) <==> if k == key then !used else Unused(elements, k)
  {}

  /** The `n` slots from `lo` on exist and are unused. */
  ghost predicate OpenRun(elements: map<nat, bool>, lo: nat, n: nat) {
    forall k: nat :: lo <= k < lo + n ==> k in elements && !elements[k]
  }

  /** Slots taken one by one: distinct, and gone from the free ones. */
  ghost predicate Taken(slots: seq<nat>, before: set<nat>, after: set<nat>) {
    && (forall i :: 0 <= i < |slots| ==> slots[i] in before)
    && NoDup(slots)
    && after == before - (set s | s in slots)
    && |after| == |before| - |slots|
  }

  lemma TakenNone(before: set<nat>)
    ensures Taken([], before, before)
  {}

  lemma TakenNext(slots: seq<nat>, before: set<nat>, after: set<nat>, slot: nat)
    requires Taken(slots, before, after) && slot in after
    ensures Taken(slots + [slot], before, after - {slot})
  {}

  lemma TakenBoth(a: seq<nat>, b: seq<nat>, before: set<nat>, between: set<nat>, after: set<nat>)
    requires Taken(a, before, between) && Taken(b, between, after)
    ensures Taken(a + b, before, after)
  {
    assert forall s :: s in a + b <==> s in a || s in b;
  }

  lemma TakenSizes(slots: seq<nat>, before: set<nat>, after: set<nat>)
    requires Taken(slots, before, after)
    ensures |after| == |before| - |slots|
  {}

  class CRegion {
    const size: nat
    var elements: map<nat, bool>

    /** The slots in use and the others. */
    ghost var used: set<nat>
    ghost var free: set<nat>

    ghost predicate Tied()
      reads this
    {
      && (forall k {:trigger InUse(elements, k)} :: k in used <==> InUse(elements, k))
      && (forall k {:trigger Unused(elements, k)} :: k in free <==> Unused(elements, k))
    }

    /** The keys are exactly the slots 0..size. */
    ghost predicate Valid()
      reads this
    {
      Tied() && forall k: nat :: k in elements <==> k < size
    }

    /** A slot is free exactly when it exists and is not in use. */
    lemma FreeOrUsed(k: nat)
      requires Valid()
      ensures k in free <==> k < size && k !in used
    {
      assert Unused(elements, k) <==> k < size && !InUse(elements, k);
    }

    lemma FreeAndUsed()
      requires Valid()
      ensures |free| + |used| == size
    {
      forall k: nat ensures (k in free + used <==> k < size) && !(k in free && k in used) {
        FreeOrUsed(k);
        assert k in used <==> InUse(elements, k);
      }
      assert free + used == Range(0, size) && free !! used;
      RangeSize(0, size);
    }

    constructor (radix: nat)
      ensures Valid() && size == Power(2, radix) && used == {} && |free| == size
    {
      size := Power(2, radix);
      elements := map[];
      used, free := {}, {};
      new;
      Deposit(0, size);
      FreeAndUsed();
    }

    /** Make the slots of a range unused, new ones too; the source panics if one of them already is unused. */
    method Deposit(lo: nat, hi: nat)
      requires Tied() && lo <= hi
      requires forall k :: lo <= k < hi ==> k !in free
      modifies this
      ensures Tied() && (old(Valid()) && hi <= size ==> Valid())
      ensures forall k: nat :: k in elements <==> k in old(elements) || lo <= k < hi
      ensures used == old(used) - Range(lo, hi) && free == old(free) + Range(lo, hi)
    {
      var key := lo;
      while key < hi
        invariant lo <= key <= hi && Tied()
        invariant forall k: nat :: k in elements <==> k in old(elements) || lo <= k < key
        invariant used == old(used) - Range(lo, key) && free == old(free) + Range(lo, key)
      {
        MarkOne(elements, key, false, elements[key := false]);
        elements := elements[key := false];
        used, free := used - {key}, free + {key};
        key := key + 1;
      }
    }

    /** Withdraw the first run of `n` unused slots; nothing changes when there is none. */
    method Withdraw(n: nat) returns (r: Option<nat>)
      requires Valid()
      modifies this
      ensures Valid()
      ensures r.Some? ==> 0 < n && OpenRun(old(elements), r.value, n)
      ensures forall lo: nat :: 0 < n && (r.Some? ==> lo < r.value) ==> !OpenRun(old(elements), lo, n)
      ensures r.None? ==> elements == old(elements) && used == old(used) && free == old(free)
      ensures r.Some? ==> used == old(used) + Range(r.value, r.value + n)
      ensures r.Some? ==> free == old(free) - Range(r.value, r.value + n)
    {
      var found, low, building := 0, 0, false;
      var key := 0;
      while key < size
        invariant key <= size && found <= key && elements == old(elements)
        invariant building <==> 0 < found
        invariant building ==> low == key - found
        invariant OpenRun(elements, key - found, found)
        invariant key - found > 0 ==> elements[key - found - 1]
        invariant found < n || n == 0
        invariant forall lo: nat :: 0 < n && lo + n <= key ==> !OpenRun(elements, lo, n)
      {
        if !elements[key] {
          if !building {
            building := true;
            low := key;
          }
          found := found + 1;
          if found == n {
            break;
          }
        } else {
          found, low, building := 0, 0, false;
        }
        key := key + 1;
      }
      if key == size {
        forall lo: nat | 0 < n && size < lo + n ensures !OpenRun(elements, lo, n) {
          assert lo + n - 1 !in elements;
        }
        return None;
      }
      var high := key;
      key := low;
      while key < high + 1
        invariant low <= key <= high + 1 <= size && Valid()
        invariant used == old(used) + Range(low, key) && free == old(free) - Range(low, key)
      {
        MarkOne(elements, key, true, elements[key := true]);
        elements := elements[key := true];
        used, free := used + {key}, free - {key};
        key := key + 1;
      }
      r := Some(low);
    }

    /** Allocate one slot: the lowest unused one. */
    method Alloc() returns (r: Option<nat>)
      requires Valid()
      modifies this
      ensures Valid()
      ensures r.Some? <==> old(free) != {}
      ensures r.Some? ==> r.value in old(free) && forall k :: k in old(free) ==> r.value <= k
      ensures r.Some? ==> free == old(free) - {r.value} && used == old(used) + {r.value} && r.value !in old(used)
      ensures r.None? ==> elements == old(elements) && used == old(used) && free == old(free)
    {
      r := Withdraw(1);
      assert forall k: nat :: OpenRun(old(elements), k, 1) <==> Unused(old(elements), k);
      assert forall k: nat :: k in old(free) ==> Unused(old(elements), k);
      assert r.Some? ==> Unused(old(elements), r.value) && !InUse(old(elements), r.value);
    }

    /** How many slots are unused. */
    method CountUnused() returns (n: nat)
      requires Valid()
      ensures n == |free|
    {
      n := 0;
      ghost var seen: set<nat> := {};
      for key := 0 to size
        invariant n == |seen| && forall k: nat :: k in seen <==> k < key && Unused(elements, k)
      {
        if !elements[key] {
          n := n + 1;
          seen := seen + {key};
        }
      }
      assert forall k: nat :: k in free <==> Unused(elements, k);
      assert seen == free;
    }

    method FreeSlot(slot: nat)
      requires Valid() && slot in used
      modifies this
      ensures Valid()
      ensures used == old(used) - {slot} && free == old(free) + {slot}
    {
      assert InUse(elements, slot);
      FreeOrUsed(slot);
      Deposit(slot, slot + 1);
    }
  }
}
