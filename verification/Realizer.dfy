/**
 Building and destroying a whole realm: the allocator serves its CNode and its objects, the CNode
 holds them and the copies of their frames, and destroying the realm gives the memory back.
 */
module Realizers {
  import opened Basics
  import opened BestFit
  import opened CRegions
  import opened DerivationTree
  import opened Allocators
  import opened RealmModel
  import opened Realize

  /** log2 of the size of a slot. */
  const SLOT_BITS: nat := 5

  function LocalBits(m: Model): seq<nat> {
    if m == [] then [] else (if m[0].Local? then [m[0].bits] else []) + LocalBits(m[1..])
  }

  /** What a model takes from the allocator: its CNode and then its objects. */
  function Requests(m: Model): seq<nat> {
    [Radix(m) + SLOT_BITS] + LocalBits(m)
  }

  // ----- The order of the objects does not matter -----

  function OneIfBits(o: Object, s: nat): nat {
    if o.Local? && o.bits == s then 1 else 0
  }

  ghost function BitsWeights(m: Model, s: nat): (ws: seq<nat>)
    ensures |ws| == |m| && forall i :: 0 <= i < |m| ==> ws[i] == OneIfBits(m[i], s)
  {
    if m == [] then [] else [OneIfBits(m[0], s)] + BitsWeights(m[1..], s)
  }

  lemma {:induction false} OccurrencesInModel(m: Model, s: nat)
    ensures Occurrences(LocalBits(m), s) == Sum(BitsWeights(m, s))
  {
    if m != [] {
      OccurrencesInModel(m[1..], s);
      assert BitsWeights(m, s)[1..] == BitsWeights(m[1..], s);
      if m[0].Local? {
        assert LocalBits(m)[1..] == LocalBits(m[1..]);
      } else {
        assert LocalBits(m) == LocalBits(m[1..]);
      }
    }
  }

  ghost predicate SizesIn(m: Model, rs: seq<nat>, sizes: seq<nat>) {
    |sizes| == |rs| && forall i :: 0 <= i < |rs| ==> rs[i] < |m| && m[rs[i]].Local? && sizes[i] == m[rs[i]].bits
  }

  lemma {:induction false} OccurrencesInList(m: Model, rs: seq<nat>, sizes: seq<nat>, s: nat)
    requires SizesIn(m, rs, sizes)
    ensures Occurrences(sizes, s) == SumOver(rs, BitsWeights(m, s))
  {
    if rs != [] {
      OccurrencesInList(m, rs[1..], sizes[1..], s);
    }
  }

  lemma SameOccurrences(m: Model, v: ModelView, sizes: seq<nat>, s: nat)
    requires Views(m, |m|, v) && SizesIn(m, v.local, sizes)
    ensures Occurrences(sizes, s) == Occurrences(LocalBits(m), s)
  {
    OccurrencesInModel(m, s);
    OccurrencesInList(m, v.local, sizes, s);
    AllReferences(v.local, BitsWeights(m, s));
  }

  lemma OneMore(r: nat, rs: seq<nat>, s: nat)
    ensures Occurrences([r] + rs, s) == (if r == s then 1 else 0) + Occurrences(rs, s)
  {
    assert ([r] + rs)[1..] == rs;
  }

  /** Requests covered in one order are covered in any. */
  lemma CoversAnyOrder(free: Counts, a: seq<nat>, b: seq<nat>)
    requires Covers(free, a) && forall s: nat :: Occurrences(a, s) == Occurrences(b, s)
    ensures Covers(free, b)
  {
    assert Wanted(a, |free|) == Wanted(b, |free|);
    forall s | s in b ensures s < |free| {
      assert 0 < Occurrences(b, s);
    }
  }

  // ----- The order of creation -----

  ghost predicate Ascending(bs: seq<nat>) {
    forall i, j :: 0 <= i < j < |bs| ==> bs[i] <= bs[j]
  }

  function InsertBits(b: nat, bs: seq<nat>): seq<nat> {
    if bs == [] || b <= bs[0] then [b] + bs else [bs[0]] + InsertBits(b, bs[1..])
  }

  function SortBits(bs: seq<nat>): seq<nat> {
    if bs == [] then [] else InsertBits(bs[0], SortBits(bs[1..]))
  }

  lemma {:induction false} InsertAscends(b: nat, bs: seq<nat>)
    requires Ascending(bs)
    ensures Ascending(InsertBits(b, bs)) && forall x :: x in InsertBits(b, bs) ==> x == b || x in bs
  {
    if bs != [] && bs[0] < b {
      InsertAscends(b, bs[1..]);
      var rest := InsertBits(b, bs[1..]);
      forall x | x in bs[1..] ensures bs[0] <= x {
        var i :| 0 <= i < |bs[1..]| && bs[1..][i] == x;
        assert bs[i + 1] == x;
      }
      forall i | 0 <= i < |rest| ensures bs[0] <= rest[i] {
        assert rest[i] in rest;
      }
    }
  }

  lemma {:induction false} InsertedBits(b: nat, bs: seq<nat>, s: nat)
    ensures Occurrences(InsertBits(b, bs), s) == Occurrences([b] + bs, s)
  {
    if bs != [] && bs[0] < b {
      hide Occurrences;
      InsertedBits(b, bs[1..], s);
      OneMore(bs[0], InsertBits(b, bs[1..]), s);
      OneMore(b, bs[1..], s);
      OneMore(b, bs, s);
      assert bs == [bs[0]] + bs[1..];
      OneMore(bs[0], bs[1..], s);
    }
  }

  lemma {:induction false} SortedBits(bs: seq<nat>, s: nat)
    ensures Ascending(SortBits(bs)) && Occurrences(SortBits(bs), s) == Occurrences(bs, s)
  {
    if bs != [] {
      SortedBits(bs[1..], s);
      InsertAscends(bs[0], SortBits(bs[1..]));
      InsertedBits(bs[0], SortBits(bs[1..]), s);
      OneMore(bs[0], SortBits(bs[1..]), s);
    }
  }

  /** There is only one ascending order. */
  lemma {:induction false} AscendingUnique(a: seq<nat>, b: seq<nat>)
    requires Ascending(a) && Ascending(b) && forall s: nat :: Occurrences(a, s) == Occurrences(b, s)
    ensures a == b
  {
    if a == [] || b == [] {
      if a != [] { assert 0 < Occurrences(a, a[0]); }
      if b != [] { assert 0 < Occurrences(b, b[0]); }
    } else {
      assert 0 < Occurrences(a, a[0]) && 0 < Occurrences(b, b[0]);
      assert a[0] in b && b[0] in a;
      forall s: nat ensures Occurrences(a[1..], s) == Occurrences(b[1..], s) {
        assert Occurrences(a, s) == Occurrences(b, s);
      }
      AscendingUnique(a[1..], b[1..]);
      assert a == [a[0]] + a[1..] && b == [b[0]] + b[1..];
    }
  }

  /** Objects are created in the order of their sizes, whatever order the view has them in otherwise. */
  lemma SizesAscend(m: Model, v: ModelView, sizes: seq<nat>)
    requires Views(m, |m|, v) && SizesIn(m, v.local, sizes)
    ensures sizes == SortBits(LocalBits(m))
  {
    assert Ascending(sizes) by { ViewAscends(m, v, sizes); }
    var sorted := SortBits(LocalBits(m));
    forall s: nat ensures Ascending(sorted) && Occurrences(sizes, s) == Occurrences(sorted, s) {
      SameOccurrences(m, v, sizes, s);
      SortedBits(LocalBits(m), s);
    }
    assert Occurrences(sizes, 0) == Occurrences(sorted, 0);
    AscendingUnique(sizes, sorted);
  }

  lemma ViewAscends(m: Model, v: ModelView, sizes: seq<nat>)
    requires Views(m, |m|, v) && SizesIn(m, v.local, sizes)
    ensures Ascending(sizes)
  {
    forall i, j | 0 <= i < j < |sizes| ensures sizes[i] <= sizes[j] {
      assert KeyAtMost(m[v.local[i]], m[v.local[j]]);
    }
  }

  // ----- Slots of the allocator -----

  ghost function CNodeBits(m: Model): nat {
    Radix(m) + SLOT_BITS
  }

  /** What a model takes, in the order it is created. */
  ghost function InCreation(m: Model): seq<nat> {
    [CNodeBits(m)] + SortBits(LocalBits(m))
  }

  /**
   Whether the allocator's slots suffice: two for the CNode while its region is split down, of
   which one stays, and two for every split.
   */
  ghost predicate SlotsSuffice(free: Counts, m: Model, slots: nat)
    requires Run(free, InCreation(m)).Some?
  {
    var t := Smallest(free, CNodeBits(m));
    t.Some? && 2 + 2 * (t.value - CNodeBits(m)) <= slots && 1 + SlotsNeeded(free, InCreation(m)) <= slots
  }

  /** Free memory serves a model in the order of creation exactly when it covers the model. */
  lemma CoveredRuns(free: Counts, m: Model)
    ensures Covers(free, Requests(m)) <==> Covers(free, InCreation(m))
    ensures Covers(free, Requests(m)) <==> Run(free, InCreation(m)).Some?
  {
    hide Covers, Occurrences, SortBits, Run, Radix;
    forall s: nat ensures Occurrences(Requests(m), s) == Occurrences(InCreation(m), s) {
      SortedBits(LocalBits(m), s);
      OneMore(CNodeBits(m), LocalBits(m), s);
      OneMore(CNodeBits(m), SortBits(LocalBits(m)), s);
    }
    if Covers(free, Requests(m)) { CoversAnyOrder(free, Requests(m), InCreation(m)); }
    if Covers(free, InCreation(m)) { CoversAnyOrder(free, InCreation(m), Requests(m)); }
    RunSucceedsIffCovered(free, InCreation(m));
  }

  // ----- Whether there is room -----

  /**
   How realize_start ends: it goes through, an object exceeds every size there is, the space test
   fails, or a block or slot is missing halfway.
   */
  datatype Verdict = Fits | Oversized | Refused | Lacking(shortage: Shortage)

  /** The array that counts the requests by size has one entry for each size below the root's. */
  ghost predicate TooLarge(free: Counts, requests: seq<nat>) {
    exists i :: 0 <= i < |requests| && |free| <= requests[i] + 1
  }

  /** The space test, and whether the CNode gets its two slots and its memory. */
  ghost function Admitted(free: Counts, cnodeBits: nat, sizes: seq<nat>, slots: nat): Verdict {
    if TooLarge(free, [cnodeBits] + sizes) then Oversized
    else if !PeekSpace(free, [cnodeBits] + sizes) then Refused
    else if slots < 2 then Lacking(OutOfSlots)
    else
      var short := Missing(free, slots - 2, cnodeBits);
      if short.NoShortage? then Fits else Lacking(short)
  }

  /** How it ends, told from the free blocks and the unused slots. */
  ghost function Judged(free: Counts, m: Model, slots: nat): Verdict {
    var admitted := Admitted(free, CNodeBits(m), SortBits(LocalBits(m)), slots);
    if !admitted.Fits? then admitted else
    var split := Smallest(free, CNodeBits(m)).value;
    var rest := Short(Served(free, CNodeBits(m), split), SortBits(LocalBits(m)),
                      slots - 1 - 2 * (split - CNodeBits(m)));
    if rest.NoShortage? then Fits else Lacking(rest)
  }

  lemma CoveredIsNotTooLarge(free: Counts, m: Model)
    requires free != [] && free[|free| - 1] == 0 && Covers(free, InCreation(m))
    ensures !TooLarge(free, InCreation(m)) && PeekSpace(free, InCreation(m))
  {
    hide Radix, SortBits;
    var last := |free| - 1;
    var wanted := Wanted(InCreation(m), |free|);
    assert Units(wanted, last) <= Units(free, last) && Units(wanted, 0) <= Units(free, 0);
    assert Units(free, last) == free[last] + 2 * Units(free, last + 1) == 0;
    assert wanted[last] == Occurrences(InCreation(m), last) == 0;
    assert last !in InCreation(m);
    assert forall i :: 0 <= i < |InCreation(m)| ==> InCreation(m)[i] in InCreation(m);
  }

  /**
   A model is realized exactly when the free memory covers it and the slots suffice.  With memory
   that covers it only slots can be missing; unless slots are, memory that does not is noticed.
   */
  lemma JudgedMeans(free: Counts, m: Model, slots: nat)
    requires free != [] && free[|free| - 1] == 0
    ensures Judged(free, m, slots).Fits? <==>
      Covers(free, Requests(m)) && (CoveredRuns(free, m); SlotsSuffice(free, m, slots))
    ensures Covers(free, Requests(m)) ==> Judged(free, m, slots) in {Fits, Lacking(OutOfSlots)}
    ensures Judged(free, m, slots) != Lacking(OutOfSlots) ==>
      (Judged(free, m, slots).Fits? <==> Covers(free, Requests(m)))
  {
    CoveredRuns(free, m);
    if Covers(free, Requests(m)) { CoveredIsNotTooLarge(free, m); }
    hide Covers, PeekSpace, TooLarge, Requests, Radix, SortBits, LocalBits;
    var c, sizes := CNodeBits(m), SortBits(LocalBits(m));
    if Smallest(free, c).Some? {
      var split := Smallest(free, c).value;
      var served := Served(free, c, split);
      assert ([c] + sizes)[1..] == sizes;
      var left := slots - 1 - 2 * (split - c);
      if 0 <= left { ShortMeans(served, sizes, left); }
    }
  }

  /**
   Before anything is created a model is turned down exactly if an object is as large as the root,
   or else if CNode and objects come to more bytes than are free.
   */
  lemma TurnedDown(free: Counts, m: Model, slots: nat)
    ensures Judged(free, m, slots).Oversized? <==>
      exists i :: 0 <= i < |InCreation(m)| && |free| <= InCreation(m)[i] + 1
    ensures Judged(free, m, slots).Refused? <==>
      (forall i :: 0 <= i < |InCreation(m)| ==> InCreation(m)[i] + 1 < |free|) &&
      Units(free, 0) < Bytes(InCreation(m))
  {
    hide Short, Missing, Units, Wanted, Radix, SortBits, Bytes;
    if forall i :: 0 <= i < |InCreation(m)| ==> InCreation(m)[i] + 1 < |free| {
      WantedBytes(InCreation(m), |free|);
    }
  }

  // ----- Building -----

  method SizesOf(m: Model, v: ModelView) returns (sizes: seq<nat>)
    requires AllLocal(m, v.local)
    ensures SizesIn(m, v.local, sizes)
  {
    sizes := [];
    for i := 0 to |v.local|
      invariant |sizes| == i && forall j :: 0 <= j < i ==> sizes[j] == m[v.local[j]].bits
    {
      sizes := sizes + [m[v.local[i]].bits];
    }
  }

  lemma {:induction false} OccurrencesSnoc(rs: seq<nat>, r: nat, s: nat)
    ensures Occurrences(rs + [r], s) == Occurrences(rs, s) + if r == s then 1 else 0
  {
    if rs == [] {
      assert rs + [r] == [r] && [r][1..] == [];
      assert Occurrences([r], s) == (if r == s then 1 else 0) + Occurrences([], s);
    } else {
      assert (rs + [r])[1..] == rs[1..] + [r];
      OccurrencesSnoc(rs[1..], r, s);
    }
  }

  /** How many objects of each size are asked for. */
  method CountRequests(rs: seq<nat>, n: nat) returns (counts: seq<nat>)
    requires forall i :: 0 <= i < |rs| ==> rs[i] < n
    ensures counts == Wanted(rs, n)
  {
    counts := seq(n, _ => 0);
    assert rs[..0] == [];
    for i := 0 to |rs|
      invariant |counts| == n && forall s :: 0 <= s < n ==> counts[s] == Occurrences(rs[..i], s)
    {
      assert rs[..i + 1] == rs[..i] + [rs[i]];
      forall s: nat ensures Occurrences(rs[..i + 1], s) == Occurrences(rs[..i], s) + if rs[i] == s then 1 else 0 {
        OccurrencesSnoc(rs[..i], rs[i], s);
      }
      counts := counts[rs[i] := counts[rs[i]] + 1];
    }
    assert rs[..|rs|] == rs;
  }

  /** A realm as built: its CNode's region and memory, and the slot and memory of each object. */
  datatype Built = Built(realm: Realm, outcome: Outcome, copies: seq<nat>, leaked: nat)

  datatype Realm = Realm(view: ModelView, region: CRegion, cnode: UntypedId, slots: seq<nat>, ids: seq<UntypedId>)

  ghost predicate Occupies(r: Realm, m: Model, before: set<UntypedId>, after: set<UntypedId>) {
    && Views(m, |m|, r.view) && |r.slots| == |r.ids| == |r.view.local|
    && r.cnode !in before && r.cnode.bits == Radix(m) + SLOT_BITS
    && (forall i :: 0 <= i < |r.ids| ==> r.ids[i] !in before && r.ids[i] != r.cnode)
    && NoDup(r.ids)
    && (forall i :: 0 <= i < |r.ids| ==> r.ids[i].bits == m[r.view.local[i]].bits)
    && after == before + {r.cnode} + (set id | id in r.ids)
  }

  lemma OccupiesNow(r: Realm, m: Model, sizes: seq<nat>, before: set<UntypedId>, between: set<UntypedId>,
                    after: set<UntypedId>)
    requires Views(m, |m|, r.view) && SizesIn(m, r.view.local, sizes) && |r.slots| == |r.ids| == |sizes|
    requires r.cnode !in before && r.cnode.bits == Radix(m) + SLOT_BITS && between == before + {r.cnode}
    requires Created(r.ids, sizes, between, after)
    ensures Occupies(r, m, before, after)
  {
    hide Views, Radix;
  }

  /** Free memory covers the model at every level, and the allocator's slots suffice. */
  ghost predicate RoomFor(allocator: Allocator, m: Model)
    reads allocator, allocator.region, allocator.leaves
  {
    Covers(allocator.FreeCounts(), Requests(m)) &&
    (CoveredRuns(allocator.FreeCounts(), m);
     SlotsSuffice(allocator.FreeCounts(), m, |allocator.region.free|))
  }

  /**
   realize_start and the slot use of realize_finish.  A model is realized exactly if there is room
   for it in the allocator: every object gets memory of its size and a slot of its own; leaked is the
   allocator's slot that holds the CNode.  Whether a copy of a frame lacks a slot is decided by the
   model alone, and never happens in a forest.
   */
  method BuildRealm(allocator: Allocator, m: Model) returns (verdict: Verdict, b: Option<Built>)
    requires allocator.Valid()
    modifies allocator`tree, allocator.region, allocator.leaves
    ensures allocator.Valid() && (b.Some? <==> verdict.Fits?)
    ensures verdict == Judged(old(allocator.FreeCounts()), m, |old(allocator.region.free)|)
    ensures verdict.Fits? <==> old(RoomFor(allocator, m))
    ensures verdict.Oversized? || verdict.Refused? ==>
      allocator.tree == old(allocator.tree) && allocator.leaves.buckets == old(allocator.leaves.buckets) &&
      allocator.region.elements == old(allocator.region.elements)
    ensures Reset(Some(allocator.tree)) == Reset(Some(old(allocator.tree)))
    ensures b.Some? ==>
      var r, copies := b.value.realm, b.value.copies;
      && Occupies(r, m, old(allocator.Live()), allocator.Live())
      && fresh(r.region) && r.region.Valid() && r.region.size == Power(2, Radix(m))
      && NoDup(r.slots + copies) && (forall s :: s in r.slots + copies ==> s < r.region.size)
      && CopiesMade(m, b.value.outcome, copies)
    ensures b.Some? ==>
      var leaked := b.value.leaked;
      && leaked in old(allocator.region.free) && leaked !in old(allocator.region.used)
      && SameSpare(Some(old(allocator.tree)), Some(allocator.tree), old(allocator.region.used) + {leaked},
                   allocator.region.used)
  {
    hide *;
    var v := NewView(m);
    ViewIsLocal(m, v);
    var sizes := SizesOf(m, v);
    SizesAscend(m, v, sizes);
    ViewCounts(m, v);
    ObjectsFit(m);
    var mappings := CountMappings(m, v);
    var radix := SizeBitsToContain(|v.local| + mappings);
    RadixIs(m, v);
    SizesLength(m, v, sizes);
    JudgedNow(allocator, m);
    verdict := Admit(allocator, radix + SLOT_BITS, sizes);
    AdmittedFirst(allocator.FreeCounts(), m, |allocator.region.free|);
    if !verdict.Fits? { return verdict, None; }
    ghost var tree0, live := allocator.tree, allocator.Live();
    var region, cnode, slot := allocator.CreateCNode(radix, radix + SLOT_BITS);
    ghost var between, all, tree, used := allocator.Live(), region.free, allocator.tree, allocator.region.used;
    NewSlots(region);
    var short, slots, ids := allocator.CreateObjects(region, sizes);
    if !short.NoShortage? { return Lacking(short), None; }
    SpareTrans(Some(tree0), Some(tree), Some(allocator.tree), old(allocator.region.used) + {slot},
               used, allocator.region.used);
    var r := Realm(v, region, cnode, slots, ids);
    OccupiesNow(r, m, sizes, live, between, allocator.Live());
    var outcome, copies := Finish(m, region, slots, all);
    b := Some(Built(r, outcome, copies, slot));
  }

  lemma NewSlots(region: CRegion)
    requires region.Valid()
    ensures forall s :: s in region.free ==> s < region.size
  {
    forall s | s in region.free ensures s < region.size {
      region.FreeOrUsed(s);
    }
  }

  lemma JudgedNow(allocator: Allocator, m: Model)
    requires allocator.Valid()
    ensures RoomFor(allocator, m) <==> Judged(allocator.FreeCounts(), m, |allocator.region.free|).Fits?
  {
    allocator.NothingAtRoot();
    JudgedMeans(allocator.FreeCounts(), m, |allocator.region.free|);
  }

  /** The first part of the verdict decides, or what is left of it concerns the objects. */
  lemma AdmittedFirst(free: Counts, m: Model, slots: nat)
    ensures var c, sizes := Radix(m) + SLOT_BITS, SortBits(LocalBits(m));
      var admitted := Admitted(free, c, sizes, slots);
      if !admitted.Fits? then Judged(free, m, slots) == admitted
      else
        var t := Smallest(free, c);
        && t.Some? && 2 + 2 * (t.value - c) <= slots && Take(free, c) == Some(Served(free, c, t.value))
        && var rest := Short(Served(free, c, t.value), sizes, slots - 1 - 2 * (t.value - c));
           Judged(free, m, slots) == if rest.NoShortage? then Fits else Lacking(rest)
  {
    hide Radix, SortBits, Short;
  }

  lemma ViewIsLocal(m: Model, v: ModelView)
    requires Views(m, |m|, v)
    ensures AllLocal(m, v.local)
  {}

  lemma SizesLength(m: Model, v: ModelView, sizes: seq<nat>)
    requires SizesIn(m, v.local, sizes)
    ensures |sizes| == |v.local|
  {}

  lemma RadixIs(m: Model, v: ModelView)
    requires |v.local| == Locals(m)
    ensures SizeBitsToContain(|v.local| + Mappings(m)) == Radix(m)
  {}

  /** The tests before anything is created, and what create_cnode needs at once. */
  method Admit(allocator: Allocator, cnodeBits: nat, sizes: seq<nat>) returns (verdict: Verdict)
    requires allocator.Valid()
    ensures verdict == Admitted(allocator.FreeCounts(), cnodeBits, sizes, |allocator.region.free|)
  {
    hide Short, Missing;
    var requests := [cnodeBits] + sizes;
    for i := 0 to |requests|
      invariant forall k :: 0 <= k < i ==> requests[k] < allocator.rootBits
    {
      if allocator.rootBits <= requests[i] { return Oversized; }
    }
    var enough := CheckSpace(allocator, requests);
    if !enough { return Refused; }
    var unused := allocator.region.CountUnused();
    if unused < 2 { return Lacking(OutOfSlots); }
    var short := allocator.Lacks(cnodeBits, 2);
    return if short.NoShortage? then Fits else Lacking(short);
  }

  /** peek_space on what is about to be created. */
  method CheckSpace(allocator: Allocator, requests: seq<nat>) returns (enough: bool)
    requires allocator.Valid() && forall i :: 0 <= i < |requests| ==> requests[i] < allocator.rootBits
    ensures enough <==> PeekSpace(allocator.FreeCounts(), requests)
  {
    var counts := CountRequests(requests, allocator.rootBits + 1);
    enough := allocator.PeekSpace(counts);
  }

  /** What becomes of the copies is decided by the model. */
  ghost predicate CopiesMade(m: Model, outcome: Outcome, copies: seq<nat>) {
    && (outcome.Done? ==> |copies| == Copies(m))
    && (Resolves(m) ==> (outcome.NoSlot? <==> Power(2, Radix(m)) < Locals(m) + Copies(m)) && !outcome.WrongKind?)
    && (Forest(m) ==> !outcome.NoSlot?)
  }

  /** The slot use of realize_finish, with the objects' slots taken. */
  method Finish(m: Model, region: CRegion, slots: seq<nat>, ghost all: set<nat>)
    returns (outcome: Outcome, copies: seq<nat>)
    requires region.Valid() && region.size == |all| == Power(2, Radix(m)) && |slots| == Locals(m)
    requires Taken(slots, all, region.free) && forall s :: s in all ==> s < region.size
    modifies region
    ensures region.Valid() && CopiesMade(m, outcome, copies)
    ensures NoDup(slots + copies) && forall s :: s in slots + copies ==> s < region.size
  {
    hide Forest, Taken, NoDup, Copies, Locals, Mappings, Radix, Power, Resolves, Copied;
    if Forest(m) { RadixSuffices(m); }
    ghost var open := region.free;
    TakenSizes(slots, all, open);
    outcome, copies := InitVSpaces(m, region);
    CopiedTaken(outcome, copies, Copies(m), open, region.free, !Resolves(m));
    TakenBoth(slots, copies, all, open, region.free);
    TakenFrom(region, slots + copies, all);
  }

  // ----- Destroying -----

  lemma OccupiedIds(r: Realm, m: Model, before: set<UntypedId>, after: set<UntypedId>)
    requires Occupies(r, m, before, after)
    ensures var ids := [r.cnode] + r.ids;
      && (forall i :: 0 <= i < |ids| ==> ids[i] in after)
      && NoDup(ids)
      && after - (set id | id in ids) == before
  {
    hide Views, Radix;
  }

  /**
   A realm that is built and destroyed leaves exactly the memory live and free that was before, and
   exactly one more slot in use besides those of the tree: the one its CNode was in.
   */
  method BuildAndDestroy(allocator: Allocator, m: Model) returns (verdict: Verdict, leaked: nat)
    requires allocator.Valid()
    modifies allocator`tree, allocator.region, allocator.leaves
    ensures allocator.Valid() && (verdict.Fits? <==> old(RoomFor(allocator, m)))
    ensures Reset(Some(allocator.tree)) == Reset(Some(old(allocator.tree)))
    ensures verdict.Fits? ==>
      && allocator.Live() == old(allocator.Live()) && allocator.leaves.listed == old(allocator.leaves.listed)
      && |allocator.region.free| == |old(allocator.region.free)| - 1
      && leaked in old(allocator.region.free) && leaked !in old(allocator.region.used)
      && SameSpare(Some(old(allocator.tree)), Some(allocator.tree), old(allocator.region.used) + {leaked},
                   allocator.region.used)
    ensures verdict.Fits? && old(allocator.Live()) == {} ==>
      allocator.tree == old(allocator.tree) && allocator.region.used == old(allocator.region.used) + {leaked}
  {
    hide *;
    ghost var before, tree0, used0 := allocator.Live(), allocator.tree, allocator.region.used;
    allocator.FreeListDetermined();
    allocator.Sound();
    if before == {} { allocator.NothingOutstanding(); }
    var b;
    verdict, b := BuildRealm(allocator, m);
    if b.None? { return verdict, 0; }
    leaked := b.value.leaked;
    var r := b.value.realm;
    OccupiedIds(r, m, before, allocator.Live());
    ghost var tree, used := allocator.tree, allocator.region.used;
    allocator.FreeAll([r.cnode] + r.ids);
    SpareTrans(Some(tree0), Some(tree), Some(allocator.tree), used0 + {leaked}, used, allocator.region.used);
    MoreSlots(Some(tree0), used0, used0 + {leaked});
    allocator.SlotsBack(tree0, used0 + {leaked});
    allocator.FreeListDetermined();
    if before == {} {
      allocator.NothingOutstanding();
      SameTreeSameSlots(Some(allocator.tree), used0 + {leaked}, allocator.region.used);
    }
  }
}
