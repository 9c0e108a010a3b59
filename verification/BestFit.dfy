/**
 Serving requests from a pool of power-of-two blocks by best fit, on block counts alone.

 `free[i]` is the number of free blocks of 2^i bytes.  A request for 2^s bytes takes the
 smallest free block that is large enough and splits it down, leaving one block of every
 size in between.
 */
module BestFit {
  import opened Basics

  type Counts = seq<nat>

  /** The smallest size from `s` on with a free block. */
  function Smallest(free: Counts, s: nat): (t: Option<nat>)
    ensures t.Some? ==> s <= t.value < |free| && 0 < free[t.value]
    ensures forall i :: s <= i < (if t.Some? then t.value else |free|) ==> free[i] == 0
    decreases |free| - s
  {
    if s >= |free| then None else if free[s] > 0 then Some(s) else Smallest(free, s + 1)
  }

  /** The counts after a block of size `t` has served a request of size `s`. */
  function Served(free: Counts, s: nat, t: nat): (r: Counts)
    requires s <= t < |free| && 0 < free[t]
    ensures |r| == |free|
  {
    seq(|free|, i requires 0 <= i < |free| =>
      if i == t then free[i] - 1 else if s <= i < t then free[i] + 1 else free[i])
  }

  /** One best-fit allocation; None when every free block is too small. */
  function Take(free: Counts, s: nat): (r: Option<Counts>)
    ensures r.Some? ==> |r.value| == |free|
  {
    var t := Smallest(free, s);
    if t.None? then None else Some(Served(free, s, t.value))
  }

  /** A run of requests, in the order given. */
  function Run(free: Counts, requests: seq<nat>): (r: Option<Counts>)
    ensures r.Some? ==> |r.value| == |free|
    decreases |requests|
  {
    if requests == [] then Some(free) else
    var next := Take(free, requests[0]);
    if next.None? then None else Run(next.value, requests[1..])
  }

  /** Space in blocks of at least 2^j bytes, counted in units of 2^j bytes. */
  function Units(free: Counts, j: nat): (u: nat)
    decreases |free| - j
  {
    if j >= |free| then 0 else free[j] + 2 * Units(free, j + 1)
  }

  /** How many requests there are of each of `sizes` sizes. */
  function Wanted(requests: seq<nat>, sizes: nat): (w: Counts)
    ensures |w| == sizes
  {
    seq(sizes, (i: nat) => Occurrences(requests, i))
  }

  function Occurrences(requests: seq<nat>, s: nat): (c: nat)
    ensures c > 0 <==> s in requests
  {
    if requests == [] then 0
    else (if requests[0] == s then 1 else 0) + Occurrences(requests[1..], s)
  }

  /** At every level the free space in large enough blocks covers the space asked for. */
  ghost predicate Covers(free: Counts, requests: seq<nat>) {
    && (forall s :: s in requests ==> s < |free|)
    && forall j: nat :: Units(Wanted(requests, |free|), j) <= Units(free, j)
  }

  lemma {:induction false} UnitsFrom(f: Counts, g: Counts, j: nat)
    requires |f| == |g| && forall i :: j <= i < |f| ==> f[i] == g[i]
    ensures Units(f, j) == Units(g, j)
    decreases |f| - j
  {
    if j < |f| { UnitsFrom(f, g, j + 1); }
  }

  /** Serving costs one unit at the request's level and, above it up to the split block, one unit each. */
  lemma {:induction false} ServedUnits(free: Counts, s: nat, t: nat, j: nat)
    requires s <= t < |free| && 0 < free[t] && s <= j <= |free|
    ensures Units(Served(free, s, t), j) == Units(free, j) - (if j <= t then 1 else 0)
    ensures j <= t ==> 0 < Units(free, j)
    decreases |free| - j
  {
    if t < j {
      UnitsFrom(Served(free, s, t), free, j);
    } else {
      ServedUnits(free, s, t, j + 1);
    }
  }

  /** Lemma for the levels below: a unit at level s is 2^(s-j) units at level j. */
  lemma {:induction false} ServedUnitsBelow(free: Counts, s: nat, t: nat, j: nat)
    requires s <= t < |free| && 0 < free[t] && j <= s
    ensures Units(Served(free, s, t), j) == Units(free, j) - Power(2, s - j)
    decreases s - j
  {
    if j == s {
      ServedUnits(free, s, t, s);
    } else {
      ServedUnitsBelow(free, s, t, j + 1);
    }
  }

  /** One request less, level by level. */
  lemma {:induction false} WantedUnits(requests: seq<nat>, sizes: nat, j: nat)
    requires requests != [] && requests[0] < sizes
    ensures Units(Wanted(requests, sizes), j) ==
            Units(Wanted(requests[1..], sizes), j) + (if j <= requests[0] then Power(2, requests[0] - j) else 0)
    decreases sizes - j
  {
    if j < sizes { WantedUnits(requests, sizes, j + 1); }
  }

  /**
   Between the request and the block that serves it there is room to spare: the space there is
   a whole number of the level's units, and strictly more than what is wanted.
   */
  lemma {:induction false} RoomToSpare(free: Counts, requests: seq<nat>, t: nat, j: nat)
    requires requests != [] && Covers(free, requests)
    requires Smallest(free, requests[0]) == Some(t) && requests[0] < j <= t
    ensures Units(Wanted(requests, |free|), j) < Units(free, j)
    decreases j
  {
    var s, w := requests[0], Wanted(requests, |free|);
    assert w[s] > 0;
    assert Units(w, j - 1) <= Units(free, j - 1);
    if s < j - 1 {
      RoomToSpare(free, requests, t, j - 1);
    }
  }

  /** A covered request can be served, and what is left covers the remaining requests. */
  lemma TakeKeepsCover(free: Counts, requests: seq<nat>)
    requires requests != [] && Covers(free, requests)
    ensures Take(free, requests[0]).Some?
    ensures Covers(Take(free, requests[0]).value, requests[1..])
  {
    forall q | q in requests[1..] ensures q in requests {}
    var s := requests[0];
    assert Units(Wanted(requests, |free|), s) <= Units(free, s);
    assert Wanted(requests, |free|)[s] > 0;
    NoneMeansZero(free, s);
    var t := Smallest(free, s).value;
    forall j: nat ensures Units(Wanted(requests[1..], |free|), j) <= Units(Served(free, s, t), j) {
      WantedUnits(requests, |free|, j);
      assert Units(Wanted(requests, |free|), j) <= Units(free, j);
      if j <= s {
        ServedUnitsBelow(free, s, t, j);
      } else if j <= |free| {
        ServedUnits(free, s, t, j);
        if j <= t { RoomToSpare(free, requests, t, j); }
      }
    }
  }

  lemma {:induction false} NoneMeansZero(free: Counts, s: nat)
    ensures Smallest(free, s).None? ==> Units(free, s) == 0
    decreases |free| - s
  {
    if s < |free| { NoneMeansZero(free, s + 1); }
  }

  /** Conversely a request can only be served, and leave cover, if there was cover before. */
  lemma CoverBeforeTake(free: Counts, requests: seq<nat>)
    requires requests != [] && Take(free, requests[0]).Some?
    requires Covers(Take(free, requests[0]).value, requests[1..])
    ensures Covers(free, requests)
  {
    assert requests == [requests[0]] + requests[1..];
    var s := requests[0];
    var t := Smallest(free, s).value;
    forall j: nat ensures Units(Wanted(requests, |free|), j) <= Units(free, j) {
      WantedUnits(requests, |free|, j);
      assert Units(Wanted(requests[1..], |free|), j) <= Units(Served(free, s, t), j);
      if j <= s {
        ServedUnitsBelow(free, s, t, j);
      } else if j <= |free| {
        ServedUnits(free, s, t, j);
      }
    }
  }

  /**
   Best fit is optimal: a run of requests is served to the end exactly when the free space
   covers it level by level, whatever the order of the requests.
   */
  lemma {:induction false} RunSucceedsIffCovered(free: Counts, requests: seq<nat>)
    ensures Run(free, requests).Some? <==> Covers(free, requests)
    decreases |requests|
  {
    if requests == [] {
      forall j: nat ensures Units(Wanted([], |free|), j) <= Units(free, j) {
        NothingWanted(|free|, j);
      }
    } else {
      if Covers(free, requests) { TakeKeepsCover(free, requests); }
      var next := Take(free, requests[0]);
      if next.Some? {
        RunSucceedsIffCovered(next.value, requests[1..]);
        if Covers(next.value, requests[1..]) { CoverBeforeTake(free, requests); }
      }
    }
  }

  lemma {:induction false} NothingWanted(sizes: nat, j: nat)
    ensures Units(Wanted([], sizes), j) == 0
    decreases sizes - j
  {
    if j < sizes { NothingWanted(sizes, j + 1); }
  }

  /** Slots a covered run uses: two for every split. */
  ghost function SlotsNeeded(free: Counts, requests: seq<nat>): (n: nat)
    requires Run(free, requests).Some?
    decreases |requests|
  {
    if requests == [] then 0 else
    var t := Smallest(free, requests[0]).value;
    2 * (t - requests[0]) + SlotsNeeded(Served(free, requests[0], t), requests[1..])
  }

  /** A block is large enough and there are slots to split it down with. */
  predicate CanServe(free: Counts, slots: nat, size: nat) {
    var t := Smallest(free, size);
    t.Some? && 2 * (t.value - size) <= slots
  }

  datatype Shortage = NoShortage | OutOfMemory | OutOfSlots

  /** What a single request lacks. */
  ghost function Missing(free: Counts, slots: nat, size: nat): (m: Shortage)
    ensures m.NoShortage? <==> CanServe(free, slots, size)
  {
    var t := Smallest(free, size);
    if t.None? then OutOfMemory else if slots < 2 * (t.value - size) then OutOfSlots else NoShortage
  }

  /** What the first request that cannot be served lacks. */
  ghost function Short(free: Counts, requests: seq<nat>, slots: nat): Shortage
    decreases |requests|
  {
    if requests == [] then NoShortage else
    var m := Missing(free, slots, requests[0]);
    if !m.NoShortage? then m else
    var t := Smallest(free, requests[0]).value;
    Short(Served(free, requests[0], t), requests[1..], slots - 2 * (t - requests[0]))
  }

  /** Nothing is short exactly when the memory serves the run and the slots suffice for it. */
  lemma {:induction false} ShortMeans(free: Counts, requests: seq<nat>, slots: nat)
    ensures Short(free, requests, slots).NoShortage? <==>
      Run(free, requests).Some? && SlotsNeeded(free, requests) <= slots
    ensures Short(free, requests, slots).OutOfMemory? ==> Run(free, requests).None?
    decreases |requests|
  {
    if requests != [] && CanServe(free, slots, requests[0]) {
      var t := Smallest(free, requests[0]).value;
      ShortMeans(Served(free, requests[0], t), requests[1..], slots - 2 * (t - requests[0]));
    }
  }

  /** A run from `start` with `all` slots after `i` requests: `counts` and `slots` are left. */
  ghost predicate Underway(start: Counts, requests: seq<nat>, all: nat, i: nat, counts: Counts, slots: nat) {
    && i <= |requests|
    && Run(counts, requests[i..]) == Run(start, requests)
    && Short(counts, requests[i..], slots) == Short(start, requests, all)
    && (Run(start, requests).Some? ==>
        SlotsNeeded(counts, requests[i..]) + all == SlotsNeeded(start, requests) + slots)
  }

  lemma RunBegins(start: Counts, requests: seq<nat>, all: nat)
    ensures Underway(start, requests, all, 0, start, all)
  {
    assert requests[0..] == requests;
  }

  lemma RunStep(start: Counts, requests: seq<nat>, all: nat, i: nat, counts: Counts, slots: nat)
    requires Underway(start, requests, all, i, counts, slots) && i < |requests|
    ensures var m := Missing(counts, slots, requests[i]);
      if !m.NoShortage? then Short(start, requests, all) == m
      else var t := Smallest(counts, requests[i]).value;
        Underway(start, requests, all, i + 1, Served(counts, requests[i], t), slots - 2 * (t - requests[i]))
  {
    assert requests[i..][0] == requests[i] && requests[i..][1..] == requests[i + 1..];
  }

  lemma RunEnds(start: Counts, requests: seq<nat>, all: nat, counts: Counts, slots: nat)
    requires Underway(start, requests, all, |requests|, counts, slots)
    ensures Run(start, requests) == Some(counts) && SlotsNeeded(start, requests) + slots == all
    ensures Short(start, requests, all).NoShortage?
  {
    assert requests[|requests|..] == [];
  }

  // ----- peek_space: total space only -----

  /** peek_space answers from the total alone. */
  predicate PeekSpace(free: Counts, requests: seq<nat>) {
    Units(Wanted(requests, |free|), 0) <= Units(free, 0)
  }

  /** The bytes that requests come to. */
  function Bytes(requests: seq<nat>): nat {
    if requests == [] then 0 else Power(2, requests[0]) + Bytes(requests[1..])
  }

  lemma {:induction false} OneMoreBlock(c: Counts, d: Counts, r: nat, j: nat)
    requires r < |c| && d == c[r := c[r] + 1] && j <= r
    ensures Units(d, j) == Units(c, j) + Power(2, r - j)
    decreases r - j
  {
    if j == r {
      UnitsFrom(c, d, r + 1);
    } else {
      OneMoreBlock(c, d, r, j + 1);
    }
  }

  /** What is wanted, counted by size, comes to as many bytes. */
  lemma {:induction false} WantedBytes(requests: seq<nat>, sizes: nat)
    requires forall i :: 0 <= i < |requests| ==> requests[i] < sizes
    ensures Units(Wanted(requests, sizes), 0) == Bytes(requests)
  {
    if requests == [] {
      NothingWanted(sizes, 0);
    } else {
      var c, d, r := Wanted(requests[1..], sizes), Wanted(requests, sizes), requests[0];
      WantedBytes(requests[1..], sizes);
      assert d == c[r := c[r] + 1];
      OneMoreBlock(c, d, r, 0);
    }
  }

  lemma {:induction false} BlockUnits(free: Counts, t: nat, j: nat)
    requires t < |free| && free[t] == 1 && forall i :: 0 <= i < |free| && i != t ==> free[i] == 0
    requires j <= |free|
    ensures Units(free, j) == if j <= t then Power(2, t - j) else 0
    decreases |free| - j
  {
    if j < |free| { BlockUnits(free, t, j + 1); }
  }

  lemma {:induction false} PeekLevel(free: Counts, requests: seq<nat>, t: nat, j: nat)
    requires t < |free| && free[t] == 1 && forall i :: 0 <= i < |free| && i != t ==> free[i] == 0
    requires PeekSpace(free, requests)
    ensures Units(Wanted(requests, |free|), j) <= Units(free, j)
    decreases j
  {
    if 0 < j {
      PeekLevel(free, requests, t, j - 1);
      if j <= |free| {
        BlockUnits(free, t, j - 1);
        BlockUnits(free, t, j);
      }
    }
  }

  /** When the free memory is a single block, peek_space decides whether the requests fit. */
  lemma PeekSufficesForOneBlock(free: Counts, requests: seq<nat>, t: nat)
    requires t < |free| && free[t] == 1 && forall i :: 0 <= i < |free| && i != t ==> free[i] == 0
    requires forall s :: s in requests ==> s < |free|
    ensures PeekSpace(free, requests) <==> Run(free, requests).Some?
  {
    RunSucceedsIffCovered(free, requests);
    if PeekSpace(free, requests) {
      forall j: nat ensures Units(Wanted(requests, |free|), j) <= Units(free, j) {
        PeekLevel(free, requests, t, j);
      }
    }
  }

  /** In general it does not: two blocks of 8 bytes do not make one of 16. */
  lemma PeekIsNotEnough()
    ensures var free := [0, 0, 0, 2, 0]; PeekSpace(free, [4]) && Run(free, [4]).None?
  {
    var free: Counts := [0, 0, 0, 2, 0];
    var w := Wanted([4], 5);
    assert w == [0, 0, 0, 0, 1];
    assert Units(w, 4) == 1 && Units(w, 3) == 2 && Units(w, 2) == 4 && Units(w, 1) == 8;
    assert Units(free, 4) == 0 && Units(free, 3) == 2 && Units(free, 2) == 4 && Units(free, 1) == 8;
  }
}
