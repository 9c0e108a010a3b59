/**
 Building a realm: the view of its model that orders the objects for allocation, the CNode that
 is to hold them, and the slots that objects and frame copies get in it.
 */
module Realize {
  import opened Basics
  import opened BestFit
  import opened CRegions
  import opened RealmModel

  // ----- The view of a model -----

  /** local lists the local objects in the order they are created; reverse finds an object in its list. */
  datatype ModelView = ModelView(local: seq<nat>, extern: seq<nat>, reverse: seq<nat>)

  predicate KeyAtMost(a: Object, b: Object)
    requires a.Local? && b.Local?
  {
    a.bits < b.bits || (a.bits == b.bits && a.kind <= b.kind)
  }

  predicate AllLocal(m: Model, rs: seq<nat>) {
    forall i :: 0 <= i < |rs| ==> rs[i] < |m| && m[rs[i]].Local?
  }

  ghost predicate InOrder(m: Model, rs: seq<nat>)
    requires AllLocal(m, rs)
  {
    forall i, j :: 0 <= i < j < |rs| ==> KeyAtMost(m[rs[i]], m[rs[j]])
  }

  /** The same elements, each as often. */
  ghost predicate Permutes(a: seq<nat>, b: seq<nat>) {
    multiset(a) == multiset(b)
  }

  function Inserted(rs: seq<nat>, k: nat, r: nat): (ss: seq<nat>)
    requires k <= |rs|
  {
    rs[..k] + [r] + rs[k..]
  }

  lemma InsertedPermutes(rs: seq<nat>, k: nat, r: nat, qs: seq<nat>)
    requires k <= |rs| && Permutes(rs, qs)
    ensures Permutes(Inserted(rs, k, r), qs + [r])
  {
    assert rs == rs[..k] + rs[k..];
  }

  lemma PermutesMembers(a: seq<nat>, b: seq<nat>)
    requires Permutes(a, b)
    ensures forall x :: x in a <==> x in b
    ensures NoDup(b) ==> NoDup(a)
  {
    assert forall x :: x in a <==> x in multiset(a);
    assert forall x :: x in b <==> x in multiset(b);
    if NoDup(b) {
      NoDupPermuted(a, b);
    }
  }

  /** Puts r behind everything whose key is not greater. */
  method InsertByKey(m: Model, rs: seq<nat>, r: nat) returns (ghost k: nat, ss: seq<nat>)
    requires AllLocal(m, rs) && InOrder(m, rs) && r < |m| && m[r].Local?
    ensures AllLocal(m, ss) && InOrder(m, ss)
    ensures k <= |rs| && ss == Inserted(rs, k, r)
  {
    var at := |rs|;
    while 0 < at && !KeyAtMost(m[rs[at - 1]], m[r])
      invariant 0 <= at <= |rs|
      invariant forall i :: at <= i < |rs| ==> !KeyAtMost(m[rs[i]], m[r])
    {
      at := at - 1;
    }
    k, ss := at, Inserted(rs, at, r);
  }

  /** Sorts by size and then by type. */
  method SortByKey(m: Model, rs: seq<nat>) returns (ss: seq<nat>)
    requires AllLocal(m, rs)
    ensures AllLocal(m, ss) && InOrder(m, ss) && Permutes(ss, rs)
  {
    hide Permutes, InOrder;
    ss := [];
    SortBegins(m, rs);
    for i := 0 to |rs|
      invariant AllLocal(m, ss) && InOrder(m, ss) && Permutes(ss, rs[..i])
    {
      ghost var k, was := 0, ss;
      k, ss := InsertByKey(m, ss, rs[i]);
      InsertedPermutes(was, k, rs[i], rs[..i]);
      assert rs[..i] + [rs[i]] == rs[..i + 1];
    }
    assert rs[..|rs|] == rs;
  }

  lemma SortBegins(m: Model, rs: seq<nat>)
    ensures InOrder(m, []) && Permutes([], rs[..0])
  {}

  /** The view of the first n objects. */
  ghost predicate Views(m: Model, n: nat, v: ModelView) {
    && |v.reverse| == |m|
    && Lists(m, n, v.local, true) && Lists(m, n, v.extern, false)
    && AllLocal(m, v.local) && InOrder(m, v.local)
    && Reverses(v.reverse, v.local) && Reverses(v.reverse, v.extern)
  }

  /** rs names each of the first n objects that is local, or that is not, once. */
  ghost predicate Lists(m: Model, n: nat, rs: seq<nat>, local: bool) {
    NoDup(rs) && forall r: nat :: r in rs <==> r < n && r < |m| && m[r].Local? == local
  }

  ghost predicate Reverses(reverse: seq<nat>, rs: seq<nat>) {
    forall i :: 0 <= i < |rs| ==> rs[i] < |reverse| && reverse[rs[i]] == i
  }

  lemma AppendedLists(m: Model, n: nat, rs: seq<nat>, local: bool)
    requires n < |m| && Lists(m, n, rs, local)
    ensures Lists(m, n + 1, if m[n].Local? == local then rs + [n] else rs, local)
  {
  }

  /** Writes the place of every element of rs into reverse. */
  method WriteReverse(reverse: seq<nat>, rs: seq<nat>) returns (written: seq<nat>)
    requires NoDup(rs) && forall i :: 0 <= i < |rs| ==> rs[i] < |reverse|
    ensures |written| == |reverse| && Reverses(written, rs)
    ensures forall r :: 0 <= r < |reverse| && r !in rs ==> written[r] == reverse[r]
  {
    written := reverse;
    for i := 0 to |rs|
      invariant |written| == |reverse|
      invariant forall j :: 0 <= j < i ==> written[rs[j]] == j
      invariant forall r :: 0 <= r < |reverse| && r !in rs ==> written[r] == reverse[r]
    {
      written := written[rs[i] := i];
    }
  }

  method NewView(m: Model) returns (v: ModelView)
    ensures Views(m, |m|, v)
  {
    v := ModelView([], [], seq(|m|, _ => 0));
    for n := 0 to |m|
      invariant Views(m, n, v)
    {
      v := ViewNext(m, n, v);
    }
  }

  lemma ListsMeans(m: Model, n: nat, rs: seq<nat>, local: bool)
    requires Lists(m, n, rs, local)
    ensures NoDup(rs) && forall i :: 0 <= i < |rs| ==> rs[i] < |m| && rs[i] < n && m[rs[i]].Local? == local
  {
    assert forall i :: 0 <= i < |rs| ==> rs[i] in rs;
  }

  lemma ListsPermuted(m: Model, n: nat, rs: seq<nat>, ss: seq<nat>, local: bool)
    requires Lists(m, n, rs, local) && Permutes(ss, rs)
    ensures Lists(m, n, ss, local)
  {
    hide NoDup;
    PermutesMembers(ss, rs);
  }

  /** Entries outside one list are as they were, so the other list still finds its own. */
  lemma ReversesStill(m: Model, n: nat, local: seq<nat>, extern: seq<nat>, reverse: seq<nat>, written: seq<nat>)
    requires Lists(m, n, local, true) && Lists(m, n, extern, false) && Reverses(reverse, extern)
    requires |written| == |reverse| && forall r :: 0 <= r < |reverse| && r !in local ==> written[r] == reverse[r]
    ensures Reverses(written, extern)
  {
    hide NoDup;
    forall i | 0 <= i < |extern| ensures extern[i] < |written| && written[extern[i]] == i {
      assert extern[i] in extern;
      assert extern[i] !in local;
    }
  }

  lemma LocalNext(m: Model, rs: seq<nat>, n: nat)
    requires AllLocal(m, rs) && n < |m| && m[n].Local?
    ensures AllLocal(m, rs + [n])
  {}

  lemma ExternNext(m: Model, n: nat, extern: seq<nat>, reverse: seq<nat>)
    requires Lists(m, n, extern, false) && Reverses(reverse, extern) && n < |m| == |reverse|
    ensures Reverses(reverse[n := |extern|], extern + [n])
  {
    ListsMeans(m, n, extern, false);
  }

  lemma ViewMeans(m: Model, n: nat, v: ModelView)
    requires Views(m, n, v)
    ensures |v.reverse| == |m| && AllLocal(m, v.local) && Reverses(v.reverse, v.extern)
    ensures Lists(m, n, v.local, true) && Lists(m, n, v.extern, false)
  {}

  lemma ViewMade(m: Model, n: nat, v: ModelView)
    requires |v.reverse| == |m| && AllLocal(m, v.local) && InOrder(m, v.local)
    requires Lists(m, n, v.local, true) && Lists(m, n, v.extern, false)
    requires Reverses(v.reverse, v.local) && Reverses(v.reverse, v.extern)
    ensures Views(m, n, v)
  {}

  method ViewNext(m: Model, n: nat, v: ModelView) returns (w: ModelView)
    requires n < |m| && Views(m, n, v)
    ensures Views(m, n + 1, w)
  {
    hide *;
    ViewMeans(m, n, v);
    AppendedLists(m, n, v.local, true);
    AppendedLists(m, n, v.extern, false);
    var local, extern, reverse := v.local, v.extern, v.reverse;
    match m[n] {
      case Local(_, _, _) =>
        LocalNext(m, local, n);
        local := local + [n];
      case Extern(_) =>
        ExternNext(m, n, extern, reverse);
        reverse := reverse[n := |extern|];
        extern := extern + [n];
    }
    var sorted := SortByKey(m, local);
    ListsPermuted(m, n + 1, local, sorted, true);
    ListsMeans(m, n + 1, sorted, true);
    var written := WriteReverse(reverse, sorted);
    ReversesStill(m, n + 1, sorted, extern, reverse, written);
    w := ModelView(sorted, extern, written);
    ViewMade(m, n + 1, w);
  }

  // ----- Sizing -----

  lemma {:induction false} SumOverOnes(rs: seq<nat>, ws: seq<nat>)
    requires forall r :: r in rs ==> r < |ws| && ws[r] == 1
    ensures SumOver(rs, ws) == |rs|
  {
    if rs != [] {
      assert forall r :: r in rs[1..] ==> r in rs;
      SumOverOnes(rs[1..], ws);
    }
  }

  lemma LocalCount(m: Model, v: ModelView)
    requires Views(m, |m|, v)
    ensures |v.local| == Locals(m)
  {
    var ones := Weights(m, OneIfLocal);
    SumOverOnes(v.local, ones);
    AllReferences(v.local, ones);
  }

  lemma ViewCounts(m: Model, v: ModelView)
    requires Views(m, |m|, v)
    ensures |v.local| == Locals(m)
    ensures SumOver(v.local, Plus(Weights(m, FramesOf), Weights(m, LargesOf))) == Mappings(m)
  {
    LocalCount(m, v);
    AllReferences(v.local, Plus(Weights(m, FramesOf), Weights(m, LargesOf)));
  }

  method CountLarges(es: seq<PDEntry>) returns (n: nat)
    ensures n == Larges(es)
  {
    n := 0;
    var i := 0;
    while i < |es|
      invariant 0 <= i <= |es| && n + Larges(es[i..]) == Larges(es)
    {
      if es[i].LargePage? {
        n := n + 1;
      }
      assert es[i..][1..] == es[i + 1..];
      i := i + 1;
    }
  }

  method CountMappings(m: Model, v: ModelView) returns (n: nat)
    requires Views(m, |m|, v)
    ensures n == Mappings(m)
  {
    hide Weights, Plus, Mappings, InOrder, Lists;
    ViewCounts(m, v);
    ghost var ws := Plus(Weights(m, FramesOf), Weights(m, LargesOf));
    n := 0;
    var i := 0;
    while i < |v.local|
      invariant 0 <= i <= |v.local| && n + SumOver(v.local[i..], ws) == SumOver(v.local, ws)
    {
      var body := m[v.local[i]].body;
      if body.PT? {
        n := n + |body.frames|;
      } else if body.PD? {
        var larges := CountLarges(body.entries);
        n := n + larges;
      }
      assert v.local[i..][1..] == v.local[i + 1..];
      i := i + 1;
    }
  }

  // ----- Slots -----

  /** How an attempt ends: an unwrap of a missing slot or a reference of the wrong kind ends the server. */
  datatype Outcome = Done | NoSlot | WrongKind

  /** One slot for each of n capabilities, up to the first that is missing. */
  method TakeSlots(region: CRegion, n: nat) returns (ok: bool, slots: seq<nat>)
    requires region.Valid()
    modifies region
    ensures region.Valid() && Taken(slots, old(region.free), region.free)
    ensures ok == (n <= |old(region.free)|) && |slots| == if ok then n else |old(region.free)|
  {
    slots := [];
    TakenNone(region.free);
    for i := 0 to n
      invariant region.Valid() && |slots| == i && Taken(slots, old(region.free), region.free)
    {
      hide Taken;
      TakenSizes(slots, old(region.free), region.free);
      ghost var open := region.free;
      var slot := region.Alloc();
      if slot.None? { return false, slots; }
      TakenNext(slots, old(region.free), open, slot.value);
      slots := slots + [slot.value];
    }
    TakenSizes(slots, old(region.free), region.free);
    ok := true;
  }

  // ----- Mapping the address spaces -----

  lemma SumOverNone(ws: seq<nat>)
    ensures SumOver([], ws) == 0
  {}

  lemma SumOverStep(rs: seq<nat>, i: nat, ws: seq<nat>)
    requires i < |rs|
    ensures SumOver(rs[i..], ws) == Weight(ws, rs[i]) + SumOver(rs[i + 1..], ws)
  {
    assert rs[i..][1..] == rs[i + 1..];
  }

  /** Frames that the entries of a directory map. */
  ghost function Mapped(es: seq<PDEntry>, pts: seq<nat>): nat {
    Larges(es) + SumOver(Tables(es), pts)
  }

  ghost function EntryWeight(e: PDEntry, pts: seq<nat>): nat {
    if e.LargePage? then 1 else Weight(pts, e.pt)
  }

  lemma MappedStep(es: seq<PDEntry>, i: nat, pts: seq<nat>)
    requires i < |es|
    ensures Mapped(es[i..], pts) == EntryWeight(es[i], pts) + Mapped(es[i + 1..], pts)
  {
    assert es[i..][1..] == es[i + 1..];
    if es[i].Table? {
      SumOverSplit([es[i].pt], Tables(es[i + 1..]), pts);
      SumOverOne(es[i].pt, pts);
    } else {
      assert Tables(es[i..]) == Tables(es[i + 1..]);
    }
  }

  /**
   What copying the w frames below something comes to: as many slots as frames, or all there were
   when those were too few.  wrong holds if a reference is of the wrong kind.
   */
  ghost predicate Copied(outcome: Outcome, slots: seq<nat>, w: nat, before: set<nat>, after: set<nat>, wrong: bool) {
    && Taken(slots, before, after)
    && match outcome
       case Done => |slots| == w
       case NoSlot => |slots| == |before| < w
       case WrongKind => |slots| <= w && wrong
  }

  lemma CopiedNothing(before: set<nat>, w: nat, wrong: bool)
    requires wrong
    ensures Copied(WrongKind, [], w, before, before, wrong)
  {
    TakenNone(before);
  }

  /** A copy that went through, and the next one. */
  lemma CopiedNext(done: seq<nat>, outcome: Outcome, more: seq<nat>, v: nat, w: nat, total: nat,
                   before: set<nat>, between: set<nat>, after: set<nat>, wrong: bool)
    requires Taken(done, before, between) && |done| == v && Copied(outcome, more, w, between, after, wrong)
    requires v + w <= total
    ensures Taken(done + more, before, after)
    ensures outcome.Done? ==> |done + more| == v + w
    ensures !outcome.Done? ==> Copied(outcome, done + more, total, before, after, wrong)
  {
    hide Taken;
    TakenSizes(done, before, between);
    TakenBoth(done, more, before, between, after);
  }

  method MapTable(m: Model, region: CRegion, at: nat) returns (outcome: Outcome, slots: seq<nat>)
    requires region.Valid()
    modifies region
    ensures region.Valid()
    ensures Copied(outcome, slots, Weight(BelowPT(m), at), old(region.free), region.free, !IsTable(m, at, OfPD))
  {
    slots := [];
    if |m| <= at || m[at].Extern? || !m[at].body.PT? {
      CopiedNothing(region.free, Weight(BelowPT(m), at), true);
      return WrongKind, slots;
    }
    var ok;
    ok, slots := TakeSlots(region, |m[at].body.frames|);
    outcome := if ok then Done else NoSlot;
  }

  method MapEntry(m: Model, region: CRegion, e: PDEntry) returns (outcome: Outcome, slots: seq<nat>)
    requires region.Valid()
    modifies region
    ensures region.Valid()
    ensures Copied(outcome, slots, EntryWeight(e, BelowPT(m)), old(region.free), region.free,
                   e.Table? && !IsTable(m, e.pt, OfPD))
  {
    match e
    case LargePage(_) =>
      var ok;
      ok, slots := TakeSlots(region, 1);
      outcome := if ok then Done else NoSlot;
    case Table(pt) =>
      outcome, slots := MapTable(m, region, pt);
  }

  method MapDirectory(m: Model, region: CRegion, at: nat) returns (outcome: Outcome, slots: seq<nat>)
    requires region.Valid()
    modifies region
    ensures region.Valid()
    ensures Copied(outcome, slots, Weight(BelowPD(m), at), old(region.free), region.free,
                   !IsTable(m, at, OfPUD) || !Resolves(m))
  {
    slots := [];
    if |m| <= at || m[at].Extern? || !m[at].body.PD? {
      CopiedNothing(region.free, Weight(BelowPD(m), at), true);
      return WrongKind, slots;
    }
    var es := m[at].body.entries;
    ghost var pts := BelowPT(m);
    TakenNone(region.free);
    DirectoryWeight(m, at);
    hide BelowPD, BelowPT, Mapped, Taken, Copied, EntryWeight, Resolves, IsTable, Weight;
    assert es[0..] == es;
    for i := 0 to |es|
      invariant region.Valid() && Taken(slots, old(region.free), region.free)
      invariant |slots| + Mapped(es[i..], pts) == Mapped(es, pts)
    {
      MappedStep(es, i, pts);
      ghost var between := region.free;
      var more;
      outcome, more := MapEntry(m, region, es[i]);
      DirectoryResolves(m, at, i);
      WrongIsWrong(outcome, more, EntryWeight(es[i], pts), between, region.free,
                   es[i].Table? && !IsTable(m, es[i].pt, OfPD), !Resolves(m));
      CopiedNext(slots, outcome, more, |slots|, EntryWeight(es[i], pts), Mapped(es, pts),
                 old(region.free), between, region.free, !Resolves(m));
      slots := slots + more;
      if !outcome.Done? {
        WrongIsWrong(outcome, slots, Mapped(es, pts), old(region.free), region.free, !Resolves(m),
                     !IsTable(m, at, OfPUD) || !Resolves(m));
        return;
      }
    }
    assert es[|es|..] == [];
    NothingMapped(pts);
    AllCopied(slots, Mapped(es, pts), old(region.free), region.free, !IsTable(m, at, OfPUD) || !Resolves(m));
    outcome := Done;
  }

  lemma DirectoryWeight(m: Model, at: nat)
    requires at < |m| && m[at].Local? && m[at].body.PD?
    ensures Weight(BelowPD(m), at) == Mapped(m[at].body.entries, BelowPT(m))
  {}

  lemma NothingMapped(pts: seq<nat>)
    ensures Mapped([], pts) == 0
  {}

  lemma AllCopied(slots: seq<nat>, w: nat, before: set<nat>, after: set<nat>, wrong: bool)
    requires Taken(slots, before, after) && |slots| == w
    ensures Copied(Done, slots, w, before, after, wrong)
  {}

  lemma WrongIsWrong(outcome: Outcome, slots: seq<nat>, w: nat, before: set<nat>, after: set<nat>, wrong: bool,
                     worse: bool)
    requires Copied(outcome, slots, w, before, after, wrong) && (wrong ==> worse)
    ensures Copied(outcome, slots, w, before, after, worse)
  {}

  lemma DirectoryResolves(m: Model, at: nat, i: nat)
    requires at < |m| && m[at].Local? && m[at].body.PD? && i < |m[at].body.entries|
    ensures var e := m[at].body.entries[i]; e.Table? && !IsTable(m, e.pt, OfPD) ==> !Resolves(m)
  {
    if m[at].body.entries[i].Table? {
      TablesHas(m[at].body.entries, i);
    }
  }

  lemma {:induction false} TablesHas(es: seq<PDEntry>, i: nat)
    requires i < |es| && es[i].Table?
    ensures es[i].pt in Tables(es)
  {
    if 0 < i {
      TablesHas(es[1..], i - 1);
    }
  }

  method MapUpper(m: Model, region: CRegion, at: nat) returns (outcome: Outcome, slots: seq<nat>)
    requires region.Valid()
    modifies region
    ensures region.Valid()
    ensures Copied(outcome, slots, Weight(BelowPUD(m), at), old(region.free), region.free,
                   !IsTable(m, at, OfPGD) || !Resolves(m))
  {
    slots := [];
    if |m| <= at || m[at].Extern? || !m[at].body.PUD? {
      CopiedNothing(region.free, Weight(BelowPUD(m), at), true);
      return WrongKind, slots;
    }
    var pds := m[at].body.pds;
    ghost var ws := BelowPD(m);
    TakenNone(region.free);
    assert pds[0..] == pds;
    assert Weight(BelowPUD(m), at) == SumOver(pds, ws);
    SumOverNone(ws);
    hide BelowPUD, BelowPD, SumOver, Taken, Copied, IsTable, Weight;
    for i := 0 to |pds|
      invariant region.Valid() && Taken(slots, old(region.free), region.free)
      invariant |slots| + SumOver(pds[i..], ws) == SumOver(pds, ws)
    {
      SumOverStep(pds, i, ws);
      ghost var between := region.free;
      var more;
      outcome, more := MapDirectory(m, region, pds[i]);
      assert pds[i] in Links(m[at], OfPUD);
      WrongIsWrong(outcome, more, Weight(ws, pds[i]), between, region.free,
                   !IsTable(m, pds[i], OfPUD) || !Resolves(m), !Resolves(m));
      hide Resolves;
      CopiedNext(slots, outcome, more, |slots|, Weight(ws, pds[i]), SumOver(pds, ws),
                 old(region.free), between, region.free, !Resolves(m));
      slots := slots + more;
      if !outcome.Done? {
        WrongIsWrong(outcome, slots, SumOver(pds, ws), old(region.free), region.free, !Resolves(m),
                     !IsTable(m, at, OfPGD) || !Resolves(m));
        return;
      }
    }
    assert pds[|pds|..] == [];
    AllCopied(slots, SumOver(pds, ws), old(region.free), region.free, !IsTable(m, at, OfPGD) || !Resolves(m));
    outcome := Done;
  }

  method MapSpace(m: Model, region: CRegion, at: nat) returns (outcome: Outcome, slots: seq<nat>)
    requires region.Valid() && at < |m|
    modifies region
    ensures region.Valid()
    ensures Copied(outcome, slots, Weight(BelowPGD(m), at), old(region.free), region.free, !Resolves(m))
  {
    slots := [];
    TakenNone(region.free);
    if m[at].Extern? || !m[at].body.PGD? {
      SumOverNone(BelowPUD(m));
      return Done, slots;
    }
    var puds := m[at].body.puds;
    ghost var ws := BelowPUD(m);
    assert puds[0..] == puds;
    assert Weight(BelowPGD(m), at) == SumOver(puds, ws);
    SumOverNone(ws);
    hide BelowPGD, BelowPUD, SumOver, Taken, Copied, IsTable, Weight;
    for i := 0 to |puds|
      invariant region.Valid() && Taken(slots, old(region.free), region.free)
      invariant |slots| + SumOver(puds[i..], ws) == SumOver(puds, ws)
    {
      SumOverStep(puds, i, ws);
      ghost var between := region.free;
      var more;
      outcome, more := MapUpper(m, region, puds[i]);
      assert puds[i] in Links(m[at], OfPGD);
      WrongIsWrong(outcome, more, Weight(ws, puds[i]), between, region.free,
                   !IsTable(m, puds[i], OfPGD) || !Resolves(m), !Resolves(m));
      hide Resolves;
      CopiedNext(slots, outcome, more, |slots|, Weight(ws, puds[i]), SumOver(puds, ws),
                 old(region.free), between, region.free, !Resolves(m));
      slots := slots + more;
      if !outcome.Done? { return; }
    }
    assert puds[|puds|..] == [];
    AllCopied(slots, SumOver(puds, ws), old(region.free), region.free, !Resolves(m));
    outcome := Done;
  }

  /** init_vspaces: every address space in turn. */
  method InitVSpaces(m: Model, region: CRegion) returns (outcome: Outcome, slots: seq<nat>)
    requires region.Valid()
    modifies region
    ensures region.Valid()
    ensures Copied(outcome, slots, Copies(m), old(region.free), region.free, !Resolves(m))
    ensures Resolves(m) ==> (outcome.NoSlot? <==> |old(region.free)| < Copies(m)) && !outcome.WrongKind?
  {
    slots := [];
    TakenNone(region.free);
    ghost var ws := BelowPGD(m);
    assert ws[0..] == ws;
    for i := 0 to |m|
      invariant region.Valid() && Taken(slots, old(region.free), region.free)
      invariant |slots| + Sum(ws[i..]) == Sum(ws)
    {
      hide BelowPGD, Taken, Copied, Resolves;
      assert ws[i..][1..] == ws[i + 1..];
      ghost var between := region.free;
      var more;
      outcome, more := MapSpace(m, region, i);
      CopiedNext(slots, outcome, more, |slots|, ws[i], Sum(ws), old(region.free), between, region.free, !Resolves(m));
      slots := slots + more;
      if !outcome.Done? {
        CopiedMeans(outcome, slots, Sum(ws), old(region.free), region.free, !Resolves(m));
        return;
      }
    }
    assert ws[|m|..] == [];
    TakenSizes(slots, old(region.free), region.free);
    outcome := Done;
  }

  lemma CopiedMeans(outcome: Outcome, slots: seq<nat>, w: nat, before: set<nat>, after: set<nat>, wrong: bool)
    requires Copied(outcome, slots, w, before, after, wrong)
    ensures outcome.NoSlot? ==> |before| < w
    ensures outcome.WrongKind? ==> wrong
  {}

  // ----- Capability pointers -----

  const WORD: nat := 64

  datatype CPtr = CPtr(cptr: nat, depth: nat)

  /** The pointer to a slot of a CNode at root, with an empty guard of guardSize bits. */
  function CPtrWithDepth(root: CPtr, guardSize: nat, radix: nat, slot: nat): CPtr {
    CPtr(root.cptr * Power(2, guardSize) * Power(2, radix) + slot, root.depth + guardSize + radix)
  }

  lemma BelowProduct(high: nat, highs: nat, low: nat, lows: nat)
    requires high < highs && low < lows
    ensures high * lows + low < highs * lows
  {
    assert (high + 1) * lows <= highs * lows;
  }

  /**
   With the guard that fills the word, a pointer has full depth and is read from the top as the path
   to the CNode, then a guard of zeros, then the slot.  So it fits a word, and no two slots share one.
   */
  lemma RealmPointers(root: CPtr, radix: nat, slot: nat)
    requires root.depth + radix <= WORD && root.cptr < Power(2, root.depth) && slot < Power(2, radix)
    ensures var below := Power(2, WORD - root.depth);
      var p := CPtrWithDepth(root, WORD - root.depth - radix, radix, slot);
      && p.depth == 64 && p.cptr < Power(2, 64)
      && p.cptr / below == root.cptr && p.cptr % below == slot
  {
    hide Power;
    var g := WORD - root.depth - radix;
    PowerSum(2, g, radix);
    PowerSum(2, root.depth, g + radix);
    TimesAssociate(root.cptr, Power(2, g), Power(2, radix));
    PowerGrows(2, radix, g + radix);
    BelowProduct(root.cptr, Power(2, root.depth), slot, Power(2, g + radix));
    UniqueQuotient(root.cptr * Power(2, g + radix) + slot, Power(2, g + radix), root.cptr, slot);
  }

  // ----- The whole realm -----

  /** The realm's CNode, as large as the sizing says. */
  method NewRegion(m: Model, v: ModelView) returns (region: CRegion)
    requires Views(m, |m|, v)
    ensures fresh(region) && region.Valid() && region.size == |region.free| == Power(2, Radix(m))
    ensures forall s :: s in region.free ==> s < region.size
  {
    hide Views, Locals, Mappings, SizeBitsToContain, Power;
    ViewCounts(m, v);
    var mappings := CountMappings(m, v);
    region := new CRegion(SizeBitsToContain(|v.local| + mappings));
    forall s | s in region.free ensures s < region.size {
      region.FreeOrUsed(s);
    }
  }

  /**
   Sizing, creation and mapping of a realm.  created[k] is the slot of the k-th object created.
   Every object gets one; whether a copy lacks one is decided by the model alone.
   */
  method RealizeSlots(m: Model)
    returns (outcome: Outcome, region: CRegion, v: ModelView, created: seq<nat>, copies: seq<nat>)
    ensures fresh(region) && region.Valid() && region.size == Power(2, Radix(m))
    ensures Views(m, |m|, v) && |created| == |v.local|
    ensures NoDup(created + copies) && forall s :: s in created + copies ==> s < region.size
    ensures outcome.Done? ==> |copies| == Copies(m)
    ensures outcome.NoSlot? ==> Power(2, Radix(m)) < Locals(m) + Copies(m)
    ensures Resolves(m) ==> (outcome.NoSlot? <==> Power(2, Radix(m)) < Locals(m) + Copies(m)) && !outcome.WrongKind?
    ensures Forest(m) ==> !outcome.NoSlot?
    ensures forall i :: 0 <= i < |m| && m[i].Local? ==> v.reverse[i] < |created| && v.local[v.reverse[i]] == i
  {
    hide Forest, Views, Taken, InOrder, NoDup, Copies, Locals, Mappings, Radix, Power, Resolves, Copied;
    if Forest(m) { RadixSuffices(m); }
    ObjectsFit(m);
    v := NewView(m);
    ViewCounts(m, v);
    ReverseFinds(m, v);
    region := NewRegion(m, v);
    ghost var all := region.free;
    var ok;
    ok, created := TakeSlots(region, |v.local|);
    ghost var between := region.free;
    TakenSizes(created, all, between);
    outcome, copies := InitVSpaces(m, region);
    CopiedTaken(outcome, copies, Copies(m), between, region.free, !Resolves(m));
    TakenBoth(created, copies, all, between, region.free);
    TakenFrom(region, created + copies, all);
  }

  lemma CopiedTaken(outcome: Outcome, slots: seq<nat>, w: nat, before: set<nat>, after: set<nat>, wrong: bool)
    requires Copied(outcome, slots, w, before, after, wrong)
    ensures Taken(slots, before, after)
    ensures outcome.Done? ==> |slots| == w
    ensures outcome.NoSlot? ==> |before| < w
  {}

  /** The radix covers at least the objects. */
  lemma ObjectsFit(m: Model)
    ensures Locals(m) < Power(2, Radix(m))
  {}

  lemma TakenFrom(region: CRegion, slots: seq<nat>, all: set<nat>)
    requires region.Valid() && Taken(slots, all, region.free)
    requires forall s :: s in all ==> s < region.size
    ensures NoDup(slots) && forall s :: s in slots ==> s < region.size
  {}

  /** Every object is found through reverse. */
  lemma ReverseFinds(m: Model, v: ModelView)
    requires Views(m, |m|, v)
    ensures forall i :: 0 <= i < |m| && m[i].Local? ==> v.reverse[i] < |v.local| && v.local[v.reverse[i]] == i
    ensures forall i :: 0 <= i < |m| && m[i].Extern? ==> v.reverse[i] < |v.extern| && v.extern[v.reverse[i]] == i
  {
    forall i | 0 <= i < |m|
      ensures m[i].Local? ==> v.reverse[i] < |v.local| && v.local[v.reverse[i]] == i
      ensures m[i].Extern? ==> v.reverse[i] < |v.extern| && v.extern[v.reverse[i]] == i
    {
      if m[i].Local? {
        assert i in v.local;
      } else {
        assert i in v.extern;
      }
    }
  }
}
