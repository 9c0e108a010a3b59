/**
 The model a realm is built from, as far as capability slots go, and how many slots it takes:
 one for every object and one for every mapping of a frame.
 */
module RealmModel {
  import opened Basics
  import opened BestFit

  datatype PDEntry = LargePage(frame: nat) | Table(pt: nat)

  datatype Body =
    | PGD(puds: seq<nat>)
    | PUD(pds: seq<nat>)
    | PD(entries: seq<PDEntry>)
    | PT(frames: seq<nat>)
    | Other

  /** A local object has the size of its blueprint and the blueprint's place in the order of types. */
  datatype Object =
    | Local(bits: nat, kind: nat, body: Body)
    | Extern(name: string)

  type Model = seq<Object>

  // ----- Sums -----

  function Sum(ws: seq<nat>): nat {
    if ws == [] then 0 else ws[0] + Sum(ws[1..])
  }

  function Weight(ws: seq<nat>, i: nat): nat {
    if i < |ws| then ws[i] else 0
  }

  function SumOver(rs: seq<nat>, ws: seq<nat>): nat {
    if rs == [] then 0 else Weight(ws, rs[0]) + SumOver(rs[1..], ws)
  }

  lemma NoDupTail(rs: seq<nat>)
    requires NoDup(rs) && rs != []
    ensures rs[0] !in rs[1..] && NoDup(rs[1..])
  {}

  lemma {:induction false} SumUpdate(ws: seq<nat>, i: nat, w: nat)
    requires i < |ws|
    ensures Sum(ws[i := w]) + ws[i] == Sum(ws) + w
  {
    if i == 0 {
      assert ws[i := w][1..] == ws[1..];
    } else {
      assert ws[i := w][1..] == ws[1..][i - 1 := w];
      SumUpdate(ws[1..], i - 1, w);
    }
  }

  lemma {:induction false} SumOverUpdate(rs: seq<nat>, ws: seq<nat>, i: nat, w: nat)
    requires i < |ws| && i !in rs
    ensures SumOver(rs, ws[i := w]) == SumOver(rs, ws)
  {
    if rs != [] {
      SumOverUpdate(rs[1..], ws, i, w);
    }
  }

  lemma {:induction false} SumOverSplit(a: seq<nat>, b: seq<nat>, ws: seq<nat>)
    ensures SumOver(a + b, ws) == SumOver(a, ws) + SumOver(b, ws)
  {
    if a == [] {
      assert a + b == b;
    } else {
      assert (a + b)[1..] == a[1..] + b;
      SumOverSplit(a[1..], b, ws);
    }
  }

  /** References that never repeat add up to no more than everything. */
  lemma {:induction false} DistinctReferences(rs: seq<nat>, ws: seq<nat>)
    requires NoDup(rs)
    ensures SumOver(rs, ws) <= Sum(ws)
    decreases |rs|
  {
    if rs != [] {
      NoDupTail(rs);
      if rs[0] < |ws| {
        SumUpdate(ws, rs[0], 0);
        SumOverUpdate(rs[1..], ws, rs[0], 0);
        DistinctReferences(rs[1..], ws[rs[0] := 0]);
      } else {
        DistinctReferences(rs[1..], ws);
      }
    }
  }

  /** And to exactly everything if they name all that has a weight. */
  lemma {:induction false} AllReferences(rs: seq<nat>, ws: seq<nat>)
    requires NoDup(rs) && forall i :: 0 <= i < |ws| && i !in rs ==> ws[i] == 0
    ensures SumOver(rs, ws) == Sum(ws)
    decreases |rs|
  {
    if rs == [] {
      SumZero(ws);
    } else {
      NoDupTail(rs);
      if rs[0] < |ws| {
        SumUpdate(ws, rs[0], 0);
        SumOverUpdate(rs[1..], ws, rs[0], 0);
        AllReferences(rs[1..], ws[rs[0] := 0]);
      } else {
        AllReferences(rs[1..], ws);
      }
    }
  }

  lemma {:induction false} SumZero(ws: seq<nat>)
    requires forall i :: 0 <= i < |ws| ==> ws[i] == 0
    ensures Sum(ws) == 0
  {
    if ws != [] {
      SumZero(ws[1..]);
    }
  }

  // ----- Page tables -----

  function Larges(es: seq<PDEntry>): nat {
    if es == [] then 0 else (if es[0].LargePage? then 1 else 0) + Larges(es[1..])
  }

  function Tables(es: seq<PDEntry>): seq<nat> {
    if es == [] then [] else (if es[0].Table? then [es[0].pt] else []) + Tables(es[1..])
  }

  datatype Level = OfPGD | OfPUD | OfPD

  /** The page tables that an object of some level refers to. */
  function Links(o: Object, level: Level): seq<nat> {
    if o.Extern? then [] else
    match level
    case OfPGD => if o.body.PGD? then o.body.puds else []
    case OfPUD => if o.body.PUD? then o.body.pds else []
    case OfPD => if o.body.PD? then Tables(o.body.entries) else []
  }

  function AllLinks(m: Model, level: Level): seq<nat> {
    if m == [] then [] else Links(m[0], level) + AllLinks(m[1..], level)
  }

  /** No page table hangs in two places. */
  ghost predicate Forest(m: Model) {
    forall level :: NoDup(AllLinks(m, level))
  }

  /** Whether at is a page table of the kind that objects of some level refer to. */
  predicate IsTable(m: Model, at: nat, level: Level) {
    at < |m| && m[at].Local? &&
    match level
    case OfPGD => m[at].body.PUD?
    case OfPUD => m[at].body.PD?
    case OfPD => m[at].body.PT?
  }

  /** Every reference of a page table leads to one of the right kind. */
  ghost predicate Resolves(m: Model) {
    forall i, level, r :: 0 <= i < |m| && r in Links(m[i], level) ==> IsTable(m, r, level)
  }

  function LinkWeights(m: Model, level: Level, ws: seq<nat>): (vs: seq<nat>)
    ensures |vs| == |m| && forall i :: 0 <= i < |m| ==> vs[i] == SumOver(Links(m[i], level), ws)
  {
    if m == [] then [] else [SumOver(Links(m[0], level), ws)] + LinkWeights(m[1..], level, ws)
  }

  function FramesOf(o: Object): nat {
    if o.Local? && o.body.PT? then |o.body.frames| else 0
  }

  function LargesOf(o: Object): nat {
    if o.Local? && o.body.PD? then Larges(o.body.entries) else 0
  }

  function Weights(m: Model, f: Object -> nat): (vs: seq<nat>)
    ensures |vs| == |m| && forall i :: 0 <= i < |m| ==> vs[i] == f(m[i])
  {
    if m == [] then [] else [f(m[0])] + Weights(m[1..], f)
  }

  function Plus(a: seq<nat>, b: seq<nat>): (c: seq<nat>)
    requires |a| == |b|
    ensures |c| == |a| && forall i :: 0 <= i < |a| ==> c[i] == a[i] + b[i]
  {
    if a == [] then [] else [a[0] + b[0]] + Plus(a[1..], b[1..])
  }

  /** Frames mapped below each table, directory, upper directory and global directory. */
  function BelowPT(m: Model): (ws: seq<nat>)
    ensures |ws| == |m|
  {
    Weights(m, FramesOf)
  }

  function BelowPD(m: Model): (ws: seq<nat>)
    ensures |ws| == |m|
  {
    Plus(Weights(m, LargesOf), LinkWeights(m, OfPD, BelowPT(m)))
  }

  function BelowPUD(m: Model): (ws: seq<nat>)
    ensures |ws| == |m|
  {
    LinkWeights(m, OfPUD, BelowPD(m))
  }

  function BelowPGD(m: Model): (ws: seq<nat>)
    ensures |ws| == |m|
  {
    LinkWeights(m, OfPGD, BelowPUD(m))
  }

  /** How many frame capabilities get copied. */
  function Copies(m: Model): nat {
    Sum(BelowPGD(m))
  }

  /** The number of frame mappings that the sizing counts: every table entry, reached or not. */
  function Mappings(m: Model): nat {
    Sum(Plus(Weights(m, FramesOf), Weights(m, LargesOf)))
  }

  lemma {:induction false} SumLinks(m: Model, level: Level, ws: seq<nat>)
    ensures Sum(LinkWeights(m, level, ws)) == SumOver(AllLinks(m, level), ws)
  {
    if m != [] {
      SumLinks(m[1..], level, ws);
      assert LinkWeights(m, level, ws)[1..] == LinkWeights(m[1..], level, ws);
      SumOverSplit(Links(m[0], level), AllLinks(m[1..], level), ws);
    }
  }

  lemma {:induction false} SumPlus(a: seq<nat>, b: seq<nat>)
    requires |a| == |b|
    ensures Sum(Plus(a, b)) == Sum(a) + Sum(b)
  {
    if a != [] {
      SumPlus(a[1..], b[1..]);
      assert Plus(a, b)[1..] == Plus(a[1..], b[1..]);
    }
  }

  /** Without sharing, links at one level carry no more than the objects they lead to. */
  lemma LinksCarry(m: Model, level: Level, ws: seq<nat>)
    requires Forest(m)
    ensures Sum(LinkWeights(m, level, ws)) <= Sum(ws)
  {
    SumLinks(m, level, ws);
    DistinctReferences(AllLinks(m, level), ws);
  }

  /** For a forest of page tables, the mappings counted cover all the copies made. */
  lemma CopiesCovered(m: Model)
    requires Forest(m)
    ensures Copies(m) <= Mappings(m)
  {
    hide Forest;
    var frames, larges := Weights(m, FramesOf), Weights(m, LargesOf);
    LinksCarry(m, OfPGD, BelowPUD(m));
    LinksCarry(m, OfPUD, BelowPD(m));
    LinksCarry(m, OfPD, BelowPT(m));
    SumPlus(larges, LinkWeights(m, OfPD, BelowPT(m)));
    SumPlus(frames, larges);
  }

  /** The bits needed to write x: the word size less the leading zeros. */
  function SizeBitsToContain(x: nat): (bits: nat)
    ensures x < Power(2, bits) && (0 < x ==> 0 < bits && Power(2, bits - 1) <= x)
  {
    if x == 0 then 0 else 1 + SizeBitsToContain(x / 2)
  }

  /** The radix chosen for a realm's CNode. */
  function Radix(m: Model): nat {
    SizeBitsToContain(Locals(m) + Mappings(m))
  }

  function Locals(m: Model): nat {
    Sum(Weights(m, OneIfLocal))
  }

  function OneIfLocal(o: Object): nat {
    if o.Local? then 1 else 0
  }

  /** For a forest the CNode holds every object and every copy. */
  lemma RadixSuffices(m: Model)
    requires Forest(m)
    ensures Locals(m) + Copies(m) < Power(2, Radix(m))
  {
    CopiesCovered(m);
  }

  const Shared: Model := [
    Local(12, 0, PGD([1])), Local(12, 1, PUD([2])),
    Local(12, 2, PD([Table(3), Table(3)])), Local(12, 3, PT([4, 4])), Local(12, 4, Other)]

  /**
   A table hung in two places is mapped twice and counted once: here the slots run out, provided
   that the kernel lets the table be mapped a second time.
   */
  lemma SharedTableOverflows()
    ensures Resolves(Shared) && !Forest(Shared) && Power(2, Radix(Shared)) < Locals(Shared) + Copies(Shared)
  {
    SharedResolves();
    SharedCopies();
    SharedMappings();
    if Forest(Shared) {
      CopiesCovered(Shared);
    }
    hide Forest, Copies, Mappings, Locals, Resolves;
    assert SizeBitsToContain(7) == 3 && Power(2, 3) == 8;
  }

  lemma SumOverOne(r: nat, ws: seq<nat>)
    ensures SumOver([], ws) == 0 && SumOver([r], ws) == Weight(ws, r) && SumOver([r, r], ws) == 2 * Weight(ws, r)
  {
    assert [r][1..] == [] && [r, r][1..] == [r];
    assert SumOver([r], ws) == Weight(ws, r) + SumOver([], ws);
  }

  lemma SharedTables()
    ensures Tables(Shared[2].body.entries) == [3, 3] && Larges(Shared[2].body.entries) == 0
  {
    var es := [Table(3), Table(3)];
    assert es[1..] == [Table(3)] && [Table(3)][1..] == [];
    assert Tables([Table(3)]) == [3] + Tables([]);
    assert Tables(es) == [3] + [3];
  }

  lemma SharedResolves()
    ensures Resolves(Shared)
  {
    SharedTables();
    hide Tables;
    forall i, level, r | 0 <= i < |Shared| && r in Links(Shared[i], level) ensures IsTable(Shared, r, level) {}
  }

  lemma SharedPD()
    ensures Weights(Shared, LargesOf) == [0, 0, 0, 0, 0] && BelowPT(Shared) == [0, 0, 0, 2, 0]
    ensures BelowPD(Shared) == [0, 0, 4, 0, 0]
  {
    hide Larges, Tables, LinkWeights, Weights, Plus, SumOver;
    SharedTables();
    SumOverOne(3, BelowPT(Shared));
  }

  lemma SharedCopies()
    ensures Copies(Shared) == 4
  {
    SharedPD();
    hide Larges, Tables, LinkWeights, Weights, Plus, SumOver, BelowPD;
    SumOverOne(2, BelowPD(Shared));
    assert BelowPUD(Shared) == [0, 4, 0, 0, 0];
    SumOverOne(1, BelowPUD(Shared));
    SumFive(BelowPGD(Shared));
  }

  lemma SharedMappings()
    ensures Locals(Shared) == 5 && Mappings(Shared) == 2
  {
    SharedPD();
    hide Larges, Tables, LinkWeights, Weights, Plus, SumOver, BelowPD;
    SumFive(Weights(Shared, OneIfLocal));
    SumFive(Plus(Weights(Shared, FramesOf), Weights(Shared, LargesOf)));
  }

  lemma SumFive(ws: seq<nat>)
    requires |ws| == 5
    ensures Sum(ws) == ws[0] + ws[1] + ws[2] + ws[3] + ws[4]
  {
    assert ws[1..][1..] == ws[2..] && ws[2..][1..] == ws[3..] && ws[3..][1..] == ws[4..] && ws[4..][1..] == [];
    assert Sum(ws[3..]) == ws[3] + Sum(ws[4..]);
    assert Sum(ws[1..]) == ws[1] + Sum(ws[2..]);
  }
}
