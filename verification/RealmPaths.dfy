/**
 What the numbers in a realm's sizing count, said without them: the ways from a global directory
 down to a frame, and the table entries that map one.
 */
module RealmPaths {
  import opened Basics
  import opened RealmModel

  /**
   A way down: a global directory, the places in it, in the upper directory and in the directory,
   and for a small page the place in the table.
   */
  ghost predicate IsPath(m: Model, p: seq<nat>) {
    && 4 <= |p| && p[0] < |m| && m[p[0]].Local? && m[p[0]].body.PGD? && p[1] < |m[p[0]].body.puds|
    && var pud := m[p[0]].body.puds[p[1]];
    && IsTable(m, pud, OfPGD) && p[2] < |m[pud].body.pds|
    && var pd := m[pud].body.pds[p[2]];
    && IsTable(m, pd, OfPUD) && p[3] < |m[pd].body.entries|
    && match m[pd].body.entries[p[3]]
       case LargePage(_) => |p| == 4
       case Table(pt) => |p| == 5 && IsTable(m, pt, OfPD) && p[4] < |m[pt].body.frames|
  }

  /** An object and the place of an entry in it that maps a frame. */
  ghost predicate IsMapping(m: Model, p: seq<nat>) {
    && |p| == 2 && p[0] < |m| && m[p[0]].Local?
    && match m[p[0]].body
       case PT(frames) => p[1] < |frames|
       case PD(entries) => p[1] < |entries| && entries[p[1]].LargePage?
       case _ => false
  }

  // ----- Counting -----

  type Tails = set<seq<nat>>

  ghost function Sizes(ss: seq<Tails>): (ws: seq<nat>)
    ensures |ws| == |ss| && forall i :: 0 <= i < |ss| ==> ws[i] == |ss[i]|
  {
    seq(|ss|, i requires 0 <= i < |ss| => |ss[i]|)
  }

  /** Each tail behind the number of the set it is from. */
  ghost function Prefixed(ss: seq<Tails>): Tails {
    if ss == [] then {} else Prefixed(ss[..|ss| - 1]) + Under(|ss| - 1, ss[|ss| - 1])
  }

  ghost function Under(n: nat, tails: Tails): Tails {
    set t | t in tails :: [n] + t
  }

  lemma UnderHas(n: nat, tails: Tails, p: seq<nat>)
    ensures p in Under(n, tails) <==> p != [] && p[0] == n && p[1..] in tails
  {
    if p != [] && p[0] == n { assert p == [n] + p[1..]; }
  }

  lemma {:induction false} PrefixedHas(ss: seq<Tails>, p: seq<nat>)
    ensures p in Prefixed(ss) <==> p != [] && p[0] < |ss| && p[1..] in ss[p[0]]
  {
    if ss != [] {
      var n := |ss| - 1;
      PrefixedHas(ss[..n], p);
      UnderHas(n, ss[n], p);
      hide Under;
    }
  }

  lemma {:induction false} UnderSize(n: nat, tails: Tails)
    ensures |Under(n, tails)| == |tails|
    decreases |tails|
  {
    if tails != {} {
      var t :| t in tails;
      UnderSize(n, tails - {t});
      assert ([n] + t)[1..] == t;
      UnderHas(n, tails - {t}, [n] + t);
      assert Under(n, tails) == Under(n, tails - {t}) + {[n] + t};
    }
  }

  lemma {:induction false} SumSnoc(ws: seq<nat>, w: nat)
    ensures Sum(ws + [w]) == Sum(ws) + w
  {
    if ws == [] {
      assert [w][1..] == [];
    } else {
      assert (ws + [w])[1..] == ws[1..] + [w];
      SumSnoc(ws[1..], w);
    }
  }

  lemma {:induction false} PrefixedSize(ss: seq<Tails>)
    ensures |Prefixed(ss)| == Sum(Sizes(ss))
  {
    if ss != [] {
      var n := |ss| - 1;
      PrefixedSize(ss[..n]);
      PrefixedSnoc(ss, n);
      hide Prefixed, Under, Sum;
      SumSnoc(Sizes(ss[..n]), |ss[n]|);
    }
  }

  lemma PrefixedSnoc(ss: seq<Tails>, n: nat)
    requires |ss| == n + 1
    ensures |Prefixed(ss)| == |Prefixed(ss[..n])| + |ss[n]| && Sizes(ss) == Sizes(ss[..n]) + [|ss[n]|]
  {
    hide Prefixed, Under;
    PrefixedIs(ss, n);
    UnderSize(n, ss[n]);
    DisjointSizes(Prefixed(ss[..n]), Under(n, ss[n]));
    SizesSnoc(ss, n);
  }

  lemma SizesSnoc(ss: seq<Tails>, n: nat)
    requires |ss| == n + 1
    ensures Sizes(ss) == Sizes(ss[..n]) + [|ss[n]|]
  {
    hide Sizes;
    forall i | 0 <= i <= n ensures Sizes(ss)[i] == (Sizes(ss[..n]) + [|ss[n]|])[i] {}
  }

  lemma PrefixedIs(ss: seq<Tails>, n: nat)
    requires |ss| == n + 1
    ensures Prefixed(ss) == Prefixed(ss[..n]) + Under(n, ss[n])
    ensures forall p :: p in Prefixed(ss[..n]) ==> p !in Under(n, ss[n])
  {
    forall p | p in Prefixed(ss[..n]) ensures p !in Under(n, ss[n]) {
      PrefixedHas(ss[..n], p);
      UnderHas(n, ss[n], p);
    }
  }

  lemma DisjointSizes(a: Tails, b: Tails)
    requires forall p :: p in a ==> p !in b
    ensures |a + b| == |a| + |b|
  {
    assert a !! b;
  }

  // ----- Ways down from each object -----

  ghost function Singles(n: nat): (ss: seq<Tails>)
    ensures |ss| == n && forall i :: 0 <= i < n ==> ss[i] == {[]}
  {
    seq(n, _ => {[]})
  }

  ghost function FromPT(m: Model, at: nat): Tails {
    if IsTable(m, at, OfPD) then Prefixed(Singles(|m[at].body.frames|)) else {}
  }

  ghost function FromEntries(m: Model, es: seq<PDEntry>): (ss: seq<Tails>)
    ensures |ss| == |es|
    ensures forall i :: 0 <= i < |es| ==> ss[i] == if es[i].LargePage? then {[]} else FromPT(m, es[i].pt)
  {
    seq(|es|, i requires 0 <= i < |es| => if es[i].LargePage? then {[]} else FromPT(m, es[i].pt))
  }

  ghost function FromPD(m: Model, at: nat): Tails {
    if IsTable(m, at, OfPUD) then Prefixed(FromEntries(m, m[at].body.entries)) else {}
  }

  ghost function FromPDs(m: Model, pds: seq<nat>): (ss: seq<Tails>)
    ensures |ss| == |pds| && forall i :: 0 <= i < |pds| ==> ss[i] == FromPD(m, pds[i])
  {
    seq(|pds|, i requires 0 <= i < |pds| => FromPD(m, pds[i]))
  }

  ghost function FromPUD(m: Model, at: nat): Tails {
    if IsTable(m, at, OfPGD) then Prefixed(FromPDs(m, m[at].body.pds)) else {}
  }

  ghost function FromPUDs(m: Model, puds: seq<nat>): (ss: seq<Tails>)
    ensures |ss| == |puds| && forall i :: 0 <= i < |puds| ==> ss[i] == FromPUD(m, puds[i])
  {
    seq(|puds|, i requires 0 <= i < |puds| => FromPUD(m, puds[i]))
  }

  ghost function FromPGD(o: Object, m: Model): Tails {
    if o.Local? && o.body.PGD? then Prefixed(FromPUDs(m, o.body.puds)) else {}
  }

  ghost function Paths(m: Model): (ps: Tails) {
    Prefixed(seq(|m|, i requires 0 <= i < |m| => FromPGD(m[i], m)))
  }

  lemma PathsAre(m: Model, p: seq<nat>)
    ensures p in Paths(m) <==> IsPath(m, p)
  {
    hide Prefixed, FromPUD;
    PrefixedHas(seq(|m|, i requires 0 <= i < |m| => FromPGD(m[i], m)), p);
    if p != [] && p[0] < |m| && m[p[0]].Local? && m[p[0]].body.PGD? {
      var puds, q := m[p[0]].body.puds, p[1..];
      PrefixedHas(FromPUDs(m, puds), q);
      if q != [] && q[0] < |puds| {
        PathsFromPUD(m, puds[q[0]], q[1..]);
        assert q[1..] == p[2..];
      }
    }
  }

  lemma PathsFromPUD(m: Model, at: nat, p: seq<nat>)
    ensures p in FromPUD(m, at) <==>
      && 2 <= |p| && IsTable(m, at, OfPGD) && p[0] < |m[at].body.pds|
      && var pd := m[at].body.pds[p[0]];
      && IsTable(m, pd, OfPUD) && p[1] < |m[pd].body.entries|
      && match m[pd].body.entries[p[1]]
         case LargePage(_) => |p| == 2
         case Table(pt) => |p| == 3 && IsTable(m, pt, OfPD) && p[2] < |m[pt].body.frames|
  {
    hide Prefixed, FromPD;
    if IsTable(m, at, OfPGD) {
      PrefixedHas(FromPDs(m, m[at].body.pds), p);
      if p != [] && p[0] < |m[at].body.pds| {
        PathsFromPD(m, m[at].body.pds[p[0]], p[1..]);
      }
    }
  }

  lemma PathsFromPD(m: Model, at: nat, p: seq<nat>)
    ensures p in FromPD(m, at) <==>
      && 1 <= |p| && IsTable(m, at, OfPUD) && p[0] < |m[at].body.entries|
      && match m[at].body.entries[p[0]]
         case LargePage(_) => |p| == 1
         case Table(pt) => |p| == 2 && IsTable(m, pt, OfPD) && p[1] < |m[pt].body.frames|
  {
    hide Prefixed, FromPT;
    if IsTable(m, at, OfPUD) {
      var es := m[at].body.entries;
      PrefixedHas(FromEntries(m, es), p);
      assert p != [] ==> (p[1..] == [] <==> |p| == 1);
      if p != [] && p[0] < |es| && es[p[0]].Table? {
        PathsFromPT(m, es[p[0]].pt, p[1..]);
      }
    }
  }

  lemma PathsFromPT(m: Model, at: nat, p: seq<nat>)
    ensures p in FromPT(m, at) <==> |p| == 1 && IsTable(m, at, OfPD) && p[0] < |m[at].body.frames|
  {
    hide Prefixed;
    assert p != [] ==> (p[1..] == [] <==> |p| == 1);
    if IsTable(m, at, OfPD) { PrefixedHas(Singles(|m[at].body.frames|), p); }
  }

  // ----- The numbers -----

  lemma {:induction false} SumOnes(ws: seq<nat>)
    requires forall i :: 0 <= i < |ws| ==> ws[i] == 1
    ensures Sum(ws) == |ws|
  {
    if ws != [] { SumOnes(ws[1..]); }
  }

  lemma SizeFromPT(m: Model, at: nat)
    ensures |FromPT(m, at)| == Weight(BelowPT(m), at)
  {
    if IsTable(m, at, OfPD) {
      var n := |m[at].body.frames|;
      PrefixedSize(Singles(n));
      SumOnes(Sizes(Singles(n)));
    }
  }

  lemma {:induction false} SizeFromEntries(m: Model, es: seq<PDEntry>)
    ensures Sum(Sizes(FromEntries(m, es))) == Larges(es) + SumOver(Tables(es), BelowPT(m))
  {
    if es != [] {
      var ws := Sizes(FromEntries(m, es));
      assert ws[1..] == Sizes(FromEntries(m, es[1..]));
      SizeFromEntries(m, es[1..]);
      if es[0].Table? {
        SizeFromPT(m, es[0].pt);
        SumOverSplit([es[0].pt], Tables(es[1..]), BelowPT(m));
        SumOverOne(es[0].pt, BelowPT(m));
      } else {
        assert Tables(es) == Tables(es[1..]);
      }
    }
  }

  lemma SizeFromPD(m: Model, at: nat)
    ensures |FromPD(m, at)| == Weight(BelowPD(m), at)
  {
    SumOverOne(0, BelowPT(m));
    if IsTable(m, at, OfPUD) {
      PrefixedSize(FromEntries(m, m[at].body.entries));
      SizeFromEntries(m, m[at].body.entries);
    }
  }

  lemma {:induction false} SizeFromPDs(m: Model, pds: seq<nat>)
    ensures Sum(Sizes(FromPDs(m, pds))) == SumOver(pds, BelowPD(m))
  {
    if pds != [] {
      assert Sizes(FromPDs(m, pds))[1..] == Sizes(FromPDs(m, pds[1..]));
      SizeFromPDs(m, pds[1..]);
      SizeFromPD(m, pds[0]);
    }
  }

  lemma SizeFromPUD(m: Model, at: nat)
    ensures |FromPUD(m, at)| == Weight(BelowPUD(m), at)
  {
    SumOverOne(0, BelowPD(m));
    if IsTable(m, at, OfPGD) {
      PrefixedSize(FromPDs(m, m[at].body.pds));
      SizeFromPDs(m, m[at].body.pds);
    }
  }

  lemma {:induction false} SizeFromPUDs(m: Model, puds: seq<nat>)
    ensures Sum(Sizes(FromPUDs(m, puds))) == SumOver(puds, BelowPUD(m))
  {
    if puds != [] {
      assert Sizes(FromPUDs(m, puds))[1..] == Sizes(FromPUDs(m, puds[1..]));
      SizeFromPUDs(m, puds[1..]);
      SizeFromPUD(m, puds[0]);
    }
  }

  lemma SizeFromPGD(m: Model, i: nat)
    requires i < |m|
    ensures |FromPGD(m[i], m)| == BelowPGD(m)[i]
  {
    SumOverOne(0, BelowPUD(m));
    if m[i].Local? && m[i].body.PGD? {
      PrefixedSize(FromPUDs(m, m[i].body.puds));
      SizeFromPUDs(m, m[i].body.puds);
    }
  }

  /** The copies made are as many as there are ways from a global directory down to a frame. */
  lemma CopiesCountPaths(m: Model) returns (paths: set<seq<nat>>)
    ensures (forall p :: p in paths <==> IsPath(m, p)) && |paths| == Copies(m)
  {
    paths := Paths(m);
    forall p ensures p in paths <==> IsPath(m, p) {
      PathsAre(m, p);
    }
    var ss := seq(|m|, i requires 0 <= i < |m| => FromPGD(m[i], m));
    PrefixedSize(ss);
    forall i | 0 <= i < |m| ensures Sizes(ss)[i] == BelowPGD(m)[i] {
      SizeFromPGD(m, i);
    }
    assert Sizes(ss) == BelowPGD(m);
  }

  // ----- Mappings and objects -----

  ghost function LargeSingles(es: seq<PDEntry>): (ss: seq<Tails>)
    ensures |ss| == |es| && forall i :: 0 <= i < |es| ==> ss[i] == if es[i].LargePage? then {[]} else {}
  {
    seq(|es|, i requires 0 <= i < |es| => if es[i].LargePage? then {[]} else {})
  }

  lemma {:induction false} SizeLarges(es: seq<PDEntry>)
    ensures Sum(Sizes(LargeSingles(es))) == Larges(es)
  {
    if es != [] {
      assert Sizes(LargeSingles(es))[1..] == Sizes(LargeSingles(es[1..]));
      SizeLarges(es[1..]);
    }
  }

  ghost function MappingsIn(o: Object): Tails {
    if o.Extern? then {}
    else if o.body.PT? then Prefixed(Singles(|o.body.frames|))
    else if o.body.PD? then Prefixed(LargeSingles(o.body.entries))
    else {}
  }

  lemma SizeMappingsIn(o: Object)
    ensures |MappingsIn(o)| == FramesOf(o) + LargesOf(o)
  {
    if o.Local? && o.body.PT? {
      PrefixedSize(Singles(|o.body.frames|));
      SumOnes(Sizes(Singles(|o.body.frames|)));
    } else if o.Local? && o.body.PD? {
      PrefixedSize(LargeSingles(o.body.entries));
      SizeLarges(o.body.entries);
    }
  }

  /** The sizing counts the table entries that map a frame, reached or not, and the local objects. */
  lemma SizingCounts(m: Model) returns (mappings: set<seq<nat>>, locals: set<nat>)
    ensures (forall p :: p in mappings <==> IsMapping(m, p)) && |mappings| == Mappings(m)
    ensures (forall i: nat :: i in locals <==> i < |m| && m[i].Local?) && |locals| == Locals(m)
  {
    mappings := MappingsOf(m);
    locals := LocalsOf(m);
  }

  lemma MappingsOf(m: Model) returns (mappings: set<seq<nat>>)
    ensures (forall p :: p in mappings <==> IsMapping(m, p)) && |mappings| == Mappings(m)
  {
    hide MappingsIn, IsMapping, Weights, Plus, FramesOf, LargesOf, Prefixed;
    var ss := seq(|m|, i requires 0 <= i < |m| => MappingsIn(m[i]));
    mappings := Prefixed(ss);
    PrefixedSize(ss);
    var ws := Plus(Weights(m, FramesOf), Weights(m, LargesOf));
    forall i | 0 <= i < |m| ensures Sizes(ss)[i] == ws[i] {
      SizeMappingsIn(m[i]);
    }
    assert Sizes(ss) == ws;
    forall p ensures p in mappings <==> IsMapping(m, p) {
      PrefixedHas(ss, p);
      MappingIs(m, p);
    }
  }

  lemma MappingIs(m: Model, p: seq<nat>)
    ensures (p != [] && p[0] < |m| && p[1..] in MappingsIn(m[p[0]])) <==> IsMapping(m, p)
  {
    hide Prefixed;
    if p != [] && p[0] < |m| && m[p[0]].Local? {
      assert 2 <= |p| ==> (p[1..][1..] == [] <==> |p| == 2);
      match m[p[0]].body
      case PT(frames) => PrefixedHas(Singles(|frames|), p[1..]);
      case PD(entries) => PrefixedHas(LargeSingles(entries), p[1..]);
      case _ =>
    }
  }

  lemma {:induction false} LocalsOf(m: Model) returns (locals: set<nat>)
    ensures (forall i: nat :: i in locals <==> i < |m| && m[i].Local?) && |locals| == Locals(m)
  {
    locals := {};
    if m != [] {
      var n := |m| - 1;
      var before := LocalsOf(m[..n]);
      assert Weights(m, OneIfLocal) == Weights(m[..n], OneIfLocal) + [OneIfLocal(m[n])];
      SumSnoc(Weights(m[..n], OneIfLocal), OneIfLocal(m[n]));
      locals := if m[n].Local? then before + {n} else before;
    }
  }
}
