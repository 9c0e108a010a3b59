/**
 How the event server tells a client of events: a bit in a shared word for each event, and a
 notification whose badge collects the numbers of the words with news.

 The signaller's atomic or and its signal are separate steps, and so are the client's taking of
 the badge, its swap of each word and its handling of each bit.
 */
module EventBitfield {
  import opened BitWords

  const GROUP_BITS: nat := 64

  function Group(bit: nat): (g: nat) {
    bit / GROUP_BITS
  }

  // ----- The two operations on the shared words -----

  function Member(bit: nat): (m: nat) {
    bit % GROUP_BITS
  }

  lemma Place(group: nat, member: nat)
    requires member < GROUP_BITS
    ensures var b := group * GROUP_BITS + member; Group(b) == group && Member(b) == member
  {}

  /** Whether a bit is set in words of 64 bits. */
  predicate Has(words: seq<nat>, bit: nat) {
    Group(bit) < |words| && Bit(words[Group(bit)], Member(bit))
  }

  /** No bits beyond the width of a word. */
  ghost predicate AreWords(words: seq<nat>) {
    forall g, i: nat :: 0 <= g < |words| && Bit(words[g], i) ==> i < GROUP_BITS
  }

  class Bitfield {
    var words: seq<nat>

    /** fetch_or, reporting whether the bit was clear. */
    method SetBit(bit: nat) returns (rose: bool)
      requires AreWords(words) && Group(bit) < |words|
      modifies this
      ensures AreWords(words) && |words| == |old(words)|
      ensures rose == !Has(old(words), bit)
      ensures forall b: nat :: Has(words, b) <==> b == bit || Has(old(words), b)
    {
      hide Bit, WithBit;
      var was := words[Group(bit)];
      words := words[Group(bit) := WithBit(was, Member(bit), true)];
      forall i: nat ensures Bit(words[Group(bit)], i) <==> i == Member(bit) || Bit(was, i) {
        BitOfWith(was, Member(bit), true, i);
      }
      rose := !Bit(was, Member(bit));
    }

    /** clear: swaps out the words the badge names and hands on their bits, in ascending order. */
    method Clear(badge: nat) returns (handled: seq<nat>)
      requires AreWords(words) && forall g: nat :: Bit(badge, g) ==> g < |words|
      modifies this
      ensures AreWords(words) && |words| == |old(words)|
      ensures forall b: nat :: b in handled <==> Has(old(words), b) && Bit(badge, Group(b))
      ensures forall i, j :: 0 <= i < j < |handled| ==> handled[i] < handled[j]
      ensures forall b: nat :: Has(words, b) <==> Has(old(words), b) && !Bit(badge, Group(b))
    {
      hide Bit, Group, Member;
      var groups := Biterate(badge);
      handled := [];
      for k := 0 to |groups|
        invariant AreWords(words) && |words| == |old(words)|
        invariant forall g :: 0 <= g < |words| ==> words[g] == if g in groups[..k] then 0 else old(words)[g]
        invariant forall b: nat :: b in handled <==> Has(old(words), b) && Group(b) in groups[..k]
        invariant forall i, j :: 0 <= i < j < |handled| ==> handled[i] < handled[j]
      {
        var g := groups[k];
        assert g in groups && groups[..k + 1] == groups[..k] + [g];
        var members := words[g];
        words := words[g := 0];
        NoBitsAtAll();
        var bits := Biterate(members);
        var more := Handled(g, bits);
        GroupBits(old(words), g, bits, more);
        NextGroup(old(words), handled, more, groups[..k], g);
        handled := handled + more;
      }
      assert groups[..|groups|] == groups;
      NoBitsAtAll();
      forall b: nat ensures Has(words, b) <==> Has(old(words), b) && !Bit(badge, Group(b)) {
        assert Group(b) in groups <==> Bit(badge, Group(b));
      }
    }
  }

  lemma NoBitsAtAll()
    ensures forall i: nat :: !Bit(0, i)
  {
    forall i: nat ensures !Bit(0, i) {
      NoBits(i);
    }
  }

  /** The numbers of a group's bits. */
  method Handled(group: nat, members: seq<nat>) returns (bits: seq<nat>)
    ensures |bits| == |members| && forall i :: 0 <= i < |bits| ==> bits[i] == group * GROUP_BITS + members[i]
  {
    bits := [];
    for i := 0 to |members|
      invariant |bits| == i && forall j :: 0 <= j < i ==> bits[j] == group * GROUP_BITS + members[j]
    {
      bits := bits + [group * GROUP_BITS + members[i]];
    }
  }

  lemma GroupBits(words: seq<nat>, group: nat, members: seq<nat>, bits: seq<nat>)
    requires AreWords(words) && group < |words| && forall i: nat :: i in members <==> Bit(words[group], i)
    requires |bits| == |members| && forall i :: 0 <= i < |bits| ==> bits[i] == group * GROUP_BITS + members[i]
    ensures forall b: nat :: b in bits <==> Has(words, b) && Group(b) == group
  {
    hide Bit;
    forall b: nat ensures b in bits <==> Has(words, b) && Group(b) == group {
      if b in bits {
        var i :| 0 <= i < |bits| && bits[i] == b;
        assert members[i] in members;
        Place(group, members[i]);
      }
      if Has(words, b) && Group(b) == group {
        var i :| 0 <= i < |members| && members[i] == Member(b);
        assert bits[i] == b;
      }
    }
  }

  /** The bits of one more group come behind those of the groups before it. */
  lemma NextGroup(words: seq<nat>, handled: seq<nat>, more: seq<nat>, done: seq<nat>, group: nat)
    requires forall b: nat :: b in handled <==> Has(words, b) && Group(b) in done
    requires forall i, j :: 0 <= i < j < |handled| ==> handled[i] < handled[j]
    requires forall b: nat :: b in more <==> Has(words, b) && Group(b) == group
    requires forall i, j :: 0 <= i < j < |more| ==> more[i] < more[j]
    requires forall g :: g in done ==> g < group
    ensures forall b: nat :: b in handled + more <==> Has(words, b) && Group(b) in done + [group]
    ensures forall i, j :: 0 <= i < j < |handled + more| ==> (handled + more)[i] < (handled + more)[j]
  {
    hide Has;
    assert forall i :: 0 <= i < |handled| ==> handled[i] in handled;
    assert forall i :: 0 <= i < |more| ==> more[i] in more;
  }

  // ----- Signallers and client together -----

  datatype State = State(
    bits: set<nat>,             // the shared words
    badge: set<nat>,            // groups in the notification
    about: multiset<nat>,       // groups that signallers have still to signal
    todo: set<nat>,             // groups of the badge the client took and has still to swap
    holding: set<nat>,          // bits the client has swapped out and has still to handle
    raised: multiset<nat>,      // every clear-to-set transition so far
    handled: multiset<nat>)     // every bit handled so far

  datatype Step =
    | Set(bit: nat)
    | Signal(group: nat)
    | Take
    | Swap(group: nat)
    | Handle(bit: nat)

  predicate Enabled(s: State, step: Step) {
    match step
    case Set(_) => true
    case Signal(g) => g in s.about
    case Take => s.badge != {} && s.todo == {} && s.holding == {}
    case Swap(g) => g in s.todo && s.holding == {}
    case Handle(b) => b in s.holding
  }

  function Apply(s: State, step: Step): State {
    match step
    case Set(b) =>
      if b in s.bits then s
      else s.(bits := s.bits + {b}, raised := s.raised + multiset{b}, about := s.about + multiset{Group(b)})
    case Signal(g) => s.(about := s.about - multiset{g}, badge := s.badge + {g})
    case Take => s.(todo := s.badge, badge := {})
    case Swap(g) =>
      var members := set b | b in s.bits && Group(b) == g;
      s.(bits := s.bits - members, holding := members, todo := s.todo - {g})
    case Handle(b) => s.(holding := s.holding - {b}, handled := s.handled + multiset{b})
  }

  const INIT := State({}, {}, multiset{}, {}, {}, multiset{}, multiset{})

  /** What is raised is handled, held by the client, or still in the words: once each. */
  ghost predicate Accounted(s: State) {
    s.raised == s.handled + multiset(s.holding) + multiset(s.bits)
  }

  /** A set bit has its group in the badge, about to be signalled, or still to be swapped. */
  ghost predicate Announced(s: State) {
    forall b :: b in s.bits ==> Group(b) in s.badge || Group(b) in s.about || Group(b) in s.todo
  }

  lemma SplitSet(a: set<nat>, b: set<nat>)
    requires b <= a
    ensures multiset(a) == multiset(a - b) + multiset(b)
  {}

  lemma AddToSet(a: set<nat>, x: nat)
    requires x !in a
    ensures multiset(a + {x}) == multiset(a) + multiset{x}
  {}

  lemma StepKeeps(s: State, step: Step)
    requires Enabled(s, step) && Accounted(s) && Announced(s)
    ensures Accounted(Apply(s, step)) && Announced(Apply(s, step))
  {
    match step
    case Set(b) => if b !in s.bits { AddToSet(s.bits, b); }
    case Swap(g) => SplitSet(s.bits, set b | b in s.bits && Group(b) == g);
    case Handle(b) => SplitSet(s.holding, {b});
    case _ =>
  }

  ghost predicate IsRun(states: seq<State>, steps: seq<Step>) {
    && |states| == |steps| + 1 && states[0] == INIT
    && forall i :: 0 <= i < |steps| ==>
         Enabled(states[i], steps[i]) && states[i + 1] == Apply(states[i], steps[i])
  }

  /** Under every interleaving, every transition is accounted for once and every set bit announced. */
  lemma {:induction false} RunsDeliver(states: seq<State>, steps: seq<Step>, i: nat)
    requires IsRun(states, steps) && i < |states|
    ensures Accounted(states[i]) && Announced(states[i])
  {
    if 0 < i {
      RunsDeliver(states, steps, i - 1);
      StepKeeps(states[i - 1], steps[i - 1]);
    }
  }

  ghost predicate Leads(s: State, steps: seq<Step>, t: State)
    decreases |steps|
  {
    if steps == [] then s == t
    else Enabled(s, steps[0]) && !steps[0].Set? && Leads(Apply(s, steps[0]), steps[1..], t)
  }

  /** How much work is left, counted by what each step uses up. */
  ghost function Left(s: State): nat {
    4 * |s.about| + 3 * |s.badge| + 2 * |s.todo| + |s.bits| + |s.holding|
  }

  lemma SizeSplit(a: set<nat>, b: set<nat>)
    requires b <= a
    ensures |a - b| == |a| - |b|
  {
    assert a == (a - b) + b;
  }

  lemma SizeAdd(a: set<nat>, x: nat)
    ensures |a + {x}| <= |a| + 1
  {
    if x in a { assert a + {x} == a; }
  }

  lemma SizeTake(m: multiset<nat>, x: nat)
    requires x in m
    ensures |m - multiset{x}| == |m| - 1
  {}

  lemma SizeEmpty(a: set<nat>)
    ensures a != {} ==> 0 < |a|
  {}

  lemma StepUsesUp(s: State, step: Step)
    requires Enabled(s, step) && !step.Set?
    ensures Left(Apply(s, step)) < Left(s)
  {
    match step
    case Signal(g) =>
      SizeTake(s.about, g);
      SizeAdd(s.badge, g);
    case Take => SizeEmpty(s.badge);
    case Swap(g) =>
      SizeSplit(s.todo, {g});
      SizeSplit(s.bits, set b | b in s.bits && Group(b) == g);
    case Handle(b) => SizeSplit(s.holding, {b});
  }

  /** Whether signallers and client are done. */
  predicate Quiet(s: State) {
    s.about == multiset{} && s.badge == s.todo == s.holding == {}
  }

  /** A state that is not quiet has a step to take. */
  lemma NotQuietGoesOn(s: State) returns (step: Step)
    requires !Quiet(s)
    ensures Enabled(s, step) && !step.Set?
  {
    if s.holding != {} {
      var b :| b in s.holding;
      step := Handle(b);
    } else if s.todo != {} {
      var g :| g in s.todo;
      step := Step.Swap(g);
    } else if s.badge != {} {
      step := Take;
    } else {
      var g :| g in s.about;
      step := Signal(g);
    }
  }

  /**
   Once no new event comes, every schedule of the others ends within a bound, and where it can
   end every event raised has been handled.
   */
  lemma {:induction false} EverySchedule(s: State, steps: seq<Step>, t: State)
    requires Accounted(s) && Announced(s) && Leads(s, steps, t)
    ensures |steps| + Left(t) <= Left(s) && t.raised == s.raised
    ensures Accounted(t) && Announced(t)
    ensures Quiet(t) ==> t.handled == t.raised && t.bits == {}
    decreases |steps|
  {
    if steps == [] {
      assert Quiet(t) ==> forall b :: b !in t.bits;
    } else {
      StepKeeps(s, steps[0]);
      StepUsesUp(s, steps[0]);
      EverySchedule(Apply(s, steps[0]), steps[1..], t);
    }
  }
}
