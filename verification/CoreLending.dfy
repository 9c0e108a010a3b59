/**
 How the resource server lends physical cores to the virtual nodes of realms, together with the
 subscription slots of the event server that it drives.

 A request that trips an assertion, an unwrap or an index ends the server: its method returns
 false, and nothing is said about the state it leaves.
 */
module CoreLending {
  import opened Basics

  type RealmId = nat

  datatype VirtualIndex = VirtualIndex(realm: RealmId, node: nat)

  /** tcbs holds the core each thread is scheduled on. */
  datatype VirtualNode = VirtualNode(physical: Option<nat>, tcbs: seq<nat>)

  datatype Condition = HostEvent | Timeout

  /** What a host core sees: it gives itself away, and later is resumed. */
  datatype Event = Yielded(core: nat) | Resumed(core: nat, why: Condition)

  // ----- Who has which core -----

  type Realms = map<RealmId, seq<VirtualNode>>

  predicate Has(realms: Realms, at: VirtualIndex) {
    at.realm in realms && at.node < |realms[at.realm]|
  }

  function At(realms: Realms, at: VirtualIndex): (v: VirtualNode)
    requires Has(realms, at)
  {
    realms[at.realm][at.node]
  }

  function With(realms: Realms, at: VirtualIndex, v: VirtualNode): (rs: Realms)
    requires Has(realms, at)
  {
    realms[at.realm := realms[at.realm][at.node := v]]
  }

  lemma WithAt(realms: Realms, at: VirtualIndex, v: VirtualNode, a: VirtualIndex)
    requires Has(realms, at)
    ensures Has(With(realms, at, v), a) <==> Has(realms, a)
    ensures Has(realms, a) ==> At(With(realms, at, v), a) == if a == at then v else At(realms, a)
  {}

  /** The threads of a virtual node run on the core it was lent, or else on the idle core. */
  ghost predicate Scheduled(v: VirtualNode, cores: nat) {
    forall i :: 0 <= i < |v.tcbs| ==> v.tcbs[i] == if v.physical.Some? then v.physical.value else cores
  }

  /** The two assignments are inverse to each other. */
  ghost predicate Inverse(realms: Realms, physical: seq<Option<VirtualIndex>>) {
    && (forall n :: 0 <= n < |physical| && physical[n].Some? ==>
          Has(realms, physical[n].value) && At(realms, physical[n].value).physical == Some(n))
    && (forall a :: Has(realms, a) && At(realms, a).physical.Some? ==>
          var n := At(realms, a).physical.value; n < |physical| && physical[n] == Some(a))
  }

  ghost predicate AllScheduled(realms: Realms, cores: nat) {
    forall a :: Has(realms, a) ==> Scheduled(At(realms, a), cores)
  }

  lemma LendKeepsInverse(realms: Realms, physical: seq<Option<VirtualIndex>>, n: nat, at: VirtualIndex, v: VirtualNode)
    requires Inverse(realms, physical) && n < |physical| && physical[n].None?
    requires Has(realms, at) && At(realms, at).physical.None? && v.physical == Some(n)
    ensures Inverse(With(realms, at, v), physical[n := Some(at)])
  {
    var rs, ps := With(realms, at, v), physical[n := Some(at)];
    forall m | 0 <= m < |ps| && ps[m].Some?
      ensures Has(rs, ps[m].value) && At(rs, ps[m].value).physical == Some(m)
    {
      WithAt(realms, at, v, ps[m].value);
    }
    forall a | Has(rs, a) && At(rs, a).physical.Some?
      ensures var m := At(rs, a).physical.value; m < |ps| && ps[m] == Some(a)
    {
      WithAt(realms, at, v, a);
    }
  }

  lemma ReturnKeepsInverse(realms: Realms, physical: seq<Option<VirtualIndex>>, n: nat, v: VirtualNode)
    requires Inverse(realms, physical) && n < |physical| && physical[n].Some? && v.physical.None?
    ensures Has(realms, physical[n].value)
    ensures Inverse(With(realms, physical[n].value, v), physical[n := None])
  {
    var at := physical[n].value;
    var rs, ps := With(realms, at, v), physical[n := None];
    forall m | 0 <= m < |ps| && ps[m].Some?
      ensures Has(rs, ps[m].value) && At(rs, ps[m].value).physical == Some(m)
    {
      WithAt(realms, at, v, ps[m].value);
    }
    forall a | Has(rs, a) && At(rs, a).physical.Some?
      ensures var m := At(rs, a).physical.value; m < |ps| && ps[m] == Some(a)
    {
      WithAt(realms, at, v, a);
    }
  }

  lemma WithKeepsScheduled(realms: Realms, cores: nat, at: VirtualIndex, v: VirtualNode)
    requires AllScheduled(realms, cores) && Has(realms, at) && Scheduled(v, cores)
    ensures AllScheduled(With(realms, at, v), cores)
  {
    forall a | Has(With(realms, at, v), a) ensures Scheduled(At(With(realms, at, v), a), cores) {
      WithAt(realms, at, v, a);
    }
  }

  /** Virtual nodes that hold no core. */
  ghost predicate AtRest(vs: seq<VirtualNode>) {
    forall i :: 0 <= i < |vs| ==> vs[i].physical.None?
  }

  lemma AddKeepsInverse(realms: Realms, physical: seq<Option<VirtualIndex>>, cores: nat, r: RealmId,
                        vs: seq<VirtualNode>)
    requires Inverse(realms, physical) && AllScheduled(realms, cores) && r !in realms && AtRest(vs)
    requires forall i :: 0 <= i < |vs| ==> Scheduled(vs[i], cores)
    ensures Inverse(realms[r := vs], physical) && AllScheduled(realms[r := vs], cores)
  {
    var rs := realms[r := vs];
    assert forall a: VirtualIndex :: a.realm != r && Has(rs, a) ==> Has(realms, a) && At(rs, a) == At(realms, a);
    assert forall a: VirtualIndex :: a.realm == r && Has(rs, a) ==> At(rs, a) == vs[a.node];
    assert forall a: VirtualIndex :: Has(realms, a) ==> Has(rs, a) && At(rs, a) == At(realms, a);
  }

  lemma RemoveKeepsInverse(realms: Realms, physical: seq<Option<VirtualIndex>>, cores: nat, r: RealmId)
    requires Inverse(realms, physical) && AllScheduled(realms, cores) && r in realms && AtRest(realms[r])
    ensures Inverse(realms - {r}, physical) && AllScheduled(realms - {r}, cores)
  {
    var rs := realms - {r};
    assert forall a :: Has(rs, a) ==> Has(realms, a) && At(rs, a) == At(realms, a);
    forall n | 0 <= n < |physical| && physical[n].Some?
      ensures Has(rs, physical[n].value) && At(rs, physical[n].value).physical == Some(n)
    {
      var a := physical[n].value;
      assert At(realms, a).physical == Some(n);
      assert a.realm != r;
    }
  }

  // ----- What the host sees -----

  /** Whether core n's last event is a yield still unanswered. */
  ghost predicate Away(log: seq<Event>, n: nat) {
    log != [] &&
    var e := log[|log| - 1];
    if e.core == n then e.Yielded? else Away(log[..|log| - 1], n)
  }

  /** Every yield comes from a core that is there, every resume goes to one that is away. */
  ghost predicate Paired(log: seq<Event>) {
    log == [] ||
    var e, before := log[|log| - 1], log[..|log| - 1];
    Paired(before) && e.Yielded? == !Away(before, e.core)
  }

  lemma LogOne(log: seq<Event>, e: Event, n: nat)
    ensures Away(log + [e], n) == if e.core == n then e.Yielded? else Away(log, n)
    ensures Paired(log + [e]) == (Paired(log) && e.Yielded? == !Away(log, e.core))
  {
    assert (log + [e])[..|log|] == log;
  }

  ghost function Yields(log: seq<Event>, n: nat): nat {
    if log == [] then 0 else
    Yields(log[..|log| - 1], n) + if log[|log| - 1] == Yielded(n) then 1 else 0
  }

  ghost function Resumes(log: seq<Event>, n: nat): nat {
    if log == [] then 0 else
    Resumes(log[..|log| - 1], n) + if log[|log| - 1].Resumed? && log[|log| - 1].core == n then 1 else 0
  }

  /** Each yield gets at most one resume, and only a lent core's yield has none yet. */
  lemma {:induction false} YieldsAnswered(log: seq<Event>, n: nat)
    requires Paired(log)
    ensures Yields(log, n) == Resumes(log, n) + if Away(log, n) then 1 else 0
  {
    if log != [] {
      YieldsAnswered(log[..|log| - 1], n);
    }
  }

  // ----- The event server's part -----

  class EventServer {
    const cores: nat
    const nodes: map<RealmId, nat>      // the notifications of each realm there can be
    var realms: set<RealmId>
    var hostSlots: seq<Option<nat>>     // who is told of the next event of each host core
    var subscriptions: seq<bool>        // whether the resource server's entry holds a slot
    var signalled: seq<bool>            // host event notifications not yet received

    ghost predicate Valid()
      reads this
    {
      && |hostSlots| == |subscriptions| == |signalled| == cores
      && forall r :: r in realms ==> r in nodes
    }

    constructor (cores: nat, nodes: map<RealmId, nat>)
      ensures Valid() && this.cores == cores && this.nodes == nodes && realms == {}
      ensures forall n :: 0 <= n < cores ==> hostSlots[n] == None && !subscriptions[n] && !signalled[n]
    {
      this.cores, this.nodes := cores, nodes;
      realms := {};
      hostSlots, subscriptions, signalled := seq(cores, _ => None), seq(cores, _ => false), seq(cores, _ => false);
    }

    method CreateRealm(r: RealmId, numNodes: nat) returns (ok: bool)
      requires Valid()
      modifies this`realms
      ensures ok == (r !in old(realms) && r in nodes && numNodes <= nodes[r])
      ensures ok ==> Valid() && realms == old(realms) + {r}
    {
      if r in realms || r !in nodes || nodes[r] < numNodes { return false; }
      realms := realms + {r};
      return true;
    }

    method DestroyRealm(r: RealmId) returns (ok: bool)
      requires Valid()
      modifies this`realms
      ensures Valid() && ok == (r in old(realms)) && realms == old(realms) - {r}
    {
      ok := r in realms;
      realms := realms - {r};
    }

    method Subscribe(n: nat) returns (ok: bool)
      requires Valid() && n < cores
      modifies this`hostSlots, this`subscriptions
      ensures ok == (old(hostSlots[n]).None? && !old(subscriptions[n]))
      ensures ok ==> Valid() && hostSlots == old(hostSlots)[n := Some(n)]
      ensures ok ==> subscriptions == old(subscriptions)[n := true]
    {
      var previous := hostSlots[n];
      hostSlots := hostSlots[n := Some(n)];
      if previous.Some? || subscriptions[n] { return false; }
      subscriptions := subscriptions[n := true];
      return true;
    }

    method Unsubscribe(n: nat)
      requires Valid() && n < cores
      modifies this`hostSlots, this`subscriptions
      ensures Valid() && hostSlots == old(hostSlots)[n := None] && subscriptions == old(subscriptions)[n := false]
    {
      hostSlots := hostSlots[n := None];
      subscriptions := subscriptions[n := false];
    }

    /** A new event for host core n tells the subscriber, once. */
    method NotifySubscriber(n: nat)
      requires Valid() && n < cores && (hostSlots[n].Some? ==> hostSlots[n].value < cores)
      modifies this`hostSlots, this`signalled
      ensures Valid() && hostSlots == old(hostSlots)[n := None]
      ensures old(hostSlots[n]).Some? ==> signalled == old(signalled)[old(hostSlots[n]).value := true]
      ensures old(hostSlots[n]).None? ==> signalled == old(signalled)
    {
      var subscriber := hostSlots[n];
      hostSlots := hostSlots[n := None];
      if subscriber.Some? {
        signalled := signalled[subscriber.value := true];
      }
    }

    /** The resource server takes the notification. */
    method Receive(n: nat)
      requires Valid() && n < cores
      modifies this`signalled
      ensures Valid() && signalled == old(signalled)[n := false]
    {
      signalled := signalled[n := false];
    }
  }

  /** Everything about one core agrees on whether it is lent. */
  ghost predicate CoreAgrees(lent: bool, reply: bool, subscribed: bool, slot: Option<nat>, signalled: bool,
                             away: bool, n: nat)
  {
    && reply == lent && subscribed == lent && away == lent
    && (slot.Some? ==> lent && slot.value == n)
    && (lent ==> slot.Some? || signalled)
  }

  // ----- What a run comes to -----

  /** The threads of each virtual node. */
  function Shape(vs: seq<VirtualNode>): (shape: seq<nat>)
    ensures |shape| == |vs| && forall i :: 0 <= i < |vs| ==> shape[i] == |vs[i].tcbs|
  {
    seq(|vs|, i requires 0 <= i < |vs| => |vs[i].tcbs|)
  }

  function Shapes(realms: Realms): (shapes: map<RealmId, seq<nat>>) {
    map r | r in realms :: Shape(realms[r])
  }

  lemma ShapesWith(realms: Realms, at: VirtualIndex, v: VirtualNode)
    requires Has(realms, at) && |v.tcbs| == |At(realms, at).tcbs|
    ensures Shapes(With(realms, at, v)) == Shapes(realms)
  {
    assert Shape(With(realms, at, v)[at.realm]) == Shape(realms[at.realm]);
  }

  lemma ShapesAdd(realms: Realms, r: RealmId, vs: seq<VirtualNode>, shape: seq<nat>)
    requires |vs| == |shape| && forall i :: 0 <= i < |vs| ==> |vs[i].tcbs| == shape[i]
    ensures Shapes(realms[r := vs]) == Shapes(realms)[r := shape]
  {
    assert Shape(vs) == shape;
  }

  /**
   What hosts can tell: the realms there are, declared or on their way, who has which core, which
   cores have been told of a host event, and the yields and resumes so far.
   */
  datatype Lending = Lending(
    shapes: map<RealmId, seq<nat>>,
    declared: set<RealmId>,
    partial: map<RealmId, seq<nat>>,
    lent: seq<Option<VirtualIndex>>,
    told: seq<bool>,
    log: seq<Event>)

  ghost predicate Exists(l: Lending, at: VirtualIndex) {
    at.realm in l.shapes && at.node < |l.shapes[at.realm]|
  }

  ghost predicate InUse(l: Lending, r: RealmId) {
    exists n :: 0 <= n < |l.lent| && l.lent[n].Some? && l.lent[n].value.realm == r
  }

  /** Core n goes back to its host, if it was lent. */
  ghost function Returned(l: Lending, n: nat, why: Condition): Lending
    requires n < |l.lent|
  {
    if l.lent[n].None? then l else l.(lent := l.lent[n := None], log := l.log + [Resumed(n, why)])
  }

  /** A request in these terms; none if it ends the server. */
  ghost function Answer(l: Lending, nodes: map<RealmId, nat>, q: Request): Option<Lending>
    requires |l.told| == |l.lent|
  {
    match q
    case Declare(r) =>
      if r in l.declared || r in l.shapes then None else Some(l.(declared := l.declared + {r}))
    case RealizeStart(r, shape) =>
      if r !in l.declared then None
      else Some(l.(declared := l.declared - {r}, partial := l.partial[r := shape]))
    case RealizeFinish(r) =>
      if r !in l.partial || r in l.shapes || r !in nodes || nodes[r] < 1 then None
      else Some(l.(partial := l.partial - {r}, shapes := l.shapes[r := l.partial[r]]))
    case Destroy(r) =>
      if InUse(l, r) then None else Some(l.(shapes := l.shapes - {r}))
    case YieldTo(n, at) =>
      if !(n < |l.lent| && l.lent[n].None? && Exists(l, at) && Some(at) !in l.lent) then None
      else Some(l.(lent := l.lent[n := Some(at)], log := l.log + [Yielded(n)]))
    case TellHostEvent(n) =>
      if |l.lent| <= n then None else Some(l.(told := l.told[n := l.told[n] || l.lent[n].Some?]))
    case HostEventAt(n) =>
      if |l.lent| <= n then None else Some(Returned(l, n, HostEvent).(told := l.told[n := false]))
    case TimeoutAt(n) =>
      if |l.lent| <= n then None else Some(Returned(l, n, Timeout))
  }

  ghost function AnswerAll(l: Lending, nodes: map<RealmId, nat>, qs: seq<Request>): (r: Option<Lending>)
    requires |l.told| == |l.lent|
    ensures r.Some? ==> |r.value.told| == |r.value.lent| == |l.lent|
    ensures r.Some? ==> l.log <= r.value.log
  {
    if qs == [] then Some(l) else
    var before := AnswerAll(l, nodes, qs[..|qs| - 1]);
    if before.None? then None else Answer(before.value, nodes, qs[|qs| - 1])
  }

  /**
   A realm from its declaration to its destruction, with a core lent to its first virtual node and
   taken back by the timer: every request is answered, and all that is left of it is in the log.
   */
  lemma Lifecycle(l: Lending, nodes: map<RealmId, nat>, r: RealmId, shape: seq<nat>, n: nat)
    requires |l.told| == |l.lent| && n < |l.lent| && l.lent[n].None? && shape != []
    requires r !in l.declared && r !in l.partial && r !in l.shapes && r in nodes && 1 <= nodes[r] && !InUse(l, r)
    ensures AnswerAll(l, nodes, [Declare(r)] + [RealizeStart(r, shape)] + [RealizeFinish(r)] +
                                [YieldTo(n, VirtualIndex(r, 0))] + [TimeoutAt(n)] + [Destroy(r)]) ==
      Some(l.(log := l.log + [Yielded(n)] + [Resumed(n, Timeout)]))
  {
    hide Answer, AnswerAll, InUse;
    var at := VirtualIndex(r, 0);
    var l1 := l.(declared := l.declared + {r});
    var l2 := l.(partial := l.partial[r := shape]);
    var l3 := l.(shapes := l.shapes[r := shape]);
    var l4 := l3.(lent := l.lent[n := Some(at)], log := l.log + [Yielded(n)]);
    var l5 := l3.(log := l.log + [Yielded(n)] + [Resumed(n, Timeout)]);
    NothingAsked(l, nodes);
    Realized(l, nodes, r, shape);
    Answered(l, nodes, [], l, Declare(r), l1);
    assert [] + [Declare(r)] == [Declare(r)];
    Answered(l, nodes, [Declare(r)], l1, RealizeStart(r, shape), l2);
    Answered(l, nodes, [Declare(r)] + [RealizeStart(r, shape)], l2, RealizeFinish(r), l3);
    var qs := [Declare(r)] + [RealizeStart(r, shape)] + [RealizeFinish(r)];
    LentAndReturned(l, nodes, r, shape, n);
    Answered(l, nodes, qs, l3, YieldTo(n, at), l4);
    Answered(l, nodes, qs + [YieldTo(n, at)], l4, TimeoutAt(n), l5);
    Answered(l, nodes, qs + [YieldTo(n, at)] + [TimeoutAt(n)], l5, Destroy(r), l5.(shapes := l.shapes));
  }

  lemma NothingAsked(l: Lending, nodes: map<RealmId, nat>)
    requires |l.told| == |l.lent|
    ensures AnswerAll(l, nodes, []) == Some(l)
  {}

  lemma Realized(l: Lending, nodes: map<RealmId, nat>, r: RealmId, shape: seq<nat>)
    requires |l.told| == |l.lent|
    requires r !in l.declared && r !in l.partial && r !in l.shapes && r in nodes && 1 <= nodes[r]
    ensures Answer(l, nodes, Declare(r)) == Some(l.(declared := l.declared + {r}))
    ensures Answer(l.(declared := l.declared + {r}), nodes, RealizeStart(r, shape)) ==
      Some(l.(partial := l.partial[r := shape]))
    ensures Answer(l.(partial := l.partial[r := shape]), nodes, RealizeFinish(r)) ==
      Some(l.(shapes := l.shapes[r := shape]))
  {
    assert l.declared + {r} - {r} == l.declared;
    assert l.partial[r := shape] - {r} == l.partial;
  }

  lemma LentAndReturned(l: Lending, nodes: map<RealmId, nat>, r: RealmId, shape: seq<nat>, n: nat)
    requires |l.told| == |l.lent| && n < |l.lent| && l.lent[n].None? && shape != [] && r !in l.shapes && !InUse(l, r)
    ensures var l3 := l.(shapes := l.shapes[r := shape]);
      var l4 := l3.(lent := l.lent[n := Some(VirtualIndex(r, 0))], log := l.log + [Yielded(n)]);
      var l5 := l3.(log := l.log + [Yielded(n)] + [Resumed(n, Timeout)]);
      && Answer(l3, nodes, YieldTo(n, VirtualIndex(r, 0))) == Some(l4)
      && Answer(l4, nodes, TimeoutAt(n)) == Some(l5)
      && Answer(l5, nodes, Destroy(r)) == Some(l5.(shapes := l.shapes))
  {
    assert l.lent[n := Some(VirtualIndex(r, 0))][n := None] == l.lent;
    assert l.shapes[r := shape] - {r} == l.shapes;
    assert Some(VirtualIndex(r, 0)) !in l.lent;
  }

  lemma Answered(l: Lending, nodes: map<RealmId, nat>, qs: seq<Request>, a: Lending, q: Request, b: Lending)
    requires |l.told| == |l.lent| && |a.told| == |a.lent|
    requires AnswerAll(l, nodes, qs) == Some(a) && Answer(a, nodes, q) == Some(b)
    ensures AnswerAll(l, nodes, qs + [q]) == Some(b)
  {
    hide Answer;
    assert (qs + [q])[..|qs|] == qs;
  }

  datatype Request =
    | Declare(realm: RealmId)
    | RealizeStart(realm: RealmId, shape: seq<nat>)    // the threads of each virtual core
    | RealizeFinish(realm: RealmId)
    | Destroy(realm: RealmId)
    | YieldTo(core: nat, at: VirtualIndex)
    | TellHostEvent(core: nat)                          // the event server has an event for a host core
    | HostEventAt(core: nat)
    | TimeoutAt(core: nat)

  class ResourceServer {
    const cores: nat
    const events: EventServer
    var realms: Realms
    var partialSpecs: set<RealmId>
    var partialRealms: map<RealmId, seq<nat>>
    var physical: seq<Option<VirtualIndex>>
    var reply: seq<bool>               // whether a core's reply slot holds a caller
    var log: seq<Event>

    ghost predicate Valid()
      reads this, events
    {
      && events.cores == cores && events.Valid() && events.realms == realms.Keys
      && |physical| == |reply| == cores
      && Inverse(realms, physical) && AllScheduled(realms, cores) && Paired(log)
      && (forall n :: 0 <= n < cores ==> Agrees(n))
    }

    ghost predicate Agrees(n: nat)
      reads this, events
      requires n < |physical| == |reply| && n < |events.hostSlots| == |events.subscriptions| == |events.signalled|
    {
      CoreAgrees(physical[n].Some?, reply[n], events.subscriptions[n], events.hostSlots[n], events.signalled[n],
                 Away(log, n), n)
    }

    constructor (cores: nat, events: EventServer)
      requires events.cores == cores && events.Valid() && events.realms == {}
      requires forall n :: 0 <= n < cores ==> events.hostSlots[n] == None && !events.subscriptions[n]
      ensures Valid() && this.cores == cores && this.events == events && realms == map[] && log == []
    {
      this.cores, this.events := cores, events;
      realms, partialSpecs, partialRealms := map[], {}, map[];
      physical, reply, log := seq(cores, _ => None), seq(cores, _ => false), [];
    }

    /** Puts every thread of a virtual node on core. */
    method Schedule(tcbs: seq<nat>, core: nat) returns (moved: seq<nat>)
      ensures |moved| == |tcbs| && forall i :: 0 <= i < |moved| ==> moved[i] == core
    {
      moved := tcbs;
      for i := 0 to |tcbs|
        invariant |moved| == |tcbs| && forall j :: 0 <= j < i ==> moved[j] == core
      {
        moved := moved[i := core];
      }
    }

    method YieldTo(n: nat, at: VirtualIndex) returns (ok: bool)
      requires Valid()
      modifies this, events`hostSlots, events`subscriptions
      ensures ok == (n < cores && old(physical)[n].None? && old(Has(realms, at) && At(realms, at).physical.None?))
      ensures ok ==> Valid()
      ensures ok ==> physical == old(physical)[n := Some(at)] && log == old(log) + [Yielded(n)]
      ensures ok ==> Has(realms, at) && realms == With(old(realms), at, At(realms, at))
      ensures ok ==> At(realms, at).physical == Some(n) && Shapes(realms) == Shapes(old(realms))
      ensures partialSpecs == old(partialSpecs) && partialRealms == old(partialRealms)
    {
      if cores <= n || reply[n] || physical[n].Some? {
        assert n < cores ==> Agrees(n);
        return false;
      }
      assert Agrees(n);
      reply := reply[n := true];
      physical := physical[n := Some(at)];
      if !Has(realms, at) { return false; }
      var v := At(realms, at);
      if v.physical.Some? { return false; }
      var tcbs := Schedule(v.tcbs, n);
      v := VirtualNode(Some(n), tcbs);
      LendKeepsInverse(realms, old(physical), n, at, v);
      ShapesWith(realms, at, v);
      WithKeepsScheduled(realms, cores, at, v);
      realms := With(realms, at, v);
      ok := events.Subscribe(n);
      log := log + [Yielded(n)];
      forall m | 0 <= m < cores ensures Agrees(m) {
        assert old(Agrees(m));
        LogOne(old(log), Yielded(n), m);
      }
      LogOne(old(log), Yielded(n), n);
    }

    /** What host_event and timeout do: only a lent core is taken back and its host resumed. */
    method TakeBack(n: nat, why: Condition)
      requires Valid() && n < cores
      modifies this`realms, this`physical, this`reply, this`log, events`hostSlots, events`subscriptions
      ensures Valid() && physical == old(physical)[n := None]
      ensures if old(physical)[n].None? then realms == old(realms) && log == old(log)
        else log == old(log) + [Resumed(n, why)] && Has(realms, old(physical)[n].value) &&
             realms == With(old(realms), old(physical)[n].value, At(realms, old(physical)[n].value)) &&
             At(realms, old(physical)[n].value).physical == None
      ensures Shapes(realms) == Shapes(old(realms))
    {
      if physical[n].None? { return; }
      assert Agrees(n);
      var at := physical[n].value;
      physical := physical[n := None];
      var v := At(realms, at);
      var tcbs := Schedule(v.tcbs, cores);
      v := VirtualNode(None, tcbs);
      ReturnKeepsInverse(realms, old(physical), n, v);
      ShapesWith(realms, at, v);
      WithKeepsScheduled(realms, cores, at, v);
      realms := With(realms, at, v);
      events.Unsubscribe(n);
      reply := reply[n := false];
      log := log + [Resumed(n, why)];
      forall m | 0 <= m < cores ensures Agrees(m) {
        assert old(Agrees(m));
        LogOne(old(log), Resumed(n, why), m);
      }
      LogOne(old(log), Resumed(n, why), n);
    }

    method TellHostEvent(n: nat)
      requires Valid() && n < cores
      modifies events`hostSlots, events`signalled
      ensures Valid()
      ensures events.signalled == old(events.signalled)[n := old(events.signalled)[n] || physical[n].Some?]
    {
      assert Agrees(n);
      events.NotifySubscriber(n);
      forall m | 0 <= m < cores ensures Agrees(m) {
        assert old(Agrees(m));
      }
    }

    method HostEventAt(n: nat)
      requires Valid() && n < cores
      modifies this`realms, this`physical, this`reply, this`log
      modifies events`hostSlots, events`subscriptions, events`signalled
      ensures Valid() && physical == old(physical)[n := None] && Shapes(realms) == Shapes(old(realms))
      ensures log == old(log) + if old(physical)[n].Some? then [Resumed(n, HostEvent)] else []
      ensures events.signalled == old(events.signalled)[n := false]
    {
      TakeBack(n, HostEvent);
      label Before:
      events.Receive(n);
      forall m | 0 <= m < cores ensures Agrees(m) {
        assert old@Before(Agrees(m));
      }
    }

    method Declare(r: RealmId) returns (ok: bool)
      requires Valid()
      modifies this`partialSpecs
      ensures Valid() && ok == (r !in old(partialSpecs) && r !in realms)
      ensures ok ==> partialSpecs == old(partialSpecs) + {r}
    {
      if r in partialSpecs || r in realms { return false; }
      partialSpecs := partialSpecs + {r};
      forall m | 0 <= m < cores ensures Agrees(m) {
        assert old(Agrees(m));
      }
      return true;
    }

    method RealizeStart(r: RealmId, shape: seq<nat>) returns (ok: bool)
      requires Valid()
      modifies this`partialSpecs, this`partialRealms
      ensures Valid() && ok == (r in old(partialSpecs))
      ensures ok ==> partialSpecs == old(partialSpecs) - {r} && partialRealms == old(partialRealms)[r := shape]
    {
      if r !in partialSpecs { return false; }
      partialSpecs := partialSpecs - {r};
      partialRealms := partialRealms[r := shape];
      forall m | 0 <= m < cores ensures Agrees(m) {
        assert old(Agrees(m));
      }
      return true;
    }

    /** The virtual nodes of a new realm, with every thread on the idle core. */
    method NewNodes(shape: seq<nat>) returns (vs: seq<VirtualNode>)
      ensures |vs| == |shape| && AtRest(vs)
      ensures forall i :: 0 <= i < |vs| ==> |vs[i].tcbs| == shape[i] && Scheduled(vs[i], cores)
    {
      vs := [];
      for i := 0 to |shape|
        invariant |vs| == i && AtRest(vs)
        invariant forall j :: 0 <= j < i ==> |vs[j].tcbs| == shape[j] && Scheduled(vs[j], cores)
      {
        var tcbs := Schedule(seq(shape[i], _ => 0), cores);
        vs := vs + [VirtualNode(None, tcbs)];
      }
    }

    method RealizeFinish(r: RealmId) returns (ok: bool)
      requires Valid()
      modifies this`realms, this`partialRealms, events`realms
      ensures ok == (r in old(partialRealms) && r !in old(realms) && r in events.nodes && 1 <= events.nodes[r])
      ensures ok ==> Valid() && partialRealms == old(partialRealms) - {r}
      ensures ok ==> r in realms && AtRest(realms[r]) && realms == old(realms)[r := realms[r]]
      ensures ok ==> Shapes(realms) == Shapes(old(realms))[r := old(partialRealms)[r]]
    {
      if r !in partialRealms { return false; }
      var vs := NewNodes(partialRealms[r]);
      partialRealms := partialRealms - {r};
      realms := realms[r := vs];
      ok := events.CreateRealm(r, 1);
      if ok {
        AddKeepsInverse(old(realms), physical, cores, r, vs);
        ShapesAdd(old(realms), r, vs, old(partialRealms)[r]);
        forall m | 0 <= m < cores ensures Agrees(m) {
          assert old(Agrees(m));
        }
      }
    }

    method Destroy(r: RealmId) returns (ok: bool)
      requires Valid()
      modifies this`realms, events`realms
      ensures ok == (r in old(realms) ==> AtRest(old(realms)[r]))
      ensures ok ==> Valid() && realms == old(realms) - {r}
    {
      if r !in realms {
        assert realms == realms - {r};
        return true;
      }
      var vs := realms[r];
      realms := realms - {r};
      for i := 0 to |vs|
        invariant forall j :: 0 <= j < i ==> vs[j].physical.None?
      {
        if vs[i].physical.Some? { return false; }
      }
      RemoveKeepsInverse(old(realms), physical, cores, r);
      ok := events.DestroyRealm(r);
      forall m | 0 <= m < cores ensures Agrees(m) {
        assert old(Agrees(m));
      }
    }

    ghost function Now(): Lending
      reads this, events
    {
      Lending(Shapes(realms), partialSpecs, partialRealms, physical, events.signalled, log)
    }

    /** Virtual nodes have a core exactly if some core is lent to them. */
    lemma LentTo(at: VirtualIndex)
      requires Valid()
      ensures Exists(Now(), at) <==> Has(realms, at)
      ensures Has(realms, at) ==> (At(realms, at).physical.None? <==> Some(at) !in physical)
      ensures at.realm in realms ==> (AtRest(realms[at.realm]) <==> !InUse(Now(), at.realm))
      ensures at.realm !in realms ==> !InUse(Now(), at.realm)
    {
      if at.realm in realms && !AtRest(realms[at.realm]) {
        var i :| 0 <= i < |realms[at.realm]| && realms[at.realm][i].physical.Some?;
        var a := VirtualIndex(at.realm, i);
        assert Has(realms, a) && At(realms, a).physical.Some?;
      }
    }

    method Step(q: Request) returns (ok: bool)
      requires Valid()
      modifies this, events
      ensures |old(Now()).told| == |old(Now()).lent|
      ensures var l := Answer(old(Now()), events.nodes, q);
        ok == l.Some? && (ok ==> Valid() && Now() == l.value)
      ensures q.HostEventAt? || q.TimeoutAt? || q.TellHostEvent? ==> ok == (q.core < cores)
      ensures ok && (q.HostEventAt? || q.TimeoutAt?) ==>
        && physical == old(physical)[q.core := None]
        && log == old(log) + if old(physical)[q.core].None? then []
                             else [Resumed(q.core, if q.TimeoutAt? then Timeout else HostEvent)]
      ensures ok && q.YieldTo? ==>
        q.core < cores && physical == old(physical)[q.core := Some(q.at)] && log == old(log) + [Yielded(q.core)]
      ensures ok && !(q.YieldTo? || q.HostEventAt? || q.TimeoutAt?) ==> physical == old(physical) && log == old(log)
      ensures ok && q.TellHostEvent? && physical[q.core].Some? ==> events.signalled[q.core]
      ensures ok && q.Destroy? ==> realms == old(realms) - {q.realm}
      ensures ok && q.RealizeFinish? ==> realms.Keys == old(realms).Keys + {q.realm}
    {
      hide *;
      if q.YieldTo? || q.TellHostEvent? || q.HostEventAt? || q.TimeoutAt? {
        ok := CoreStep(q);
      } else {
        ok := RealmStep(q);
      }
    }

    method RealmStep(q: Request) returns (ok: bool)
      requires Valid() && (q.Declare? || q.RealizeStart? || q.RealizeFinish? || q.Destroy?)
      modifies this, events
      ensures |old(Now()).told| == |old(Now()).lent|
      ensures var l := Answer(old(Now()), events.nodes, q);
        ok == l.Some? && (ok ==> Valid() && Now() == l.value)
      ensures ok ==> physical == old(physical) && log == old(log)
      ensures ok && q.Destroy? ==> realms == old(realms) - {q.realm}
      ensures ok && q.RealizeFinish? ==> realms.Keys == old(realms).Keys + {q.realm}
    {
      hide Inverse, AllScheduled, Paired, Away, CoreAgrees, AtRest;
      match q
      case Declare(r) => ok := Declare(r);
      case RealizeStart(r, shape) => ok := RealizeStart(r, shape);
      case RealizeFinish(r) => ok := RealizeFinish(r);
      case Destroy(r) =>
        LentTo(VirtualIndex(r, 0));
        ok := Destroy(r);
    }

    method CoreStep(q: Request) returns (ok: bool)
      requires Valid() && (q.YieldTo? || q.TellHostEvent? || q.HostEventAt? || q.TimeoutAt?)
      modifies this, events
      ensures |old(Now()).told| == |old(Now()).lent|
      ensures var l := Answer(old(Now()), events.nodes, q);
        ok == l.Some? && (ok ==> Valid() && Now() == l.value)
      ensures !q.YieldTo? ==> ok == (q.core < cores)
      ensures ok && (q.HostEventAt? || q.TimeoutAt?) ==>
        && physical == old(physical)[q.core := None]
        && log == old(log) + if old(physical)[q.core].None? then []
                             else [Resumed(q.core, if q.TimeoutAt? then Timeout else HostEvent)]
      ensures ok && q.YieldTo? ==>
        q.core < cores && physical == old(physical)[q.core := Some(q.at)] && log == old(log) + [Yielded(q.core)]
      ensures ok && q.TellHostEvent? ==> physical == old(physical) && log == old(log)
      ensures ok && q.TellHostEvent? && physical[q.core].Some? ==> events.signalled[q.core]
    {
      hide Inverse, AllScheduled, Paired, Away, CoreAgrees, AtRest;
      match q
      case YieldTo(n, at) =>
        LentTo(at);
        ok := YieldTo(n, at);
      case TellHostEvent(n) =>
        ok := n < cores;
        if ok { TellHostEvent(n); }
      case HostEventAt(n) =>
        ok := n < cores;
        if ok { HostEventAt(n); }
      case TimeoutAt(n) =>
        ok := n < cores;
        if ok { TakeBack(n, Timeout); }
    }

    /**
     Any run of requests, up to the first that ends the server: what is reached is what the
     specification says, and a host event or timeout of an existing core never ends it.
     */
    method Serve(requests: seq<Request>) returns (served: nat, ghost last: Lending)
      requires Valid()
      modifies this, events
      ensures served <= |requests| && |old(Now()).told| == |old(Now()).lent| == cores
      ensures AnswerAll(old(Now()), events.nodes, requests[..served]) == Some(last)
      ensures Paired(last.log) && |last.told| == |last.lent|
      ensures served < |requests| ==> Answer(last, events.nodes, requests[served]).None?
      ensures served == |requests| ==> Valid() && Now() == last
    {
      served, last := 0, Now();
      assert requests[..0] == [];
      while served < |requests|
        invariant served <= |requests| && Valid() && last == Now()
        invariant AnswerAll(old(Now()), events.nodes, requests[..served]) == Some(last)
      {
        hide Answer, Inverse, AllScheduled;
        ghost var was := last;
        var ok := Step(requests[served]);
        if !ok { return; }
        assert requests[..served + 1][..served] == requests[..served];
        served, last := served + 1, Now();
      }
    }

    // ----- What a valid state means -----

    /** No two virtual nodes have the same core, and no two cores the same virtual node. */
    lemma OneToOne(a: VirtualIndex, b: VirtualIndex, m: nat, n: nat)
      requires Valid()
      ensures Has(realms, a) && Has(realms, b) && At(realms, a).physical.Some? ==>
        At(realms, a).physical == At(realms, b).physical ==> a == b
      ensures m < cores && n < cores && physical[m].Some? && physical[m] == physical[n] ==> m == n
    {}

    /** A core that is lent has its host waiting for exactly one answer, and a way to get it. */
    lemma LentCore(n: nat)
      requires Valid() && n < cores
      ensures Yields(log, n) == Resumes(log, n) + if physical[n].Some? then 1 else 0
      ensures reply[n] <==> physical[n].Some?
      ensures physical[n].Some? ==> events.hostSlots[n] == Some(n) || events.signalled[n]
    {
      assert Agrees(n);
      YieldsAnswered(log, n);
    }

    /** Without its core, nothing of a realm runs on a host core. */
    lemma IdleThreads(a: VirtualIndex, i: nat)
      requires Valid() && Has(realms, a) && i < |At(realms, a).tcbs|
      ensures At(realms, a).tcbs[i] < cores <==> At(realms, a).physical.Some?
      ensures At(realms, a).tcbs[i] < cores ==> physical[At(realms, a).tcbs[i]] == Some(a)
    {
      assert Scheduled(At(realms, a), cores);
    }
  }
}
