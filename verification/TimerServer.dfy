/**
 The timer server: clients set and stop timers, a compare device interrupts at the earliest
 deadline, and every firing is recorded and signalled.
 */
module TimerServers {
  import opened Basics
  import opened TimerList

  const NS_IN_S: int := 1_000_000_000

  // ----- Ticks and nanoseconds -----

  /** Division as the source's integers do it: towards zero. */
  function Div(a: int, b: int): (q: int)
    requires 0 < b
    ensures 0 <= a ==> b * q <= a < b * q + b
    ensures a <= 0 ==> b * q - b < a <= b * q
  {
    if 0 <= a then a / b else -(-a / b)
  }

  function NsToTick(freq: nat, ns: int): (tick: int) {
    Div(ns * freq, NS_IN_S)
  }

  function TickToNs(freq: nat, tick: int): (ns: int)
    requires 0 < freq
  {
    Div(tick * NS_IN_S, freq)
  }

  /**
   A tick count turned into nanoseconds and back comes out the same or one tick nearer to zero;
   it is the same exactly when the nanoseconds came out even.
   */
  lemma TickRoundTrip(freq: nat, tick: int)
    requires 1 <= freq <= NS_IN_S
    ensures var back := NsToTick(freq, TickToNs(freq, tick));
      && (0 <= tick ==> back == tick || back == tick - 1)
      && (tick <= 0 ==> back == tick || back == tick + 1)
      && (back == tick <==> TickToNs(freq, tick) * freq == tick * NS_IN_S)
  {
    if 0 <= tick {
      RoundTripAbove(freq, tick, TickToNs(freq, tick));
    } else {
      RoundTripAbove(freq, -tick, -TickToNs(freq, tick));
      var ns := TickToNs(freq, tick);
      assert -(ns * freq) == -ns * freq;
    }
  }

  lemma RoundTripAbove(freq: nat, tick: nat, ns: int)
    requires 1 <= freq <= NS_IN_S && ns == Div(tick * NS_IN_S, freq)
    ensures 0 <= ns
    ensures Div(ns * freq, NS_IN_S) == if ns * freq == tick * NS_IN_S then tick else tick - 1
  {
    var a, b := tick * NS_IN_S, freq * ns;
    assert ns < 0 ==> b + freq <= 0;
    assert b <= a < b + freq;
    if b == a {
      UniqueQuotient(b, NS_IN_S, tick, 0);
    } else {
      UniqueQuotient(b, NS_IN_S, tick - 1, b - a + NS_IN_S);
    }
  }

  /** A period reaches one tick exactly when it lasts at least as long as one. */
  lemma PeriodInTicks(freq: nat, ns: int)
    ensures 1 <= NsToTick(freq, ns) <==> NS_IN_S <= ns * freq
  {}

  // ----- Firings -----

  /** One completion: whose, and the deadline it answers. */
  datatype Firing = Firing(key: Key, at: int)

  /** The deadlines answered for k, in order. */
  ghost function Of(log: seq<Firing>, k: Key): (ds: seq<int>) {
    if log == [] then []
    else
      var f := log[|log| - 1];
      Of(log[..|log| - 1], k) + if f.key == k then [f.at] else []
  }

  lemma OfSnoc(log: seq<Firing>, f: Firing, k: Key)
    ensures Of(log + [f], k) == Of(log, k) + if f.key == k then [f.at] else []
  {
    assert (log + [f])[..|log|] == log;
  }

  /** Log grew to more by answering what the timers in ts owed up to count, leaving us. */
  ghost predicate Settled(ts: seq<Timer>, log: seq<Firing>, us: seq<Timer>, more: seq<Firing>, count: int)
    requires AllTicking(ts)
  {
    forall k :: SettledFor(Lookup(ts, k), Of(log, k), Lookup(us, k), Of(more, k), count)
  }

  ghost predicate SettledFor(o: Option<Timer>, ds: seq<int>, p: Option<Timer>, es: seq<int>, count: int) {
    && (o.Some? ==> Ticking(o.value))
    && es == ds + DueOf(o, count) && p == LeftOf(o, count)
  }

  ghost predicate Ordered(log: seq<Firing>, from: nat) {
    forall i, j :: from <= i < j < |log| ==> log[i].at <= log[j].at
  }

  /** A round of the loop: the first timer fires and, if periodic, is put back. */
  ghost predicate Owes(o: Option<Timer>, ds: seq<int>, p: Option<Timer>, es: seq<int>, count: int) {
    && (o.Some? ==> Ticking(o.value)) && (p.Some? ==> Ticking(p.value))
    && ds + DueOf(o, count) == es + DueOf(p, count) && LeftOf(o, count) == LeftOf(p, count)
  }

  lemma OwesRefl(o: Option<Timer>, ds: seq<int>, count: int)
    requires o.Some? ==> Ticking(o.value)
    ensures Owes(o, ds, o, ds, count)
  {}

  lemma OwesTrans(o: Option<Timer>, ds: seq<int>, p: Option<Timer>, es: seq<int>, q: Option<Timer>, fs: seq<int>,
                  count: int)
    requires Owes(o, ds, p, es, count) && Owes(p, es, q, fs, count)
    ensures Owes(o, ds, q, fs, count)
  {}

  lemma OwesFire(t: Timer, ds: seq<int>, count: int)
    requires Ticking(t) && t.compare <= count
    ensures Owes(Some(t), ds, if t.period.None? then None else Some(Again(t)), ds + [t.compare], count)
  {
    var due := if t.period.None? then [] else Deadlines(Again(t), count);
    assert ds + ([t.compare] + due) == ds + [t.compare] + due;
  }

  /** The list after the first timer has fired and, if periodic, been put back at at. */
  ghost predicate Fired(ts: seq<Timer>, us: seq<Timer>)
    requires ts != []
  {
    if ts[0].period.None? then us == ts[1..]
    else exists at: nat :: at <= |ts[1..]| && us == Inserted(ts[1..], at, Again(ts[0]))
  }

  lemma FiredLookup(ts: seq<Timer>, us: seq<Timer>, k: Key)
    requires ts != [] && Distinct(ts) && Fired(ts, us)
    ensures Lookup(us, k) ==
      if k != ts[0].key then Lookup(ts, k)
      else if ts[0].period.None? then None else Some(Again(ts[0]))
  {
    if ts[0].period.Some? {
      var at: nat :| at <= |ts[1..]| && us == Inserted(ts[1..], at, Again(ts[0]));
      LookupInserted(ts[1..], at, Again(ts[0]), k);
    }
  }

  lemma FiredOwes(ts: seq<Timer>, us: seq<Timer>, log: seq<Firing>, k: Key, count: int)
    requires ts != [] && Distinct(ts) && AllTicking(ts) && Fired(ts, us) && ts[0].compare <= count
    ensures Owes(Lookup(ts, k), Of(log, k), Lookup(us, k), Of(log + [Firing(ts[0].key, ts[0].compare)], k), count)
  {
    hide Owes, Distinct;
    FiredLookup(ts, us, k);
    LookupFinds(ts, k);
    OfSnoc(log, Firing(ts[0].key, ts[0].compare), k);
    if k == ts[0].key {
      OwesFire(ts[0], Of(log, k), count);
    } else {
      assert Of(log, k) + [] == Of(log, k);
      OwesRefl(Lookup(ts, k), Of(log, k), count);
    }
  }

  ghost predicate OwesAll(ts: seq<Timer>, log: seq<Firing>, us: seq<Timer>, more: seq<Firing>, count: int) {
    forall k :: Owes(Lookup(ts, k), Of(log, k), Lookup(us, k), Of(more, k), count)
  }

  lemma OwesAllRefl(ts: seq<Timer>, log: seq<Firing>, count: int)
    requires AllTicking(ts)
    ensures OwesAll(ts, log, ts, log, count)
  {
    forall k ensures Owes(Lookup(ts, k), Of(log, k), Lookup(ts, k), Of(log, k), count) {
      LookupFinds(ts, k);
    }
  }

  lemma OwesAllFired(ts: seq<Timer>, log: seq<Firing>, us: seq<Timer>, more: seq<Firing>, vs: seq<Timer>, count: int)
    requires OwesAll(ts, log, us, more, count)
    requires us != [] && Distinct(us) && AllTicking(us) && Fired(us, vs) && us[0].compare <= count
    ensures OwesAll(ts, log, vs, more + [Firing(us[0].key, us[0].compare)], count)
  {
    hide Owes, Fired, Lookup, Distinct, Of;
    var most := more + [Firing(us[0].key, us[0].compare)];
    forall k ensures Owes(Lookup(ts, k), Of(log, k), Lookup(vs, k), Of(most, k), count) {
      FiredOwes(us, vs, more, k, count);
      OwesTrans(Lookup(ts, k), Of(log, k), Lookup(us, k), Of(more, k), Lookup(vs, k), Of(most, k), count);
    }
  }

  lemma NothingOwed(o: Option<Timer>, ds: seq<int>, p: Option<Timer>, es: seq<int>, count: int)
    requires Owes(o, ds, p, es, count) && (p.Some? ==> count < p.value.compare)
    ensures SettledFor(o, ds, p, es, count)
  {
    assert es + [] == es;
  }

  lemma AllSettled(ts: seq<Timer>, log: seq<Firing>, us: seq<Timer>, more: seq<Firing>, count: int)
    requires AllTicking(ts) && OwesAll(ts, log, us, more, count)
    requires forall i :: 0 <= i < |us| ==> count < us[i].compare
    ensures Settled(ts, log, us, more, count)
  {
    hide Owes, SettledFor, Lookup, Of;
    forall k ensures SettledFor(Lookup(ts, k), Of(log, k), Lookup(us, k), Of(more, k), count) {
      LookupFinds(us, k);
      NothingOwed(Lookup(ts, k), Of(log, k), Lookup(us, k), Of(more, k), count);
    }
  }

  /** Whether k has completed or will have by count. */
  ghost predicate Done(completed: map<nat, set<int>>, o: Option<Timer>, k: Key, count: int) {
    || (k.client in completed && k.timer in completed[k.client])
    || (o.Some? && o.value.compare <= count)
  }

  /** The completions in now are those before and what fell due by count. */
  ghost predicate CompletedAs(before: map<nat, set<int>>, ts: seq<Timer>, now: map<nat, set<int>>, clients: nat,
                              count: int)
  {
    forall k: Key :: k.client < clients ==> CompletedFor(before, Lookup(ts, k), now, k, count)
  }

  ghost predicate CompletedFor(before: map<nat, set<int>>, o: Option<Timer>, now: map<nat, set<int>>, k: Key,
                               count: int)
  {
    k.client in now && ((k.timer in now[k.client]) == Done(before, o, k, count))
  }

  lemma CompletedTrans(a: map<nat, set<int>>, ts: seq<Timer>, log: seq<Firing>,
                       b: map<nat, set<int>>, us: seq<Timer>, more: seq<Firing>,
                       c: map<nat, set<int>>, clients: nat, early: int, late: int)
    requires AllTicking(ts) && early <= late && Settled(ts, log, us, more, early)
    requires CompletedAs(a, ts, b, clients, early) && CompletedAs(b, us, c, clients, late)
    ensures CompletedAs(a, ts, c, clients, late)
  {
    hide Lookup, Of, Deadlines;
    forall k: Key | k.client < clients ensures CompletedFor(a, Lookup(ts, k), c, k, late) {
      assert SettledFor(Lookup(ts, k), Of(log, k), Lookup(us, k), Of(more, k), early);
      assert CompletedFor(a, Lookup(ts, k), b, k, early) && CompletedFor(b, Lookup(us, k), c, k, late);
    }
  }

  lemma CompletedRefl(done: map<nat, set<int>>, ts: seq<Timer>, clients: nat, count: int)
    requires forall c: nat :: c < clients <==> c in done
    requires forall i :: 0 <= i < |ts| ==> count < ts[i].compare
    ensures CompletedAs(done, ts, done, clients, count)
  {
    hide Lookup;
    forall k: Key | k.client < clients ensures CompletedFor(done, Lookup(ts, k), done, k, count) {
      LookupFinds(ts, k);
    }
  }

  ghost predicate SameDone(before: map<nat, set<int>>, ts: seq<Timer>, now: map<nat, set<int>>, us: seq<Timer>,
                           count: int)
  {
    forall k :: Done(before, Lookup(ts, k), k, count) == Done(now, Lookup(us, k), k, count)
  }

  lemma SameDoneFired(before: map<nat, set<int>>, ts: seq<Timer>, now: map<nat, set<int>>, us: seq<Timer>,
                      vs: seq<Timer>, count: int)
    requires SameDone(before, ts, now, us, count)
    requires us != [] && Distinct(us) && Fired(us, vs) && us[0].compare <= count && us[0].key.client in now
    ensures var c := us[0].key.client;
      SameDone(before, ts, now[c := now[c] + {us[0].key.timer}], vs, count)
  {
    hide Fired;
    forall k ensures var c := us[0].key.client;
      Done(before, Lookup(ts, k), k, count) == Done(now[c := now[c] + {us[0].key.timer}], Lookup(vs, k), k, count)
    {
      FiredLookup(us, vs, k);
    }
  }

  lemma {:induction false} OwedNothing(ts: seq<Timer>, count: int)
    requires AllTicking(ts) && forall i :: 0 <= i < |ts| ==> count < ts[i].compare
    ensures Owed(ts, count) == 0
  {
    if ts != [] {
      OwedNothing(ts[1..], count);
    }
  }

  lemma InsertedLater(ts: seq<Timer>, at: nat, t: Timer, c: int)
    requires at <= |ts| && c <= t.compare && forall j :: 0 <= j < |ts| ==> c <= ts[j].compare
    ensures forall j :: 0 <= j < |Inserted(ts, at, t)| ==> c <= Inserted(ts, at, t)[j].compare
  {}

  lemma FiringOrdered(log: seq<Firing>, from: nat, f: Firing)
    requires Ordered(log, from) && forall i :: from <= i < |log| ==> log[i].at <= f.at
    ensures Ordered(log + [f], from)
  {}

  lemma SettledTrans(ts: seq<Timer>, log: seq<Firing>, us: seq<Timer>, more: seq<Firing>, vs: seq<Timer>,
                     most: seq<Firing>, early: int, late: int)
    requires AllTicking(ts) && AllTicking(us) && early <= late
    requires Settled(ts, log, us, more, early) && Settled(us, more, vs, most, late)
    ensures Settled(ts, log, vs, most, late)
  {
    hide Lookup, Of, SettledFor;
    forall k ensures SettledFor(Lookup(ts, k), Of(log, k), Lookup(vs, k), Of(most, k), late) {
      SettledForTrans(Lookup(ts, k), Of(log, k), Lookup(us, k), Of(more, k), Lookup(vs, k), Of(most, k), early, late);
    }
  }

  lemma SettledForTrans(o: Option<Timer>, ds: seq<int>, p: Option<Timer>, es: seq<int>, q: Option<Timer>,
                        fs: seq<int>, early: int, late: int)
    requires early <= late && SettledFor(o, ds, p, es, early) && SettledFor(p, es, q, fs, late)
    ensures SettledFor(o, ds, q, fs, late)
  {
    hide Deadlines, After;
    if o.Some? {
      UpdatesCompose(o.value, early, late);
      assert ds + (Deadlines(o.value, early) + DueOf(p, late)) == ds + Deadlines(o.value, early) + DueOf(p, late);
    }
  }

  /** With nothing due, nothing happens. */
  lemma SettledRefl(ts: seq<Timer>, log: seq<Firing>, count: int)
    requires AllTicking(ts) && forall i :: 0 <= i < |ts| ==> count < ts[i].compare
    ensures Settled(ts, log, ts, log, count)
  {
    OwesAllRefl(ts, log, count);
    AllSettled(ts, log, ts, log, count);
  }

  function Uncompleted(completed: map<nat, set<int>>, k: Key): (c: map<nat, set<int>>)
    requires k.client in completed
    ensures forall d :: d in c <==> d in completed
  {
    completed[k.client := completed[k.client] - {k.timer}]
  }

  /** A timer that is outstanding takes its completion with it. */
  ghost function Cleared(completed: map<nat, set<int>>, ts: seq<Timer>, k: Key): (c: map<nat, set<int>>)
    requires k.client in completed
    ensures forall d :: d in c <==> d in completed
  {
    if Lookup(ts, k) == None then completed else Uncompleted(completed, k)
  }

  lemma UncompletedTwice(completed: map<nat, set<int>>, k: Key)
    requires k.client in completed
    ensures Uncompleted(Uncompleted(completed, k), k) == Uncompleted(completed, k)
  {
    assert completed[k.client] - {k.timer} - {k.timer} == completed[k.client] - {k.timer};
  }

  /** The list without its first timer. */
  lemma TailOf(ts: seq<Timer>, count: int)
    requires ts != [] && Sorted(ts) && Distinct(ts) && AllTicking(ts) && ts[0].compare <= count
    ensures Sorted(ts[1..]) && Distinct(ts[1..]) && AllTicking(ts[1..]) && Lookup(ts[1..], ts[0].key) == None
    ensures Ticking(ts[0]) && forall j :: 0 <= j < |ts[1..]| ==> ts[0].compare <= ts[1..][j].compare
    ensures Owed(ts, count) == Owed(ts[1..], count) + 1
      + if ts[0].period.None? then 0 else |Deadlines(Again(ts[0]), count)|
  {}

  lemma DrainStep(ts: seq<Timer>, i: nat, k: Key)
    requires i < |ts|
    ensures Without(ts[i..], k) == (if ts[i].key == k then [] else [ts[i]]) + Without(ts[i + 1..], k)
    ensures Lookup(ts[i..], k) == if ts[i].key == k then Some(ts[i]) else Lookup(ts[i + 1..], k)
  {
    assert ts[i..][1..] == ts[i + 1..];
  }

  lemma DrainEnd(kept: seq<Timer>, ts: seq<Timer>, k: Key)
    requires kept + Without([], k) == Without(ts, k) && Sorted(ts) && Distinct(ts) && AllTicking(ts)
    ensures AllTicking(kept)
    ensures kept == Without(ts, k) && Sorted(kept) && Distinct(kept) && Lookup([], k) == None
    ensures forall i :: 0 <= i < |kept| ==> kept[i] in ts
    ensures kept != [] ==> ts != [] && ts[0].compare <= kept[0].compare
  {
    hide Distinct, Lookup, Sorted, AllTicking;
    assert kept + [] == kept;
    DistinctWithout(ts, k);
    SortedWithout(ts, k);
    WithoutMembers(ts, k);
    MembersOf(kept, ts);
    LookupFinds([], k);
  }

  lemma MembersOf(us: seq<Timer>, ts: seq<Timer>)
    requires AllTicking(ts) && Sorted(ts) && forall u :: u in us ==> u in ts
    ensures AllTicking(us) && forall i :: 0 <= i < |us| ==> us[i] in ts && ts[0].compare <= us[i].compare
  {
    forall i | 0 <= i < |us| ensures Ticking(us[i]) && us[i] in ts && ts[0].compare <= us[i].compare {
      assert us[i] in us;
      var j :| 0 <= j < |ts| && ts[j] == us[i];
    }
  }

  ghost predicate Ascending(cs: seq<int>) {
    forall i, j :: 0 <= i < j < |cs| ==> cs[i] <= cs[j]
  }

  lemma AscendingTail(count: int, late: seq<int>)
    requires Ascending([count] + late) && late != []
    ensures count <= late[0] && [late[0]] + late[1..] == late && Ascending(late)
  {
    var cs := [count] + late;
    assert cs[0] <= cs[1];
    forall i, j | 0 <= i < j < |late| ensures late[i] <= late[j] {
      assert cs[i + 1] <= cs[j + 1];
    }
  }

  // ----- Requests -----

  datatype Request =
    | OneshotRelative(key: Key, ns: int)
    | OneshotAbsolute(key: Key, ns: int)
    | Periodic(key: Key, ns: int)
    | Stop(key: Key)
    | Interrupt

  /** How a request ends, if it does. */
  datatype Outcome = Served | Refused | Endless

  /** What a request asks of the timer k, which was o before. */
  ghost function Requested(r: Request, freq: nat, most: int, now: int, k: Key, o: Option<Timer>): Option<Timer> {
    if r.Interrupt? || r.key != k || most < r.key.timer then o
    else match r
      case OneshotRelative(_, ns) => Some(Timer(k, now + NsToTick(freq, ns), None))
      case OneshotAbsolute(_, ns) => Some(Timer(k, NsToTick(freq, ns), None))
      case Periodic(_, ns) => Some(Timer(k, now + NsToTick(freq, ns), Some(NsToTick(freq, ns))))
      case Stop(_) => None
  }

  /** Whether serving r ends: a period has at least one tick (see PeriodTooShort). */
  predicate Lawful(r: Request, freq: nat, most: int) {
    r.Periodic? && r.key.timer <= most ==> 1 <= NsToTick(freq, r.ns)
  }

  lemma UnlawfulIs(r: Request, freq: nat, most: int)
    ensures !Lawful(r, freq, most) <==> r.Periodic? && r.key.timer <= most && r.ns * freq < 1_000_000_000
  {
    hide NsToTick;
    if r.Periodic? { PeriodInTicks(freq, r.ns); }
  }

  /** A shorter period makes the update that follows go on forever, by NeverEnds. */
  lemma PeriodTooShort(ts: seq<Timer>, at: nat, k: Key, freq: nat, ns: int, now: int)
    requires at <= |ts| && NsToTick(freq, ns) < 1
    ensures Stuck(Inserted(ts, at, Timer(k, now + NsToTick(freq, ns), Some(NsToTick(freq, ns)))), now)
  {
    var t := Timer(k, now + NsToTick(freq, ns), Some(NsToTick(freq, ns)));
    assert Inserted(ts, at, t)[at] == t;
  }

  // ----- Whole runs -----

  /** A request, the count read when it is served, and those read after failed set_compares. */
  datatype Input = Input(request: Request, now: int, late: seq<int>)

  ghost predicate Timely(inputs: seq<Input>, from: int) {
    inputs == [] || (
      var times := [inputs[0].now] + inputs[0].late;
      from <= inputs[0].now && Ascending(times) && Timely(inputs[1..], times[|times| - 1]))
  }

  lemma TimelyTail(inputs: seq<Input>, from: int, clock: int)
    requires inputs != [] && Timely(inputs, from)
    requires clock == from || clock in [inputs[0].now] + inputs[0].late
    ensures Timely(inputs[1..], clock)
  {
    var times := [inputs[0].now] + inputs[0].late;
    var last := times[|times| - 1];
    assert clock <= last by {
      assert times[0] == inputs[0].now;
    }
    assert Timely(inputs[1..], last);
  }

  lemma {:induction false} TimelyPrefix(inputs: seq<Input>, from: int, n: nat)
    requires Timely(inputs, from) && n <= |inputs|
    ensures Timely(inputs[..n], from)
  {
    if 0 < n {
      var times := [inputs[0].now] + inputs[0].late;
      TimelyPrefix(inputs[1..], times[|times| - 1], n - 1);
      assert inputs[..n][1..] == inputs[1..][..n - 1];
    }
  }

  /** The count each input updates the timers to; a stop or a refused request updates nothing. */
  ghost predicate Clocked(inputs: seq<Input>, clocks: seq<int>, from: int, most: int)
    requires |inputs| == |clocks|
  {
    inputs == [] || (
      var r := inputs[0].request;
      && (if r.Interrupt? || (!r.Stop? && r.key.timer <= most)
          then inputs[0].now <= clocks[0] && clocks[0] in [inputs[0].now] + inputs[0].late
          else clocks[0] == from)
      && Clocked(inputs[1..], clocks[1..], clocks[0], most))
  }

  datatype Alone = Alone(timer: Option<Timer>, fired: seq<int>)

  /** One timer served by itself: the requests for it take effect, and what is due by each clock fires. */
  ghost function Solo(k: Key, freq: nat, most: int, inputs: seq<Input>, clocks: seq<int>, a: Alone): Alone
    requires |inputs| == |clocks| && (a.timer.Some? ==> Ticking(a.timer.value))
    requires forall i :: 0 <= i < |inputs| ==> Lawful(inputs[i].request, freq, most)
  {
    if inputs == [] then a else
    assert Lawful(inputs[0].request, freq, most);
    var o := Requested(inputs[0].request, freq, most, inputs[0].now, k, a.timer);
    if o.Some? then (
      AfterTicks(o.value, clocks[0]);
      Solo(k, freq, most, inputs[1..], clocks[1..],
           Alone(After(o.value, clocks[0]), a.fired + Deadlines(o.value, clocks[0]))))
    else Solo(k, freq, most, inputs[1..], clocks[1..], Alone(None, a.fired))
  }

  lemma SoloStep(k: Key, freq: nat, most: int, inputs: seq<Input>, clocks: seq<int>, a: Alone, b: Alone)
    requires |inputs| == |clocks| && (a.timer.Some? ==> Ticking(a.timer.value))
    requires forall i :: 0 <= i < |inputs| ==> Lawful(inputs[i].request, freq, most)
    requires inputs != []
    requires SettledFor(Requested(inputs[0].request, freq, most, inputs[0].now, k, a.timer), a.fired, b.timer,
                        b.fired, clocks[0])
    ensures b.timer.Some? ==> Ticking(b.timer.value)
    ensures Solo(k, freq, most, inputs, clocks, a) == Solo(k, freq, most, inputs[1..], clocks[1..], b)
  {
    var o := Requested(inputs[0].request, freq, most, inputs[0].now, k, a.timer);
    if o.Some? {
      AfterTicks(o.value, clocks[0]);
    } else {
      assert a.fired + [] == a.fired;
    }
  }

  // ----- What clients see of a run -----

  /** The timers and the log before an input, or after the last. */
  datatype Moment = Moment(timers: seq<Timer>, log: seq<Firing>)

  /** Every input takes each timer from one moment to the next. */
  ghost predicate Proceeds(freq: nat, most: int, inputs: seq<Input>, clocks: seq<int>, moments: seq<Moment>) {
    && |clocks| == |inputs| && |moments| == |inputs| + 1
    && forall i :: 0 <= i < |inputs| ==> AllPass(freq, most, inputs[i], clocks[i], moments[i], moments[i + 1])
  }

  ghost predicate AllPass(freq: nat, most: int, input: Input, clock: int, m: Moment, n: Moment) {
    forall k :: Passes(freq, most, input, clock, m, n, k)
  }

  ghost predicate Passes(freq: nat, most: int, input: Input, clock: int, m: Moment, n: Moment, k: Key) {
    SettledFor(Requested(input.request, freq, most, input.now, k, Lookup(m.timers, k)), Of(m.log, k),
               Lookup(n.timers, k), Of(n.log, k), clock)
  }

  lemma ProceedsLengths(freq: nat, most: int, inputs: seq<Input>, clocks: seq<int>, moments: seq<Moment>)
    requires Proceeds(freq, most, inputs, clocks, moments)
    ensures |clocks| == |inputs| && |moments| == |inputs| + 1
  {}

  lemma ProceedsOn(freq: nat, most: int, inputs: seq<Input>, clocks: seq<int>, m: Moment, moments: seq<Moment>,
                   clock: int)
    requires inputs != [] && Proceeds(freq, most, inputs[1..], clocks, moments)
    requires AllPass(freq, most, inputs[0], clock, m, moments[0])
    ensures Proceeds(freq, most, inputs, [clock] + clocks, [m] + moments)
  {
    hide AllPass;
    var cs, ms := [clock] + clocks, [m] + moments;
    forall i | 0 <= i < |inputs| ensures AllPass(freq, most, inputs[i], cs[i], ms[i], ms[i + 1]) {
      if 0 < i {
        assert inputs[i] == inputs[1..][i - 1];
        assert AllPass(freq, most, inputs[1..][i - 1], clocks[i - 1], moments[i - 1], moments[i]);
      }
    }
  }

  /** Whether a request is about timer k and is not refused. */
  predicate Asks(r: Request, k: Key, most: int) {
    !r.Interrupt? && r.key == k && k.timer <= most
  }

  /** d ticks are the whole ticks in ns nanoseconds, counted towards zero. */
  predicate IsTick(freq: nat, ns: int, d: int) {
    if 0 <= ns then d * 1_000_000_000 <= ns * freq < (d + 1) * 1_000_000_000
    else (d - 1) * 1_000_000_000 < ns * freq <= d * 1_000_000_000
  }

  lemma TicksOf(freq: nat, ns: int)
    ensures IsTick(freq, ns, NsToTick(freq, ns))
  {
    var a := ns * freq;
    assert 0 <= ns ==> 0 <= a;
    assert ns <= 0 ==> a <= 0;
  }

  /**
   The deadlines answered for a timer from the request r at now up to clock: none after a stop, one
   or none for a one-shot, and for a periodic timer all multiples of the period.
   */
  ghost predicate OnSchedule(r: Request, freq: nat, now: int, clock: int, before: seq<int>, after: seq<int>) {
    match r
    case Interrupt => true
    case Stop(_) => after == before
    case OneshotAbsolute(_, ns) =>
      exists d :: IsTick(freq, ns, d) && after == before + if d <= clock then [d] else []
    case OneshotRelative(_, ns) =>
      exists d :: IsTick(freq, ns, d) && after == before + if now + d <= clock then [now + d] else []
    case Periodic(_, ns) =>
      exists p :: IsTick(freq, ns, p) && 1 <= p && Multiples(now, p, clock, before, after)
  }

  /** After before come now + p, now + 2p and so on, as far as clock and no further. */
  ghost predicate Multiples(now: int, p: int, clock: int, before: seq<int>, after: seq<int>) {
    && |before| <= |after| && after[..|before|] == before
    && (forall i :: |before| <= i < |after| ==> after[i] == now + (i - |before| + 1) * p <= clock)
    && clock < now + (|after| - |before| + 1) * p
  }

  /** From request j on, while none is about k, its firings are on schedule. */
  ghost predicate Punctual(freq: nat, most: int, inputs: seq<Input>, clocks: seq<int>, moments: seq<Moment>, k: Key,
                           j: nat, e: nat)
    requires |clocks| == |inputs| && |moments| == |inputs| + 1 && j < e <= |inputs|
  {
    Asks(inputs[j].request, k, most) && (forall i :: j < i < e ==> !Asks(inputs[i].request, k, most)) ==>
      OnSchedule(inputs[j].request, freq, inputs[j].now, clocks[e - 1], Of(moments[j].log, k), Of(moments[e].log, k))
  }

  ghost predicate NoEarlier(clocks: seq<int>) {
    forall i, j :: 0 <= i < j < |clocks| ==> clocks[i] <= clocks[j]
  }

  lemma {:induction false} ClocksAscend(inputs: seq<Input>, clocks: seq<int>, from: int, most: int)
    requires |inputs| == |clocks| && Timely(inputs, from) && Clocked(inputs, clocks, from, most)
    ensures NoEarlier(clocks) && forall i :: 0 <= i < |clocks| ==> from <= clocks[i]
    decreases |inputs|
  {
    if inputs != [] {
      TimelyTail(inputs, from, clocks[0]);
      ClocksAscend(inputs[1..], clocks[1..], clocks[0], most);
      assert forall i :: 1 <= i < |clocks| ==> clocks[i] == clocks[1..][i - 1];
    }
  }

  /** What request j asks for is still what is owed at e. */
  lemma {:induction false} StillOwed(freq: nat, most: int, inputs: seq<Input>, clocks: seq<int>, moments: seq<Moment>,
                                     k: Key, j: nat, e: nat)
    requires Proceeds(freq, most, inputs, clocks, moments) && NoEarlier(clocks) && j < e <= |inputs|
    requires Asks(inputs[j].request, k, most) && forall i :: j < i < e ==> !Asks(inputs[i].request, k, most)
    ensures var o := Requested(inputs[j].request, freq, most, inputs[j].now, k, None);
      SettledFor(o, Of(moments[j].log, k), Lookup(moments[e].timers, k), Of(moments[e].log, k), clocks[e - 1])
    decreases e - j
  {
    hide SettledFor, Lookup, Of, NsToTick;
    var o := Requested(inputs[j].request, freq, most, inputs[j].now, k, None);
    assert AllPass(freq, most, inputs[e - 1], clocks[e - 1], moments[e - 1], moments[e]);
    assert Passes(freq, most, inputs[e - 1], clocks[e - 1], moments[e - 1], moments[e], k);
    if j + 1 < e {
      StillOwed(freq, most, inputs, clocks, moments, k, j, e - 1);
      SettledOn(o, Of(moments[j].log, k), Lookup(moments[e - 1].timers, k), Of(moments[e - 1].log, k),
                Lookup(moments[e].timers, k), Of(moments[e].log, k), clocks[e - 2], clocks[e - 1]);
    }
  }

  lemma SettledOn(o: Option<Timer>, ds: seq<int>, p: Option<Timer>, es: seq<int>, q: Option<Timer>, fs: seq<int>,
                  early: int, late: int)
    requires SettledFor(o, ds, p, es, early) && SettledFor(p, es, q, fs, late) && early <= late
    ensures SettledFor(o, ds, q, fs, late)
  {
    if o.Some? {
      UpdatesCompose(o.value, early, late);
      Associate(ds, Deadlines(o.value, early), DueOf(p, late));
    } else {
      assert ds + [] == ds;
    }
  }

  lemma OneshotOnSchedule(t: Timer, clock: int)
    requires t.period.None?
    ensures Deadlines(t, clock) == if t.compare <= clock then [t.compare] else []
  {}

  lemma PeriodicOnSchedule(t: Timer, clock: int, now: int, p: int, before: seq<int>, after: seq<int>)
    requires 1 <= p && t.period == Some(p) && t.compare == now + p && after == before + Deadlines(t, clock)
    ensures Multiples(now, p, clock, before, after)
  {
    hide Quotient;
    var ds := Deadlines(t, clock);
    forall i | 0 <= i < |ds| ensures ds[i] == now + (i + 1) * p <= clock {
      PeriodicDeadline(t, clock, i);
      OnePeriodMore(now, p, i);
    }
    OnePeriodMore(now, p, |ds|);
    if t.compare <= clock {
      PeriodicCount(t, clock);
      PeriodicNext(t, clock);
    }
    hide Deadlines, After;
    assert clock < now + (|ds| + 1) * p;
    forall i | |before| <= i < |after| ensures after[i] == now + (i - |before| + 1) * p <= clock {
      assert after[i] == ds[i - |before|];
    }
  }

  lemma OnePeriodMore(now: int, p: int, n: nat)
    ensures now + p + n * p == now + (n + 1) * p
  {}

  /** Between two requests for it, a timer fires when the first of them says, to the tick. */
  lemma RunsArePunctual(freq: nat, most: int, inputs: seq<Input>, clocks: seq<int>, moments: seq<Moment>, k: Key,
                        j: nat, e: nat)
    requires Proceeds(freq, most, inputs, clocks, moments) && NoEarlier(clocks) && j < e <= |inputs|
    requires Lawful(inputs[j].request, freq, most)
    ensures Punctual(freq, most, inputs, clocks, moments, k, j, e)
  {
    var r, now, clock := inputs[j].request, inputs[j].now, clocks[e - 1];
    if Asks(r, k, most) && forall i :: j < i < e ==> !Asks(inputs[i].request, k, most) {
      StillOwed(freq, most, inputs, clocks, moments, k, j, e);
      ScheduleKept(r, freq, most, k, now, clock, Of(moments[j].log, k), Lookup(moments[e].timers, k),
                   Of(moments[e].log, k));
    }
  }

  lemma ScheduleKept(r: Request, freq: nat, most: int, k: Key, now: int, clock: int, before: seq<int>,
                     p: Option<Timer>, after: seq<int>)
    requires Asks(r, k, most) && Lawful(r, freq, most)
    requires SettledFor(Requested(r, freq, most, now, k, None), before, p, after, clock)
    ensures OnSchedule(r, freq, now, clock, before, after)
  {
    hide Deadlines, After, IsTick, Multiples, NsToTick;
    var o := Requested(r, freq, most, now, k, None);
    if r.Stop? {
      assert before + [] == before;
    } else {
      TicksOf(freq, r.ns);
      if r.Periodic? {
        PeriodicOnSchedule(o.value, clock, now, NsToTick(freq, r.ns), before, after);
      } else {
        OneshotOnSchedule(o.value, clock);
      }
    }
  }

  lemma RequestedAlone(r: Request, freq: nat, most: int, now: int, k: Key, o: Option<Timer>)
    ensures Asks(r, k, most) ==> Requested(r, freq, most, now, k, o) == Requested(r, freq, most, now, k, None)
    ensures !Asks(r, k, most) ==> Requested(r, freq, most, now, k, o) == o
  {}

  /** A timer is completed if it fired now, or had completed and was not outstanding when it was set anew. */
  lemma CompletedIsFired(done: map<nat, set<int>>, ts: seq<Timer>, r: Request, ok: bool, o: Option<Timer>, ds: seq<int>,
                         p: Option<Timer>, es: seq<int>, now: map<nat, set<int>>, k: Key, clock: int)
    requires SettledFor(o, ds, p, es, clock) && k.client in done && (!r.Interrupt? ==> r.key.client in done)
    requires CompletedFor(if ok && !r.Interrupt? then Cleared(done, ts, r.key) else done, o, now, k, clock)
    ensures k.client in now
    ensures k.timer in now[k.client] <==>
      || es != ds
      || (k.timer in done[k.client] && !(ok && !r.Interrupt? && r.key == k && Lookup(ts, k).Some?))
  {
    hide Lookup;
    var due := DueOf(o, clock);
    assert due == [] ==> ds + due == ds;
    assert due != [] ==> |ds + due| != |ds|;
  }

  class Server {
    const clients: nat
    const timersPerClient: int
    const freq: nat
    var outstanding: seq<Timer>
    var completed: map<nat, set<int>>
    var enabled: bool          // the device's enable bit
    var compare: int           // and its compare register
    var log: seq<Firing>       // every completion signalled so far
    ghost var clock: int       // the last count the timers were updated to

    ghost predicate Valid()
      reads this
    {
      && 0 < freq
      && Sorted(outstanding) && Distinct(outstanding) && AllTicking(outstanding)
      && (forall i :: 0 <= i < |outstanding| ==> outstanding[i].key.client < clients)
      && (forall c: nat :: c < clients <==> c in completed)
    }

    constructor (clients: nat, timersPerClient: int, freq: nat)
      requires 0 < freq && clients <= 64 && timersPerClient <= 64
      ensures Valid() && Armed() && Caught()
      ensures this.clients == clients && this.timersPerClient == timersPerClient && this.freq == freq
      ensures outstanding == [] && log == [] && clock == 0
      ensures forall c :: 0 <= c < clients ==> c in completed && completed[c] == {}
    {
      this.clients, this.timersPerClient, this.freq := clients, timersPerClient, freq;
      outstanding, log, clock := [], [], 0;
      enabled, compare := false, 0;
      completed := map[];
      new;
      for c := 0 to clients
        invariant forall d: nat :: d < c <==> d in completed
        invariant forall d: nat :: d < c ==> completed[d] == {}
        invariant outstanding == [] && log == [] && clock == 0
      {
        completed := completed[c := {}];
      }
    }

    /** While timers are outstanding the device will interrupt, no later than the earliest deadline. */
    ghost predicate Armed()
      reads this
    {
      outstanding != [] ==> enabled && compare <= outstanding[0].compare
    }

    /** Everything due by the last update has fired. */
    ghost predicate Caught()
      reads this
    {
      0 <= clock && forall i :: 0 <= i < |outstanding| ==> clock < outstanding[i].compare
    }

    method Insert(t: Timer) returns (ghost at: nat)
      requires Valid() && Ticking(t) && t.key.client < clients && Lookup(outstanding, t.key) == None
      modifies this`outstanding
      ensures Valid()
      ensures at <= |old(outstanding)| && outstanding == Inserted(old(outstanding), at, t)
    {
      var found, pos := BinarySearch(outstanding, t.compare);
      SortedInserted(outstanding, pos, t);
      DistinctInserted(outstanding, pos, t);
      outstanding, at := Inserted(outstanding, pos, t), pos;
    }

    method UpdateTimers(count: int)
      requires Valid() && clock <= count
      modifies this`outstanding, this`completed, this`log, this`clock
      ensures Valid() && clock == count
      ensures forall i :: 0 <= i < |outstanding| ==> count < outstanding[i].compare
      ensures Settled(old(outstanding), old(log), outstanding, log, count)
      ensures |old(log)| <= |log| && log[..|old(log)|] == old(log) && Ordered(log, |old(log)|)
      ensures |log| == |old(log)| + Owed(old(outstanding), count)
      ensures CompletedAs(old(completed), old(outstanding), completed, clients, count)
    {
      OwesAllRefl(outstanding, log, count);
      while 0 < |outstanding| && outstanding[0].compare <= count
        invariant Valid()
        invariant OwesAll(old(outstanding), old(log), outstanding, log, count)
        invariant SameDone(old(completed), old(outstanding), completed, outstanding, count)
        invariant Logged(old(log))
        invariant |log| + Owed(outstanding, count) == |old(log)| + Owed(old(outstanding), count)
        decreases Owed(outstanding, count)
      {
        hide OwesAll, SameDone, Logged;
        ghost var ts, was, done := outstanding, log, completed;
        Fire(old(log), count);
        OwesAllFired(old(outstanding), old(log), ts, was, outstanding, count);
        SameDoneFired(old(completed), old(outstanding), done, ts, outstanding, count);
      }
      AllSettled(old(outstanding), old(log), outstanding, log, count);
      AllDone(old(completed), old(outstanding), count);
      OwedNothing(outstanding, count);
      clock := count;
    }

    /** The log extends before in order of deadline, and no outstanding timer is earlier than what it added. */
    ghost predicate Logged(before: seq<Firing>)
      reads this
    {
      && |before| <= |log| && log[..|before|] == before && Ordered(log, |before|)
      && forall i, j :: |before| <= i < |log| && 0 <= j < |outstanding| ==> log[i].at <= outstanding[j].compare
    }

    lemma AllDone(before: map<nat, set<int>>, ts: seq<Timer>, count: int)
      requires Valid() && SameDone(before, ts, completed, outstanding, count)
      requires forall i :: 0 <= i < |outstanding| ==> count < outstanding[i].compare
      ensures CompletedAs(before, ts, completed, clients, count)
    {
      forall k: Key | k.client < clients ensures CompletedFor(before, Lookup(ts, k), completed, k, count) {
        LookupFinds(outstanding, k);
        assert Done(before, Lookup(ts, k), k, count) == Done(completed, Lookup(outstanding, k), k, count);
      }
    }

    method Fire(ghost before: seq<Firing>, count: int)
      requires Valid() && Logged(before) && outstanding != [] && outstanding[0].compare <= count
      modifies this`outstanding, this`completed, this`log
      ensures Valid() && Fired(old(outstanding), outstanding)
      ensures var t := old(outstanding)[0];
        && log == old(log) + [Firing(t.key, t.compare)]
        && completed == old(completed)[t.key.client := old(completed)[t.key.client] + {t.key.timer}]
      ensures Logged(before)
      ensures Owed(outstanding, count) + 1 == Owed(old(outstanding), count)
    {
      hide Sorted, Distinct, AllTicking, Owed, Deadlines, Ordered;
      var t := outstanding[0];
      TailOf(outstanding, count);
      outstanding := outstanding[1..];
      completed := completed[t.key.client := completed[t.key.client] + {t.key.timer}];
      if t.period.Some? {
        ghost var at := Insert(Again(t));
        assert Fired(old(outstanding), outstanding);
        OwedInserted(old(outstanding)[1..], at, Again(t), count);
        InsertedLater(old(outstanding)[1..], at, Again(t), t.compare);
      }
      FiringOrdered(old(log), |before|, Firing(t.key, t.compare));
      log := log + [Firing(t.key, t.compare)];
    }

    /**
     update and update_device, which call each other: late holds the counts read after each
     set_compare that fails, the one after that succeeds.
     */
    method Update(count: int, late: seq<int>)
      requires Valid() && 0 <= clock <= count && Ascending([count] + late)
      modifies this
      ensures Valid() && Armed() && Caught()
      ensures count <= clock && clock in [count] + late
      ensures Settled(old(outstanding), old(log), outstanding, log, clock)
      ensures CompletedAs(old(completed), old(outstanding), completed, clients, clock)
      ensures if outstanding == [] then !enabled else compare == outstanding[0].compare
      decreases |late|
    {
      hide Settled, CompletedAs;
      UpdateTimers(count);
      if outstanding != [] {
        compare := outstanding[0].compare;
        if late == [] {
          enabled := true;
        } else {
          AscendingTail(count, late);
          ghost var ts, was, done := outstanding, log, completed;
          Update(late[0], late[1..]);
          CompletedTrans(old(completed), old(outstanding), old(log), done, ts, was, completed, clients, count, clock);
          SettledTrans(old(outstanding), old(log), ts, was, outstanding, log, count, clock);
        }
      } else {
        enabled := false;
      }
    }

    /** remove_timer: what it drains it also takes off the completed timers. */
    method RemoveTimer(k: Key)
      requires Valid() && k.client < clients
      modifies this`outstanding, this`completed
      ensures Valid() && outstanding == Without(old(outstanding), k)
      ensures completed == Cleared(old(completed), old(outstanding), k)
      ensures old(Armed()) ==> Armed()
      ensures old(Caught()) ==> Caught()
    {
      hide Without, Lookup, Uncompleted, Sorted, Distinct, AllTicking;
      var kept, i := [], 0;
      ghost var hit := false;
      assert outstanding[0..] == outstanding;
      while i < |outstanding|
        invariant 0 <= i <= |outstanding| && outstanding == old(outstanding)
        invariant k.client in completed
        invariant kept + Without(outstanding[i..], k) == Without(outstanding, k)
        invariant if hit then Lookup(outstanding, k) != None else Lookup(outstanding, k) == Lookup(outstanding[i..], k)
        invariant completed == if hit then Uncompleted(old(completed), k) else old(completed)
      {
        DrainStep(outstanding, i, k);
        if outstanding[i].key == k {
          UncompletedTwice(old(completed), k);
          completed := Uncompleted(completed, k);
          hit := true;
        } else {
          Associate(kept, [outstanding[i]], Without(outstanding[i + 1..], k));
          kept := kept + [outstanding[i]];
        }
        i := i + 1;
      }
      assert outstanding[i..] == [];
      DrainEnd(kept, outstanding, k);
      outstanding := kept;
    }

    method SetTimer(t: Timer)
      requires Valid() && Ticking(t) && t.key.client < clients
      modifies this`outstanding, this`completed
      ensures Valid()
      ensures forall k :: Lookup(outstanding, k) == if k == t.key then Some(t) else Lookup(old(outstanding), k)
      ensures completed == Cleared(old(completed), old(outstanding), t.key)
    {
      RemoveTimer(t.key);
      LookupWithout(old(outstanding), t.key, t.key);
      ghost var at := Insert(t);
      forall k ensures Lookup(outstanding, k) == if k == t.key then Some(t) else Lookup(old(outstanding), k) {
        LookupWithout(old(outstanding), t.key, k);
        LookupInserted(Without(old(outstanding), t.key), at, t, k);
      }
    }

    /**
     oneshot_relative, oneshot_absolute, periodic, stop and handle_interrupt.  Exactly a period
     below one tick gets no answer: the list that the update starts from then never runs out of
     timers that are due, by NeverEnds.
     */
    method Serve(r: Request, now: int, late: seq<int>) returns (outcome: Outcome)
      requires Valid() && Armed() && Caught() && clock <= now && Ascending([now] + late)
      requires !r.Interrupt? ==> r.key.client < clients
      modifies this
      ensures outcome.Endless? <==> r.Periodic? && r.key.timer <= timersPerClient && r.ns * freq < 1_000_000_000
      ensures outcome.Refused? <==> !r.Interrupt? && timersPerClient < r.key.timer
      ensures outcome.Endless? ==> Sorted(outstanding) && Stuck(outstanding, now)
      ensures !outcome.Endless? ==> Valid() && Armed() && Caught()
      ensures outcome.Refused? ==> outstanding == old(outstanding) && completed == old(completed)
      ensures outcome.Served? && !r.Stop? ==> now <= clock && clock in [now] + late
      ensures outcome.Refused? || (outcome.Served? && r.Stop?) ==> clock == old(clock) && log == old(log)
      ensures !outcome.Endless? ==> forall k ::
        SettledFor(Requested(r, freq, timersPerClient, now, k, Lookup(old(outstanding), k)), Of(old(log), k),
                   Lookup(outstanding, k), Of(log, k), clock)
      ensures outcome.Served? && !r.Interrupt? ==>
        OnSchedule(r, freq, now, clock, Of(old(log), r.key), Of(log, r.key))
      ensures !outcome.Endless? ==> forall k :: r.Interrupt? || r.key != k ==>
        SettledFor(Lookup(old(outstanding), k), Of(old(log), k), Lookup(outstanding, k), Of(log, k), clock)
      ensures !outcome.Endless? ==> forall k: Key :: k.client < clients ==>
        k.client in completed && k.client in old(completed) &&
        (k.timer in completed[k.client] <==>
         || Of(log, k) != Of(old(log), k)
         || (k.timer in old(completed)[k.client] &&
             !(outcome.Served? && !r.Interrupt? && r.key == k && Lookup(old(outstanding), k).Some?)))
    {
      hide SettledFor, Lookup, Of, NsToTick, Cleared, CompletedFor, OnSchedule;
      UnlawfulIs(r, freq, timersPerClient);
      if !Lawful(r, freq, timersPerClient) {
        var period := NsToTick(freq, r.ns);
        var t := Timer(r.key, now + period, Some(period));
        RemoveTimer(r.key);
        var found, at := BinarySearch(outstanding, t.compare);
        SortedInserted(outstanding, at, t);
        PeriodTooShort(outstanding, at, r.key, freq, r.ns, now);
        outstanding := Inserted(outstanding, at, t);
        return Endless;
      }
      var ok := ServeLawful(r, now, late);
      outcome := if ok then Served else Refused;
      if ok && !r.Interrupt? {
        RequestedAlone(r, freq, timersPerClient, now, r.key, Lookup(old(outstanding), r.key));
        ScheduleKept(r, freq, timersPerClient, r.key, now, clock, Of(old(log), r.key), Lookup(outstanding, r.key),
                     Of(log, r.key));
      }
      forall k: Key | k.client < clients ensures
        k.client in completed && k.client in old(completed) &&
        (k.timer in completed[k.client] <==>
         || Of(log, k) != Of(old(log), k)
         || (k.timer in old(completed)[k.client] &&
             !(ok && !r.Interrupt? && r.key == k && Lookup(old(outstanding), k).Some?)))
      {
        CompletedIsFired(old(completed), old(outstanding), r, ok,
                         Requested(r, freq, timersPerClient, now, k, Lookup(old(outstanding), k)), Of(old(log), k),
                         Lookup(outstanding, k), Of(log, k), completed, k, clock);
      }
    }

    method ServeLawful(r: Request, now: int, late: seq<int>) returns (ok: bool)
      requires Valid() && Armed() && Caught() && clock <= now && Ascending([now] + late)
      requires !r.Interrupt? ==> r.key.client < clients
      requires Lawful(r, freq, timersPerClient)
      modifies this
      ensures Valid() && Armed() && Caught()
      ensures ok == (r.Interrupt? || r.key.timer <= timersPerClient)
      ensures !ok ==> outstanding == old(outstanding) && completed == old(completed)
      ensures if ok && !r.Stop? then now <= clock && clock in [now] + late else clock == old(clock) && log == old(log)
      ensures forall k :: SettledFor(Requested(r, freq, timersPerClient, now, k, Lookup(old(outstanding), k)),
                                     Of(old(log), k), Lookup(outstanding, k), Of(log, k), clock)
      ensures forall k: Key :: k.client < clients ==>
        CompletedFor(if ok && !r.Interrupt? then Cleared(old(completed), old(outstanding), r.key) else old(completed),
                     Requested(r, freq, timersPerClient, now, k, Lookup(old(outstanding), k)), completed, k, clock)
    {
      hide SettledFor, Lookup, Of, NsToTick, Cleared, CompletedFor;
      ok := r.Interrupt? || r.key.timer <= timersPerClient;
      if !ok {
        SettledRefl(outstanding, log, clock);
        CompletedRefl(completed, outstanding, clients, clock);
        return;
      }
      match r
      case Interrupt =>
        Update(now, late);
      case Stop(key) =>
        RemoveTimer(key);
        SettledRefl(outstanding, log, clock);
        CompletedRefl(completed, outstanding, clients, clock);
        forall k ensures
          Lookup(outstanding, k) == Requested(r, freq, timersPerClient, now, k, Lookup(old(outstanding), k))
        {
          LookupWithout(old(outstanding), key, k);
        }
      case OneshotRelative(key, ns) =>
        Start(Timer(key, now + NsToTick(freq, ns), None), now, late);
      case OneshotAbsolute(key, ns) =>
        Start(Timer(key, NsToTick(freq, ns), None), now, late);
      case Periodic(key, ns) =>
        var period := NsToTick(freq, ns);
        Start(Timer(key, now + period, Some(period)), now, late);
    }

    /** What the three ways of starting a timer have in common. */
    method Start(t: Timer, now: int, late: seq<int>)
      requires Valid() && Armed() && Caught() && clock <= now && Ascending([now] + late)
      requires t.key.client < clients && Ticking(t)
      modifies this
      ensures Valid() && Armed() && Caught() && clock in [now] + late && now <= clock
      ensures forall k ::
        SettledFor(if k == t.key then Some(t) else Lookup(old(outstanding), k), Of(old(log), k),
                   Lookup(outstanding, k), Of(log, k), clock)
      ensures forall k: Key :: k.client < clients ==>
        CompletedFor(Cleared(old(completed), old(outstanding), t.key),
                     if k == t.key then Some(t) else Lookup(old(outstanding), k), completed, k, clock)
    {
      hide SettledFor, Lookup, CompletedFor, Cleared;
      SetTimer(t);
      ghost var ts, done := outstanding, completed;
      Update(now, late);
      forall k: Key | k.client < clients ensures
        CompletedFor(done, if k == t.key then Some(t) else Lookup(old(outstanding), k), completed, k, clock)
      {
        assert CompletedFor(done, Lookup(ts, k), completed, k, clock);
      }
      forall k ensures
        SettledFor(if k == t.key then Some(t) else Lookup(old(outstanding), k), Of(old(log), k),
                   Lookup(outstanding, k), Of(log, k), clock)
      {
        assert SettledFor(Lookup(ts, k), Of(old(log), k), Lookup(outstanding, k), Of(log, k), clock);
      }
    }

    /** Whenever a deadline has come, the device's interrupt condition holds: none is missed. */
    lemma NoneMissed(now: int, i: nat)
      requires Valid() && Armed() && i < |outstanding| && outstanding[i].compare <= now
      ensures enabled && compare <= now
    {}

    /**
     Any run of requests and interrupts, with any number of failing set_compares, up to a request
     that gets no answer: every timer fires as if it were alone in the server, and the device stays
     armed for what is left.
     */
    method Session(inputs: seq<Input>) returns (served: nat, ghost clocks: seq<int>, ghost moments: seq<Moment>)
      requires Valid() && Armed() && Caught() && Timely(inputs, clock)
      requires forall i :: 0 <= i < |inputs| && !inputs[i].request.Interrupt? ==> inputs[i].request.key.client < clients
      modifies this
      ensures Valid() && Armed() && Caught() && |clocks| == served <= |inputs|
      ensures forall i :: 0 <= i < served ==> Lawful(inputs[i].request, freq, timersPerClient)
      ensures served < |inputs| ==>
        var r := inputs[served].request;
        r.Periodic? && r.key.timer <= timersPerClient && r.ns * freq < 1_000_000_000
      ensures Clocked(inputs[..served], clocks, old(clock), timersPerClient)
      ensures forall k :: Behaves(k, inputs[..served], clocks, old(outstanding), old(log))
      ensures |moments| == served + 1 && moments[0] == old(Moment(outstanding, log))
      ensures moments[served] == Moment(outstanding, log)
      ensures forall k, j, e :: 0 <= j < e <= served ==>
        Punctual(freq, timersPerClient, inputs[..served], clocks, moments, k, j, e)
    {
      hide Lawful, Behaves, Clocked, Timely, Proceeds, Punctual;
      served := 0;
      while served < |inputs| && Lawful(inputs[served].request, freq, timersPerClient)
        invariant served <= |inputs|
        invariant forall i :: 0 <= i < served ==> Lawful(inputs[i].request, freq, timersPerClient)
      {
        served := served + 1;
      }
      if served < |inputs| { UnlawfulIs(inputs[served].request, freq, timersPerClient); }
      TimelyPrefix(inputs, clock, served);
      clocks, moments := SessionLawful(inputs[..served]);
      ClocksAscend(inputs[..served], clocks, old(clock), timersPerClient);
      ProceedsLengths(freq, timersPerClient, inputs[..served], clocks, moments);
      forall k, j, e | 0 <= j < e <= served
        ensures Punctual(freq, timersPerClient, inputs[..served], clocks, moments, k, j, e)
      {
        RunsArePunctual(freq, timersPerClient, inputs[..served], clocks, moments, k, j, e);
      }
    }

    method SessionLawful(inputs: seq<Input>) returns (ghost clocks: seq<int>, ghost moments: seq<Moment>)
      requires Valid() && Armed() && Caught() && Timely(inputs, clock)
      requires forall i :: 0 <= i < |inputs| ==> Lawful(inputs[i].request, freq, timersPerClient)
      requires forall i :: 0 <= i < |inputs| && !inputs[i].request.Interrupt? ==> inputs[i].request.key.client < clients
      modifies this
      ensures Valid() && Armed() && Caught() && |clocks| == |inputs|
      ensures Clocked(inputs, clocks, old(clock), timersPerClient)
      ensures forall k :: Behaves(k, inputs, clocks, old(outstanding), old(log))
      ensures Proceeds(freq, timersPerClient, inputs, clocks, moments)
      ensures |moments| == |inputs| + 1 && moments[0] == old(Moment(outstanding, log))
      ensures moments[|inputs|] == Moment(outstanding, log)
      decreases |inputs|
    {
      clocks, moments := [], [Moment(outstanding, log)];
      if inputs == [] {
        forall k ensures Behaves(k, inputs, clocks, outstanding, log) {
          LookupFinds(outstanding, k);
        }
      } else {
        assert AllTicking(outstanding);
        hide SettledFor, Lookup, Of, Requested, Proceeds, Behaves, AllTicking, Sorted, Distinct, Lawful, Timely;
        var input := inputs[0];
        var ok := ServeLawful(input.request, input.now, input.late);
        ghost var first, ts, was := clock, outstanding, log;
        TimelyTail(inputs, old(clock), first);
        ghost var others, after := SessionLawful(inputs[1..]);
        ProceedsOn(freq, timersPerClient, inputs, others, moments[0], after, first);
        clocks, moments := [first] + others, moments + after;
        assert clocks[1..] == others;
        forall k ensures Behaves(k, inputs, clocks, old(outstanding), old(log)) {
          BehavesOn(k, inputs, clocks, old(outstanding), old(log), ts, was);
        }
      }
    }

    lemma BehavesOn(k: Key, inputs: seq<Input>, clocks: seq<int>, before: seq<Timer>, log0: seq<Firing>, ts: seq<Timer>,
                    was: seq<Firing>)
      requires inputs != [] && |inputs| == |clocks| && AllTicking(before)
      requires forall i :: 0 <= i < |inputs| ==> Lawful(inputs[i].request, freq, timersPerClient)
      requires SettledFor(Requested(inputs[0].request, freq, timersPerClient, inputs[0].now, k, Lookup(before, k)),
                          Of(log0, k), Lookup(ts, k), Of(was, k), clocks[0])
      requires Behaves(k, inputs[1..], clocks[1..], ts, was)
      ensures Behaves(k, inputs, clocks, before, log0)
    {
      LookupFinds(before, k);
      hide SettledFor, Lookup, Of, Requested, Solo, Lawful;
      SoloStep(k, freq, timersPerClient, inputs, clocks, Alone(Lookup(before, k), Of(log0, k)),
               Alone(Lookup(ts, k), Of(was, k)));
    }

    /** Timer k went from where ts and log have it to where it is now, on its own schedule. */
    ghost predicate Behaves(k: Key, inputs: seq<Input>, clocks: seq<int>, ts: seq<Timer>, log: seq<Firing>)
      requires |inputs| == |clocks|
      requires forall i :: 0 <= i < |inputs| ==> Lawful(inputs[i].request, freq, timersPerClient)
      reads this
    {
      && (Lookup(ts, k).Some? ==> Ticking(Lookup(ts, k).value))
      && Solo(k, freq, timersPerClient, inputs, clocks, Alone(Lookup(ts, k), Of(log, k)))
        == Alone(Lookup(outstanding, k), Of(this.log, k))
    }
  }
}
