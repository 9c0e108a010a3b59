/**
 The mutex made of an atomic counter and an seL4 notification, for any number of threads.

 Every atomic operation on the counter and every wait or signal on the notification is a step
 of its own.  A notification remembers at most one signal: a second signal before a wait is lost.
 */
module Mutex {
  type ThreadId = nat

  datatype State = State(
    value: int,                 // the counter, 1 when nobody is interested
    pending: bool,              // an unconsumed signal
    waiting: set<ThreadId>,     // in lock(), about to wait
    inside: set<ThreadId>,      // holding the lock
    signalling: set<ThreadId>)  // in unlock(), about to signal

  datatype Step =
    | Lock(t: ThreadId)    // fetch_sub in lock()
    | Wake(t: ThreadId)    // wait() returns
    | Unlock(t: ThreadId)  // fetch_add in unlock()
    | Signal(t: ThreadId)  // signal()

  predicate Outside(s: State, t: ThreadId) {
    t !in s.waiting && t !in s.inside && t !in s.signalling
  }

  predicate Enabled(s: State, step: Step) {
    match step
    case Lock(t) => Outside(s, t)
    case Wake(t) => t in s.waiting && s.pending
    case Unlock(t) => t in s.inside
    case Signal(t) => t in s.signalling
  }

  function Apply(s: State, step: Step): State {
    match step
    case Lock(t) =>
      if s.value <= 0 then s.(value := s.value - 1, waiting := s.waiting + {t})
      else s.(value := s.value - 1, inside := s.inside + {t})
    case Wake(t) => s.(pending := false, waiting := s.waiting - {t}, inside := s.inside + {t})
    case Unlock(t) =>
      var u := s.(value := s.value + 1, inside := s.inside - {t});
      if s.value < 0 then u.(signalling := u.signalling + {t}) else u
    case Signal(t) => s.(pending := true, signalling := s.signalling - {t})
  }

  const INIT := State(1, false, {}, {}, {})

  /** The right to enter: held inside, on its way in unlock(), or in the notification. */
  function Tokens(s: State): nat {
    |s.inside| + |s.signalling| + if s.pending then 1 else 0
  }

  ghost predicate Inv(s: State) {
    && s.waiting !! s.inside !! s.signalling
    && s.value == 1 - |s.inside| - |s.waiting|
    && Tokens(s) == (if s.value < 1 then 1 else 0)
  }

  lemma SetSizes<T>(a: set<T>, x: T)
    ensures x !in a ==> |a + {x}| == |a| + 1
    ensures x in a ==> |a - {x}| == |a| - 1 && 0 < |a|
  {}

  lemma LockKeepsInv(s: State, t: ThreadId)
    requires Inv(s) && Enabled(s, Lock(t))
    ensures Inv(Apply(s, Lock(t)))
  {
    SetSizes(s.waiting, t);
    SetSizes(s.inside, t);
  }

  lemma WakeKeepsInv(s: State, t: ThreadId)
    requires Inv(s) && Enabled(s, Wake(t))
    ensures Inv(Apply(s, Wake(t)))
  {
    SetSizes(s.waiting, t);
    SetSizes(s.inside, t);
  }

  lemma UnlockKeepsInv(s: State, t: ThreadId)
    requires Inv(s) && Enabled(s, Unlock(t))
    ensures Inv(Apply(s, Unlock(t)))
  {
    SetSizes(s.inside, t);
    SetSizes(s.signalling, t);
  }

  lemma SignalKeepsInv(s: State, t: ThreadId)
    requires Inv(s) && Enabled(s, Signal(t))
    ensures Inv(Apply(s, Signal(t)))
  {
    SetSizes(s.signalling, t);
  }

  lemma StepKeepsInv(s: State, step: Step)
    requires Inv(s) && Enabled(s, step)
    ensures Inv(Apply(s, step))
  {
    hide Inv, Enabled, Apply;
    match step
    case Lock(t) => LockKeepsInv(s, t);
    case Wake(t) => WakeKeepsInv(s, t);
    case Unlock(t) => UnlockKeepsInv(s, t);
    case Signal(t) => SignalKeepsInv(s, t);
  }

  ghost predicate IsRun(states: seq<State>, steps: seq<Step>) {
    && |states| == |steps| + 1 && states[0] == INIT
    && forall i :: 0 <= i < |steps| ==>
         Enabled(states[i], steps[i]) && states[i + 1] == Apply(states[i], steps[i])
  }

  lemma {:induction false} RunKeepsInv(states: seq<State>, steps: seq<Step>, i: nat)
    requires IsRun(states, steps) && i < |states|
    ensures Inv(states[i])
  {
    if 0 < i {
      RunKeepsInv(states, steps, i - 1);
      StepKeepsInv(states[i - 1], steps[i - 1]);
    }
  }

  lemma OnlyMember<T>(a: set<T>, x: T, y: T)
    requires |a| <= 1 && x in a && y in a
    ensures x == y
  {
    if x != y {
      SetSizes(a, x);
      SetSizes(a - {x}, y);
    }
  }

  /** In every run at most one thread is inside at a time. */
  lemma MutualExclusion(states: seq<State>, steps: seq<Step>, i: nat, t: ThreadId, u: ThreadId)
    requires IsRun(states, steps) && i < |states|
    requires t in states[i].inside && u in states[i].inside
    ensures t == u
  {
    RunKeepsInv(states, steps, i);
    OnlyMember(states[i].inside, t, u);
  }

  /** No signal is lost: a thread about to signal finds the notification empty, and is the only one. */
  lemma SignalsNeverCoalesce(states: seq<State>, steps: seq<Step>, i: nat, t: ThreadId, u: ThreadId)
    requires IsRun(states, steps) && i < |states| && t in states[i].signalling
    ensures !states[i].pending && states[i].inside == {}
    ensures u in states[i].signalling ==> u == t
  {
    RunKeepsInv(states, steps, i);
    var s := states[i];
    SetSizes(s.signalling, t);
    if u in s.signalling { OnlyMember(s.signalling, t, u); }
  }

  /** Steps that do not bring in new contenders. */
  ghost predicate Leads(s: State, steps: seq<Step>, t: State)
    decreases |steps|
  {
    if steps == [] then s == t
    else Enabled(s, steps[0]) && !steps[0].Lock? && Leads(Apply(s, steps[0]), steps[1..], t)
  }

  /**
   No waiter is stranded: in every reachable state with waiters, the thread that has the token
   passes it on and the waiter of our choice gets inside, in at most three steps.
   */
  lemma WaiterGetsIn(states: seq<State>, steps: seq<Step>, i: nat, t: ThreadId) returns (path: seq<Step>, end: State)
    requires IsRun(states, steps) && i < |states| && t in states[i].waiting
    ensures |path| <= 3 && Leads(states[i], path, end) && end.inside == {t}
  {
    RunKeepsInv(states, steps, i);
    var s := states[i];
    SetSizes(s.waiting, t);
    if s.pending {
      path, end := WakeUp(s, t);
    } else if s.inside != {} {
      var u :| u in s.inside;
      var s1 := Apply(s, Unlock(u));
      StepKeepsInv(s, Unlock(u));
      SetSizes(s.inside, u);
      SetSizes(s1.signalling, u);
      StepKeepsInv(s1, Signal(u));
      path, end := WakeUp(Apply(s1, Signal(u)), t);
      assert ([Signal(u)] + path)[1..] == path;
      path := [Signal(u)] + path;
      assert ([Unlock(u)] + path)[1..] == path;
      path := [Unlock(u)] + path;
    } else {
      var u :| u in s.signalling;
      SetSizes(s.signalling, u);
      StepKeepsInv(s, Signal(u));
      path, end := WakeUp(Apply(s, Signal(u)), t);
      assert ([Signal(u)] + path)[1..] == path;
      path := [Signal(u)] + path;
    }
  }

  lemma WakeUp(s: State, t: ThreadId) returns (path: seq<Step>, end: State)
    requires Inv(s) && s.pending && t in s.waiting
    ensures |path| == 1 && Leads(s, path, end) && end.inside == {t}
  {
    path, end := [Wake(t)], Apply(s, Wake(t));
    SetSizes(s.waiting, t);
    assert path[1..] == [];
  }

  // ----- Every schedule -----

  /** How many steps the threads in the mutex can take at most, if no other comes. */
  function Left(s: State): nat {
    4 * |s.waiting| + 3 * |s.inside| + 2 * |s.signalling| + if s.pending then 1 else 0
  }

  lemma StepUsesUp(s: State, step: Step)
    requires Enabled(s, step) && !step.Lock?
    ensures Left(Apply(s, step)) < Left(s)
  {
    SetSizes(s.waiting, step.t);
    SetSizes(s.inside, step.t);
    SetSizes(s.signalling, step.t);
    if step.Wake? && step.t in s.inside { assert s.inside + {step.t} == s.inside; }
    if step.Unlock? && step.t in s.signalling { assert s.signalling + {step.t} == s.signalling; }
  }

  /** The threads in the mutex are never all stuck: unless it is as new, one of them has a step to take. */
  lemma NotDoneGoesOn(s: State) returns (step: Step)
    requires Inv(s) && s != INIT
    ensures Enabled(s, step) && !step.Lock?
  {
    if s.inside != {} {
      var t :| t in s.inside;
      step := Unlock(t);
    } else if s.signalling != {} {
      var t :| t in s.signalling;
      step := Signal(t);
    } else {
      assert s.waiting != {};
      var t :| t in s.waiting;
      SetSizes(s.waiting, t);
      step := Wake(t);
    }
  }

  /**
   Once no other thread comes, every schedule of those in the mutex ends within a bound; a thread
   that was waiting has been woken by then, or is waiting still and the schedule can go on.
   */
  lemma {:induction false} EverySchedule(s: State, steps: seq<Step>, end: State, t: ThreadId)
    requires Inv(s) && Leads(s, steps, end)
    ensures Inv(end) && |steps| + Left(end) <= Left(s)
    ensures t in s.waiting ==> t in end.waiting || Wake(t) in steps
    ensures end == INIT <==> forall step :: Enabled(end, step) ==> step.Lock?
    decreases |steps|
  {
    if steps == [] {
      if end != INIT { var step := NotDoneGoesOn(end); }
    } else {
      hide Inv, Left, Enabled;
      StepKeepsInv(s, steps[0]);
      StepUsesUp(s, steps[0]);
      EverySchedule(Apply(s, steps[0]), steps[1..], end, t);
    }
  }

  /** With nobody inside, waiting or signalling, the mutex is as new. */
  lemma QuiescentIsInitial(states: seq<State>, steps: seq<Step>, i: nat)
    requires IsRun(states, steps) && i < |states|
    requires states[i].waiting == states[i].inside == states[i].signalling == {}
    ensures states[i] == INIT
  {
    RunKeepsInv(states, steps, i);
  }
}
