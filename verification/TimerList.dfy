/**
 The timer server's list: timers in order of deadline, at most one for each client and number.

 Where a timer goes among others with the same deadline is up to the binary search, so nothing
 here depends on it: a list is seen through Lookup, which finds a timer by its key.
 */
module TimerList {
  import opened Basics

  datatype Key = Key(client: nat, timer: int)

  datatype Timer = Timer(key: Key, compare: int, period: Option<int>)

  ghost predicate Sorted(ts: seq<Timer>) {
    forall i, j :: 0 <= i < j < |ts| ==> ts[i].compare <= ts[j].compare
  }

  ghost function Lookup(ts: seq<Timer>, k: Key): Option<Timer> {
    if ts == [] then None
    else if ts[0].key == k then Some(ts[0])
    else Lookup(ts[1..], k)
  }

  ghost predicate Distinct(ts: seq<Timer>) {
    ts == [] || (Lookup(ts[1..], ts[0].key) == None && Distinct(ts[1..]))
  }

  lemma {:induction false} LookupFinds(ts: seq<Timer>, k: Key)
    ensures match Lookup(ts, k)
      case Some(t) => t in ts && t.key == k
      case None => forall t :: t in ts ==> t.key != k
  {
    if ts != [] {
      LookupFinds(ts[1..], k);
    }
  }

  /** One entry per client and timer number. */
  lemma DistinctKeys(ts: seq<Timer>, i: nat, j: nat)
    requires Distinct(ts) && i < j < |ts|
    ensures ts[i].key != ts[j].key
  {
    DistinctTail(ts, i);
    LookupFinds(ts[i..][1..], ts[i].key);
    assert ts[i..][1..][j - i - 1] == ts[j];
  }

  lemma {:induction false} DistinctTail(ts: seq<Timer>, i: nat)
    requires Distinct(ts) && i <= |ts|
    ensures Distinct(ts[i..])
  {
    if i == 0 {
      assert ts[0..] == ts;
    } else {
      DistinctTail(ts[1..], i - 1);
      assert ts[1..][i - 1..] == ts[i..];
    }
  }

  function Inserted(ts: seq<Timer>, at: nat, t: Timer): (us: seq<Timer>)
    requires at <= |ts|
  {
    ts[..at] + [t] + ts[at..]
  }

  lemma InsertedTail(ts: seq<Timer>, at: nat, t: Timer)
    requires 0 < at <= |ts|
    ensures Inserted(ts, at, t)[0] == ts[0] && Inserted(ts, at, t)[1..] == Inserted(ts[1..], at - 1, t)
  {}

  lemma {:induction false} LookupInserted(ts: seq<Timer>, at: nat, t: Timer, k: Key)
    requires at <= |ts| && Lookup(ts, t.key) == None
    ensures Lookup(Inserted(ts, at, t), k) == if k == t.key then Some(t) else Lookup(ts, k)
  {
    if at == 0 {
      assert Inserted(ts, at, t)[1..] == ts;
    } else {
      InsertedTail(ts, at, t);
      LookupInserted(ts[1..], at - 1, t, k);
    }
  }

  lemma {:induction false} DistinctInserted(ts: seq<Timer>, at: nat, t: Timer)
    requires Distinct(ts) && at <= |ts| && Lookup(ts, t.key) == None
    ensures Distinct(Inserted(ts, at, t))
  {
    if at == 0 {
      assert Inserted(ts, at, t)[1..] == ts;
    } else {
      InsertedTail(ts, at, t);
      DistinctInserted(ts[1..], at - 1, t);
      LookupInserted(ts[1..], at - 1, t, ts[0].key);
    }
  }

  /** Whether at splits ts into deadlines no later than c and deadlines no earlier. */
  ghost predicate Fits(ts: seq<Timer>, at: nat, c: int) {
    && at <= |ts|
    && (forall i :: 0 <= i < at ==> ts[i].compare <= c)
    && (forall i :: at <= i < |ts| ==> c <= ts[i].compare)
  }

  lemma SortedInserted(ts: seq<Timer>, at: nat, t: Timer)
    requires Sorted(ts) && Fits(ts, at, t.compare)
    ensures Sorted(Inserted(ts, at, t))
  {}

  /** The binary search of the standard library: any match, or else the place to insert. */
  method BinarySearch(ts: seq<Timer>, c: int) returns (found: bool, at: nat)
    requires Sorted(ts)
    ensures Fits(ts, at, c)
    ensures found ==> at < |ts| && ts[at].compare == c
    ensures !found ==> forall i :: 0 <= i < |ts| ==> ts[i].compare != c
  {
    var lo, hi := 0, |ts|;
    while lo < hi
      invariant 0 <= lo <= hi <= |ts|
      invariant forall i :: 0 <= i < lo ==> ts[i].compare < c
      invariant forall i :: hi <= i < |ts| ==> c < ts[i].compare
    {
      var mid := lo + (hi - lo) / 2;
      if ts[mid].compare == c {
        return true, mid;
      } else if ts[mid].compare < c {
        lo := mid + 1;
      } else {
        hi := mid;
      }
    }
    return false, lo;
  }

  /** What drain_filter leaves when it takes out the timers with key k. */
  function Without(ts: seq<Timer>, k: Key): (us: seq<Timer>) {
    if ts == [] then []
    else (if ts[0].key == k then [] else [ts[0]]) + Without(ts[1..], k)
  }

  lemma {:induction false} LookupWithout(ts: seq<Timer>, k: Key, l: Key)
    ensures Lookup(Without(ts, k), l) == if l == k then None else Lookup(ts, l)
  {
    if ts != [] {
      LookupWithout(ts[1..], k, l);
      if ts[0].key == k {
        assert Without(ts, k) == Without(ts[1..], k);
      } else {
        assert Without(ts, k)[1..] == Without(ts[1..], k);
      }
    }
  }

  lemma {:induction false} DistinctWithout(ts: seq<Timer>, k: Key)
    requires Distinct(ts)
    ensures Distinct(Without(ts, k))
  {
    if ts != [] {
      DistinctWithout(ts[1..], k);
      if ts[0].key == k {
        assert Without(ts, k) == Without(ts[1..], k);
      } else {
        assert Without(ts, k)[1..] == Without(ts[1..], k);
        LookupWithout(ts[1..], k, ts[0].key);
      }
    }
  }

  lemma {:induction false} WithoutMembers(ts: seq<Timer>, k: Key)
    ensures forall t :: t in Without(ts, k) ==> t in ts
  {
    if ts != [] {
      WithoutMembers(ts[1..], k);
    }
  }

  lemma {:induction false} SortedWithout(ts: seq<Timer>, k: Key)
    requires Sorted(ts)
    ensures Sorted(Without(ts, k))
  {
    if ts != [] {
      SortedWithout(ts[1..], k);
      WithoutMembers(ts[1..], k);
      assert forall t :: t in ts[1..] ==> ts[0].compare <= t.compare;
    }
  }

  // ----- Deadlines -----

  /** A period of at least one tick. */
  predicate Ticking(t: Timer) {
    t.period.Some? ==> 1 <= t.period.value
  }

  ghost predicate AllTicking(ts: seq<Timer>) {
    forall i :: 0 <= i < |ts| ==> Ticking(ts[i])
  }

  function Again(t: Timer): (u: Timer)
    requires t.period.Some?
  {
    t.(compare := t.compare + t.period.value)
  }

  /** The deadlines of t up to count, and what is left of t then. */
  ghost function Deadlines(t: Timer, count: int): (ds: seq<int>)
    requires Ticking(t)
    decreases count - t.compare
  {
    if count < t.compare then []
    else [t.compare] + if t.period.None? then [] else Deadlines(Again(t), count)
  }

  ghost function After(t: Timer, count: int): Option<Timer>
    requires Ticking(t)
    decreases count - t.compare
  {
    if count < t.compare then Some(t)
    else if t.period.None? then None
    else After(Again(t), count)
  }

  function Quotient(count: int, t: Timer): (n: nat)
    requires t.compare <= count && t.period.Some? && Ticking(t)
  {
    (count - t.compare) / t.period.value
  }

  lemma OneMore(a: int, b: int, p: int)
    requires 0 < p && b == a + p
    ensures b / p == a / p + 1
  {
    assert a == p * (a / p) + a % p;
    assert b == p * (a / p + 1) + a % p;
    UniqueQuotient(b, p, a / p + 1, a % p);
  }

  /** A due periodic timer fires (count - c) / p + 1 times ... */
  lemma {:induction false} PeriodicCount(t: Timer, count: int)
    requires t.period.Some? && Ticking(t) && t.compare <= count
    ensures |Deadlines(t, count)| == Quotient(count, t) + 1
    decreases count - t.compare
  {
    var p := t.period.value;
    if count < t.compare + p {
      UniqueQuotient(count - t.compare, p, 0, count - t.compare);
    } else {
      PeriodicCount(Again(t), count);
      OneMore(count - t.compare - p, count - t.compare, p);
    }
  }

  /** ... at c, c + p, c + 2p and so on ... */
  lemma {:induction false} PeriodicDeadline(t: Timer, count: int, i: nat)
    requires t.period.Some? && Ticking(t) && i < |Deadlines(t, count)|
    ensures Deadlines(t, count)[i] == t.compare + i * t.period.value <= count
    decreases i
  {
    if 0 < i {
      PeriodicDeadline(Again(t), count, i - 1);
      assert i * t.period.value == (i - 1) * t.period.value + t.period.value;
    }
  }

  /** ... and is left at its first deadline after count, on the phase it started with. */
  lemma {:induction false} PeriodicNext(t: Timer, count: int)
    requires t.period.Some? && Ticking(t) && t.compare <= count
    ensures var p := t.period.value;
      && After(t, count) == Some(t.(compare := t.compare + (Quotient(count, t) + 1) * p))
      && count < After(t, count).value.compare <= count + p
    decreases count - t.compare
  {
    var p := t.period.value;
    if count < t.compare + p {
      UniqueQuotient(count - t.compare, p, 0, count - t.compare);
    } else {
      PeriodicNext(Again(t), count);
      OneMore(count - t.compare - p, count - t.compare, p);
      assert (Quotient(count, t) + 1) * p == (Quotient(count, Again(t)) + 1) * p + p;
    }
  }

  lemma {:induction false} AfterTicks(t: Timer, count: int)
    requires Ticking(t)
    ensures var u := After(t, count); u.Some? ==> Ticking(u.value) && u.value.key == t.key && count < u.value.compare
    decreases count - t.compare
  {
    if t.compare <= count && t.period.Some? {
      AfterTicks(Again(t), count);
    }
  }

  /** What becomes due of a timer that may not be there. */
  ghost function DueOf(o: Option<Timer>, count: int): (ds: seq<int>)
    requires o.Some? ==> Ticking(o.value)
  {
    if o.None? then [] else Deadlines(o.value, count)
  }

  ghost function LeftOf(o: Option<Timer>, count: int): Option<Timer>
    requires o.Some? ==> Ticking(o.value)
  {
    if o.None? then None else After(o.value, count)
  }

  /** Updating early and then late is updating late: no deadline is lost or doubled in between. */
  lemma {:induction false} UpdatesCompose(t: Timer, early: int, late: int)
    requires Ticking(t) && early <= late
    ensures var u := After(t, early); u.Some? ==> Ticking(u.value)
    ensures Deadlines(t, early) + DueOf(After(t, early), late) == Deadlines(t, late)
    ensures LeftOf(After(t, early), late) == After(t, late)
    decreases early - t.compare
  {
    AfterTicks(t, early);
    if t.compare <= early && t.period.Some? {
      var u := Again(t);
      Unfolded(t, early);
      Unfolded(t, late);
      hide Deadlines, After;
      UpdatesCompose(u, early, late);
      Associate([t.compare], Deadlines(u, early), DueOf(After(u, early), late));
    }
  }

  lemma Unfolded(t: Timer, count: int)
    requires Ticking(t) && t.compare <= count && t.period.Some?
    ensures Deadlines(t, count) == [t.compare] + Deadlines(Again(t), count)
    ensures After(t, count) == After(Again(t), count)
  {}

  /** How many firings a list owes by count; every round of the loop settles one. */
  ghost function Owed(ts: seq<Timer>, count: int): nat
    requires AllTicking(ts)
  {
    if ts == [] then 0 else
    assert forall i :: 0 <= i < |ts[1..]| ==> ts[1..][i] == ts[i + 1];
    |Deadlines(ts[0], count)| + Owed(ts[1..], count)
  }

  lemma {:induction false} OwedInserted(ts: seq<Timer>, at: nat, t: Timer, count: int)
    requires AllTicking(ts) && Ticking(t) && at <= |ts|
    ensures AllTicking(Inserted(ts, at, t))
    ensures Owed(Inserted(ts, at, t), count) == |Deadlines(t, count)| + Owed(ts, count)
  {
    if at == 0 {
      assert Inserted(ts, at, t)[1..] == ts;
    } else {
      InsertedTail(ts, at, t);
      OwedInserted(ts[1..], at - 1, t, count);
    }
  }

  // ----- Periods below one tick -----

  ghost predicate Stuck(ts: seq<Timer>, count: int) {
    exists t :: t in ts && t.compare <= count && !Ticking(t)
  }

  /** One round of the update loop, whatever place the binary search picks. */
  ghost predicate Round(ts: seq<Timer>, us: seq<Timer>, count: int) {
    && ts != [] && ts[0].compare <= count
    && if ts[0].period.None? then us == ts[1..]
       else exists at: nat :: Fits(ts[1..], at, Again(ts[0]).compare) && us == Inserted(ts[1..], at, Again(ts[0]))
  }

  lemma RoundKeepsSorted(ts: seq<Timer>, us: seq<Timer>, count: int)
    requires Sorted(ts) && Round(ts, us, count)
    ensures Sorted(us)
  {
    if ts[0].period.Some? {
      var at: nat :| Fits(ts[1..], at, Again(ts[0]).compare) && us == Inserted(ts[1..], at, Again(ts[0]));
      SortedInserted(ts[1..], at, Again(ts[0]));
    }
  }

  lemma StaysStuck(ts: seq<Timer>, us: seq<Timer>, count: int)
    requires Stuck(ts, count) && Round(ts, us, count)
    ensures Stuck(us, count)
  {
    var t :| t in ts && t.compare <= count && !Ticking(t);
    var i :| 0 <= i < |ts| && ts[i] == t;
    if ts[0].period.None? {
      assert us[i - 1] == t;
    } else {
      var at: nat :| Fits(ts[1..], at, Again(ts[0]).compare) && us == Inserted(ts[1..], at, Again(ts[0]));
      var u := StuckAgain(ts, us, i, at);
      assert u in us;
    }
  }

  lemma StuckAgain(ts: seq<Timer>, us: seq<Timer>, i: nat, at: nat) returns (u: Timer)
    requires i < |ts| && !Ticking(ts[i]) && ts[0].period.Some? && at < |ts|
    requires us == Inserted(ts[1..], at, Again(ts[0]))
    ensures u in us && !Ticking(u) && u.compare <= ts[i].compare
  {
    if i == 0 {
      u := us[at];
      assert u == Again(ts[0]);
    } else {
      assert ts[1..][i - 1] == ts[i];
      u := us[if i - 1 < at then i - 1 else i];
      assert u == ts[i];
    }
  }

  /**
   A due timer whose period is zero or negative stays due: after any number of rounds the loop
   condition still holds, so the update never ends.
   */
  lemma {:induction false} NeverEnds(lists: seq<seq<Timer>>, count: int)
    requires lists != [] && Sorted(lists[0]) && Stuck(lists[0], count)
    requires forall i :: 0 < i < |lists| ==> Round(lists[i - 1], lists[i], count)
    ensures var ts := lists[|lists| - 1]; Sorted(ts) && Stuck(ts, count) && ts != [] && ts[0].compare <= count
  {
    hide Round;
    var n := |lists| - 1;
    if 0 < n {
      NeverEnds(lists[..n], count);
      RoundKeepsSorted(lists[n - 1], lists[n], count);
      StaysStuck(lists[n - 1], lists[n], count);
    }
    var t :| t in lists[n] && t.compare <= count && !Ticking(t);
    var i :| 0 <= i < |lists[n]| && lists[n][i] == t;
  }
}
