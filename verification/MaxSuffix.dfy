/**
 The loop of twoway_strstr that finds the maximal suffix of the needle together with its
 least period, for either alphabet order.
 */
module MaxSuffix {
  import opened Words

  /** How far position `t` is into a block when blocks of length `p` start at `a`. */
  function Offset(a: nat, p: nat, t: nat): (s: nat)
    requires 0 < p && a <= t
    ensures s < p && s <= t - a
    decreases t
  {
    if t < a + p then t - a else Offset(a, p, t - p)
  }

  lemma {:induction false} OffsetAdd(a: nat, p: nat, t: nat, d: nat)
    requires 0 < p && a <= t && Offset(a, p, t) + d <= p
    ensures Offset(a, p, t + d) == if Offset(a, p, t) + d < p then Offset(a, p, t) + d else 0
    decreases t
  {
    if a + p <= t { OffsetAdd(a, p, t - p, d); }
  }

  lemma {:induction false} OffsetFromBlock(a: nat, p: nat, t: nat, d: nat)
    requires 0 < p && a <= t && Offset(a, p, t) == 0
    ensures Offset(a, p, t + d) == Offset(a, p, a + d)
    decreases t
  {
    if a + p <= t { OffsetFromBlock(a, p, t - p, d); }
  }

  lemma {:induction false} PeriodicLetter(y: seq<int>, a: nat, p: nat, t: nat)
    requires 0 < p && HasPeriod(y, a, p) && a <= t < |y|
    ensures y[t] == y[a + Offset(a, p, t)]
    decreases t
  {
    if a + p <= t { PeriodicLetter(y, a, p, t - p); }
  }

  ghost predicate BeatenWithin(x: seq<int>, rev: bool, a: nat, e: nat, t: nat) {
    exists d: nat :: t + d < e && SmallerAt(x, rev, t, a, d)
  }

  /** Every start after `a` and before `e` loses to `a` on a letter before `e`. */
  ghost predicate Dominates(x: seq<int>, rev: bool, a: nat, e: nat) {
    forall t: nat :: a < t < e ==> BeatenWithin(x, rev, a, e, t)
  }

  ghost predicate BeatsEarlier(x: seq<int>, rev: bool, a: nat) {
    forall t: nat :: t < a ==> Smaller(x, rev, t, a)
  }

  /**
   State of the scan: candidate `a` beats every earlier start, and the letters scanned so
   far, those before `e`, repeat from `a` on with period `p`.
   */
  ghost predicate Scan(x: seq<int>, rev: bool, a: nat, p: nat, e: nat) {
    && 0 < p && a + p <= e <= |x|
    && HasPeriod(x[..e], a, p)
    && Dominates(x, rev, a, a + p)
    && BeatsEarlier(x, rev, a)
  }

  /** From the start of a block on, the scanned letters are those from `a` on. */
  lemma BlockAgrees(x: seq<int>, rev: bool, a: nat, p: nat, e: nat, t: nat)
    requires Scan(x, rev, a, p, e) && a <= t <= e && Offset(a, p, t) == 0
    ensures Agree(x, t, a, e - t)
  {
    forall k | t <= k < e ensures x[k] == x[k - t + a] {
      OffsetFromBlock(a, p, t, k - t);
      PeriodicLetter(x[..e], a, p, k);
      PeriodicLetter(x[..e], a, p, k - t + a);
    }
  }

  /** Up to the end of its block, the letters at `t` are those at the same place in the first block. */
  lemma FirstBlock(x: seq<int>, a: nat, p: nat, e: nat, t: nat, d: nat)
    requires 0 < p && a <= t && t + d <= e <= |x| && HasPeriod(x[..e], a, p)
    requires Offset(a, p, t) + d <= p && a + p <= e
    ensures Agree(x, t, a + Offset(a, p, t), d)
  {
    forall k | t <= k < t + d ensures x[k] == x[k - t + (a + Offset(a, p, t))] {
      OffsetAdd(a, p, t, k - t);
      PeriodicLetter(x[..e], a, p, k);
    }
  }

  lemma AgreeTrans(x: seq<int>, s: nat, t: nat, u: nat, d: nat)
    requires s + d <= |x| && t + d <= |x| && u + d <= |x|
    requires Agree(x, s, t, d) && Agree(x, t, u, d)
    ensures Agree(x, s, u, d)
  {
    forall i | s <= i < s + d ensures x[i] == x[i - s + u] {
      assert x[i] == x[i - s + t];
    }
  }

  /** A start inside a block loses to `a`, or agrees with it to the end of the scanned part. */
  lemma InsideBlock(x: seq<int>, rev: bool, a: nat, p: nat, e: nat, t: nat) returns (d: nat)
    requires Scan(x, rev, a, p, e) && a <= t < e && 0 < Offset(a, p, t)
    ensures t + d <= e && Agree(x, t, a, d)
    ensures t + d < e ==> SmallerAt(x, rev, t, a, d)
    ensures t + d == e ==>
      d < Offset(a, p, e) && !Below(rev, x[a + d], x[a + Offset(a, p, e)])
  {
    var s := Offset(a, p, t);
    var f := BeatenBy(x, rev, a, a + p, a + s);
    if t + f < e {
      d := f;
      FirstBlock(x, a, p, e, t, d + 1);
      assert x[t + d] == x[a + s + d];
    } else {
      d := e - t;
      FirstBlock(x, a, p, e, t, d);
      OffsetAdd(a, p, t, d);
      assert d < f ==> x[a + s + d] == x[a + d];
    }
    AgreeTrans(x, t, a + s, a, d);
  }

  lemma BeatenBy(x: seq<int>, rev: bool, a: nat, e: nat, t: nat) returns (d: nat)
    requires Dominates(x, rev, a, e) && a < t < e
    ensures t + d < e && SmallerAt(x, rev, t, a, d)
  {
    assert BeatenWithin(x, rev, a, e, t);
    d :| t + d < e && SmallerAt(x, rev, t, a, d);
  }

  /** A smaller letter makes everything scanned one block. */
  lemma ExtendBlock(x: seq<int>, rev: bool, a: nat, p: nat, e: nat)
    requires Scan(x, rev, a, p, e) && e < |x|
    requires Below(rev, x[e], x[a + Offset(a, p, e)])
    ensures Dominates(x, rev, a, e + 1)
  {
    forall t: nat {:trigger BeatenWithin(x, rev, a, e + 1, t)} | a < t < e + 1
      ensures BeatenWithin(x, rev, a, e + 1, t)
    {
      var d := BeatenByExtension(x, rev, a, p, e, t);
    }
  }

  lemma BlockBeaten(x: seq<int>, rev: bool, a: nat, p: nat, e: nat, t: nat)
    requires Scan(x, rev, a, p, e) && e < |x| && a < t <= e && Offset(a, p, t) == 0
    requires Below(rev, x[e], x[a + Offset(a, p, e)])
    ensures SmallerAt(x, rev, t, a, e - t)
  {
    BlockAgrees(x, rev, a, p, e, t);
    OffsetFromBlock(a, p, t, e - t);
    PeriodicLetter(x[..e], a, p, a + (e - t));
  }

  lemma BeatenByExtension(x: seq<int>, rev: bool, a: nat, p: nat, e: nat, t: nat) returns (d: nat)
    requires Scan(x, rev, a, p, e) && e < |x| && a < t <= e
    requires Below(rev, x[e], x[a + Offset(a, p, e)])
    ensures t + d <= e && SmallerAt(x, rev, t, a, d)
  {
    if Offset(a, p, t) == 0 {
      d := e - t;
      BlockBeaten(x, rev, a, p, e, t);
    } else if t < e {
      d := InsideBlock(x, rev, a, p, e, t);
    } else {
      d := 0;
      LetterNotAbove(x, rev, a, a + p, a + Offset(a, p, e));
    }
  }

  lemma LetterNotAbove(x: seq<int>, rev: bool, a: nat, e: nat, t: nat)
    requires Dominates(x, rev, a, e) && a < t < e <= |x|
    ensures !Below(rev, x[a], x[t])
  {
    var f := BeatenBy(x, rev, a, e, t);
    assert f > 0 ==> x[t] == x[a];
  }

  /** A larger letter makes the start of the last block the new candidate. */
  lemma Restart(x: seq<int>, rev: bool, a: nat, p: nat, e: nat)
    requires Scan(x, rev, a, p, e) && e < |x|
    requires Below(rev, x[a + Offset(a, p, e)], x[e])
    ensures BeatsEarlier(x, rev, e - Offset(a, p, e))
  {
    var c := Offset(a, p, e);
    var b := e - c;
    BlockStart(a, p, e);
    BlockAgrees(x, rev, a, p, e, b);
    assert SmallerAt(x, rev, a, b, c);
    forall t: nat | t < b ensures Smaller(x, rev, t, b) {
      if a < t {
        BehindOrBlock(x, rev, a, p, e, t);
      }
      BehindLast(x, rev, a, b, c, t);
    }
  }

  lemma BehindLast(x: seq<int>, rev: bool, a: nat, b: nat, c: nat, t: nat)
    requires SmallerAt(x, rev, a, b, c)
    requires t == a || Smaller(x, rev, t, a) || (t + c < |x| && Agree(x, t, a, c + 1))
    ensures Smaller(x, rev, t, b)
  {
    if Smaller(x, rev, t, a) {
      SmallerTransitive(x, rev, t, a, b);
    } else if t != a {
      AgreeTrans(x, t, a, b, c);
      assert SmallerAt(x, rev, t, b, c);
    }
  }

  /** A start before the last block is behind `a` or begins like the last block and the letter after it. */
  lemma BehindOrBlock(x: seq<int>, rev: bool, a: nat, p: nat, e: nat, t: nat)
    requires Scan(x, rev, a, p, e) && a <= t < e - Offset(a, p, e)
    ensures Smaller(x, rev, t, a) ||
            (t + Offset(a, p, e) < e && Agree(x, t, a, Offset(a, p, e) + 1))
  {
    if Offset(a, p, t) == 0 {
      BlockAgrees(x, rev, a, p, e, t);
    } else {
      var d := InsideBlock(x, rev, a, p, e, t);
    }
  }

  lemma {:induction false} BlockStart(a: nat, p: nat, e: nat)
    requires 0 < p && a <= e
    ensures Offset(a, p, e - Offset(a, p, e)) == 0
    decreases e
  {
    if a + p <= e { BlockStart(a, p, e - p); }
  }

  lemma ScanDone(x: seq<int>, rev: bool, a: nat, p: nat)
    requires Scan(x, rev, a, p, |x|)
    ensures IsMaxSuffix(x, rev, a) && LeastPeriod(x, a, p) && a + p <= |x|
  {
    assert x[..|x|] == x;
    forall t: nat | t < |x| ensures SuffixLe(x, rev, t, a) {
      if a <= t {
        if Offset(a, p, t) == 0 {
          BlockAgrees(x, rev, a, p, |x|, t);
        } else {
          var d := InsideBlock(x, rev, a, p, |x|, t);
        }
      }
    }
    forall q | 0 < q < p ensures !HasPeriod(x, a, q) {
      assert BeatenWithin(x, rev, a, a + p, a + q);
    }
  }

  /**
   The scan itself.  `ip` starts one before the word, where the source holds the unsigned -1;
   it is only ever used with a positive number added.
   */
  method MaximalSuffix(x: seq<int>, rev: bool) returns (ip: int, p: nat)
    requires 0 < |x|
    ensures -1 <= ip < |x| - 1 && ip + 1 + p <= |x|
    ensures IsMaxSuffix(x, rev, ip + 1)
    ensures LeastPeriod(x, ip + 1, p)
  {
    var jp: nat, k: nat;
    ip, jp, k, p := -1, 0, 1, 1;
    while jp + k < |x|
      invariant -1 <= ip < jp && 1 <= k <= p
      invariant Scan(x, rev, ip + 1, p, jp + k)
      invariant Offset(ip + 1, p, jp + k) == k - 1
      decreases |x| - ip, |x| - (jp + k)
    {
      hide Dominates, BeatsEarlier;
      ghost var a, e := ip + 1, jp + k;
      assert x[..e + 1][..e] == x[..e];
      if x[ip + k] == x[jp + k] {
        PeriodicExtension(x, rev, a, p, e);
        OffsetAdd(a, p, e, 1);
        if k == p {
          jp := jp + p;
          k := 1;
        } else {
          k := k + 1;
        }
      } else if Below(rev, x[jp + k], x[ip + k]) {
        ExtendBlock(x, rev, a, p, e);
        jp := jp + k;
        k := 1;
        p := jp - ip;
      } else {
        Restart(x, rev, a, p, e);
        OneLetter(x, rev, jp + 1);
        ip := jp;
        jp := jp + 1;
        k, p := 1, 1;
      }
    }
    ScanDone(x, rev, ip + 1, p);
  }

  lemma OneLetter(x: seq<int>, rev: bool, a: nat)
    ensures Dominates(x, rev, a, a + 1)
  {}

  lemma PeriodicExtension(x: seq<int>, rev: bool, a: nat, p: nat, e: nat)
    requires Scan(x, rev, a, p, e) && e < |x| && x[e] == x[a + Offset(a, p, e)]
    ensures Scan(x, rev, a, p, e + 1)
  {
    PeriodicLetter(x[..e], a, p, e - p);
    var y := x[..e + 1];
    forall i | a + p <= i < e + 1 ensures y[i] == y[i - p] {
      assert i < e ==> x[..e][i] == x[..e][i - p];
    }
  }
}
