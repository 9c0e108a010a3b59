/**
 Periods, maximal suffixes and the critical factorization of a finite word.

 Positions are used instead of sub-words: "the suffix at t" is x[t..].  An alphabet
 order is `<` or, when `rev` is set, `>`.
 */
module Words {

  predicate Below(rev: bool, a: int, b: int) {
    if rev then b < a else a < b
  }

  /** `p` is a period of the suffix of `x` at `from`. */
  ghost predicate HasPeriod(x: seq<int>, from: nat, p: nat) {
    forall i :: from + p <= i < |x| ==> x[i] == x[i - p]
  }

  /** `p` is the smallest period of the suffix of `x` at `from`. */
  ghost predicate LeastPeriod(x: seq<int>, from: nat, p: nat) {
    && 0 < p
    && HasPeriod(x, from, p)
    && forall q {:trigger HasPeriod(x, from, q)} :: 0 < q < p ==> !HasPeriod(x, from, q)
  }

  /** The suffixes at `s` and `t` agree on their first `d` letters. */
  ghost predicate Agree(x: seq<int>, s: nat, t: nat, d: nat)
    requires s + d <= |x| && t + d <= |x|
  {
    forall i :: s <= i < s + d ==> x[i] == x[i - s + t]
  }

  /** The suffix at `s` is below the suffix at `t`, their first difference being at distance `d`. */
  ghost predicate SmallerAt(x: seq<int>, rev: bool, s: nat, t: nat, d: nat) {
    && s + d < |x|
    && t + d < |x|
    && Agree(x, s, t, d)
    && Below(rev, x[s + d], x[t + d])
  }

  ghost predicate Smaller(x: seq<int>, rev: bool, s: nat, t: nat) {
    exists d: nat :: SmallerAt(x, rev, s, t, d)
  }

  /** The suffix at `s` is a prefix of the suffix at `t`. */
  ghost predicate PrefixOf(x: seq<int>, s: nat, t: nat) {
    t <= s <= |x| && Agree(x, s, t, |x| - s)
  }

  /** Lexicographic order on suffixes, a proper prefix being smaller. */
  ghost predicate SuffixLe(x: seq<int>, rev: bool, s: nat, t: nat) {
    PrefixOf(x, s, t) || Smaller(x, rev, s, t)
  }

  ghost predicate IsMaxSuffix(x: seq<int>, rev: bool, m: nat) {
    m < |x| && forall t: nat :: t < |x| ==> SuffixLe(x, rev, t, m)
  }

  lemma SmallerTransitive(x: seq<int>, rev: bool, s: nat, t: nat, u: nat)
    requires Smaller(x, rev, s, t) && Smaller(x, rev, t, u)
    ensures Smaller(x, rev, s, u)
  {
    var d: nat :| SmallerAt(x, rev, s, t, d);
    var e: nat :| SmallerAt(x, rev, t, u, e);
    var f := if d < e then d else e;
    forall i | s <= i < s + f ensures x[i] == x[i - s + u] {
      assert x[i] == x[i - s + t];
    }
    assert SmallerAt(x, rev, s, u, f);
  }

  lemma SmallerAsymmetric(x: seq<int>, rev: bool, s: nat, t: nat, d: nat)
    requires SmallerAt(x, rev, s, t, d)
    ensures !SuffixLe(x, rev, t, s)
  {
  }

  /**
   A local period at position `m`: a shift `j` under which the letters on the two sides of
   `m` repeat, as far as they exist.
   */
  ghost predicate LocalPeriod(x: seq<int>, m: nat, j: nat) {
    0 < j && forall i :: m <= i < m + j && j <= i < |x| ==> x[i] == x[i - j]
  }

  /** A local period cannot fit to the left of a maximal suffix. */
  lemma LocalPeriodOverflowsLeft(x: seq<int>, rev: bool, m: nat, j: nat)
    requires IsMaxSuffix(x, rev, m) && LocalPeriod(x, m, j)
    ensures m < j
  {
    if j <= m {
      assert SuffixLe(x, rev, m - j, m);
      var d: nat :| SmallerAt(x, rev, m - j, m, d);
      assert SmallerAt(x, rev, m, m + j, d - j) by {
        forall i | m <= i < m + (d - j) ensures x[i] == x[i + j] {
          assert x[i] == x[i - (m - j) + m];
        }
      }
      SmallerAsymmetric(x, rev, m, m + j, d - j);
      assert false;
    }
  }

  lemma DropCommonPrefix(x: seq<int>, rev: bool, s: nat, t: nat, g: nat, e: nat)
    requires s + g <= |x| && t + g <= |x| && Agree(x, s, t, g) && SmallerAt(x, rev, s, t, e)
    ensures g <= e && SmallerAt(x, rev, s + g, t + g, e - g)
  {}

  lemma PrefixTail(x: seq<int>, s: nat, t: nat, g: nat)
    requires PrefixOf(x, s, t) && s + g <= |x|
    ensures PrefixOf(x, s + g, t + g)
  {}

  lemma OrdersExclude(x: seq<int>, rev: bool, s: nat, t: nat, d: nat)
    requires SmallerAt(x, !rev, s, t, d)
    ensures !Smaller(x, rev, s, t)
  {}

  /**
   A suffix that is not above another in either order, once a common beginning of the two is
   put in front of them, is a prefix of it.
   */
  lemma BelowBothWays(x: seq<int>, rev: bool, s: nat, t: nat, g: nat)
    requires s + g <= |x| && t + g <= |x| && Agree(x, s, t, g)
    requires SuffixLe(x, !rev, s, t) && SuffixLe(x, rev, s + g, t + g)
    ensures PrefixOf(x, s + g, t + g)
  {
    if PrefixOf(x, s, t) {
      PrefixTail(x, s, t, g);
    } else {
      var e: nat :| SmallerAt(x, !rev, s, t, e);
      DropCommonPrefix(x, !rev, s, t, g, e);
      OrdersExclude(x, rev, s + g, t + g, e - g);
    }
  }

  /**
   Critical factorization: at the later of the two maximal suffixes, every local period is
   longer than the left part and is a period of the whole word.
   */
  lemma CriticalFactorization(x: seq<int>, rev: bool, m: nat, m2: nat, j: nat)
    requires IsMaxSuffix(x, rev, m) && IsMaxSuffix(x, !rev, m2) && m2 <= m
    requires LocalPeriod(x, m, j)
    ensures m < j && HasPeriod(x, 0, j)
  {
    LocalPeriodOverflowsLeft(x, rev, m, j);
    if m + j < |x| {
      assert SuffixLe(x, !rev, m2 + j, m2) && SuffixLe(x, rev, m + j, m);
      BelowBothWays(x, rev, m2 + j, m2, m - m2);
      forall i | j <= i < |x| ensures x[i] == x[i - j] {
        if m + j <= i {
          assert x[i] == x[i - (m + j) + m];
        }
      }
    }
  }

  /** Taking a period of the right part off a local period, as often as possible, leaves a local period. */
  lemma {:induction false} ReduceLocalPeriod(x: seq<int>, m: nat, p: nat, j: nat) returns (r: nat)
    requires 0 < p && HasPeriod(x, m, p) && LocalPeriod(x, m, j) && m + j <= |x|
    ensures 0 < r <= p && LocalPeriod(x, m, r)
    decreases j
  {
    if j <= p {
      r := j;
    } else {
      forall i | m <= i < m + (j - p) && j - p <= i < |x| ensures x[i] == x[i - (j - p)] {
        assert x[i + p] == x[i + p - p];
        assert x[i + p] == x[i + p - j];
      }
      r := ReduceLocalPeriod(x, m, p, j - p);
    }
  }

  /**
   If the word has a period that fits in the right part, the least period of the right part
   is already a period of the whole word.
   */
  lemma ShortPeriodIsGlobal(x: seq<int>, rev: bool, m: nat, m2: nat, p: nat, j: nat)
    requires IsMaxSuffix(x, rev, m) && IsMaxSuffix(x, !rev, m2) && m2 <= m
    requires LeastPeriod(x, m, p)
    requires 0 < j <= |x| - m && HasPeriod(x, 0, j)
    ensures HasPeriod(x, 0, p)
  {
    var r := ReduceLocalPeriod(x, m, p, j);
    CriticalFactorization(x, rev, m, m2, r);
    assert HasPeriod(x, m, r);
  }
}
