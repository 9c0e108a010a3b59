/** What several models share. */
module Basics {
  datatype Option<T> = None | Some(value: T)

  function Power(base: nat, i: nat): (p: nat)
    requires 0 < base
    ensures 0 < p
  {
    if i == 0 then 1 else base * Power(base, i - 1)
  }

  lemma {:induction false} PowerSum(base: nat, a: nat, b: nat)
    requires 0 < base
    ensures Power(base, a + b) == Power(base, a) * Power(base, b)
  {
    if 0 < a {
      PowerSum(base, a - 1, b);
      TimesAssociate(base, Power(base, a - 1), Power(base, b));
    }
  }

  lemma TimesAssociate(a: nat, b: nat, c: nat)
    ensures a * b * c == a * (b * c)
  {}

  lemma {:induction false} PowerGrows(base: nat, m: nat, n: nat)
    requires 0 < base && m <= n
    ensures Power(base, m) <= Power(base, n)
    decreases n
  {
    if m < n {
      PowerGrows(base, m, n - 1);
      assert Power(base, n - 1) <= base * Power(base, n - 1);
    }
  }

  lemma Associate<T>(a: seq<T>, b: seq<T>, c: seq<T>)
    ensures a + (b + c) == a + b + c
  {}

  lemma SubsetSize<T>(a: set<T>, b: set<T>)
    requires a <= b
    ensures |a| <= |b|
  {
    assert b == a + (b - a);
  }

  /** No element twice. */
  ghost predicate NoDup<T>(s: seq<T>) {
    forall i, j :: 0 <= i < j < |s| ==> s[i] != s[j]
  }

  lemma {:induction false} NoDupCounts<T>(s: seq<T>, x: T)
    requires NoDup(s)
    ensures multiset(s)[x] <= 1
  {
    if s != [] {
      var n := |s| - 1;
      NoDupCounts(s[..n], x);
      assert s == s[..n] + [s[n]];
      assert s[n] !in multiset(s[..n]);
    }
  }

  /** A sequence without repetition has as many elements as places. */
  lemma {:induction false} NoDupSize<T>(s: seq<T>)
    requires NoDup(s)
    ensures |set x | x in s| == |s|
  {
    if s != [] {
      var n := |s| - 1;
      NoDupSize(s[..n]);
      assert (set x | x in s) == (set x | x in s[..n]) + {s[n]};
    }
  }

  lemma CountsNoDup<T>(s: seq<T>, i: nat, j: nat)
    requires i < j < |s| && multiset(s)[s[j]] <= 1
    ensures s[i] != s[j]
  {
    assert s == s[..j] + s[j..];
    assert s[i] in multiset(s[..j]) && s[j] in multiset(s[j..]);
  }

  /** Rearranging does not bring an element in twice. */
  lemma NoDupPermuted<T>(a: seq<T>, b: seq<T>)
    requires NoDup(b) && multiset(a) == multiset(b)
    ensures NoDup(a)
  {
    forall i, j | 0 <= i < j < |a| ensures a[i] != a[j] {
      NoDupCounts(b, a[j]);
      CountsNoDup(a, i, j);
    }
  }

  /** Quotient and remainder are determined by their defining equation. */
  lemma UniqueQuotient(b: int, p: int, q: int, r: int)
    requires 0 < p && b == p * q + r && 0 <= r < p
    ensures b / p == q && b % p == r
  {
    var d := b / p - q;
    assert p * d == r - b % p;
    assert 1 <= d ==> p <= p * d;
    assert d <= -1 ==> p * d <= -p;
  }

  lemma Regroup(a: nat, b: nat, p: nat, s: nat, t: nat)
    requires s < b && t < a
    ensures a * (b * p + s) + t == (a * b) * p + (a * s + t)
    ensures a * s + t < a * b
  {
    assert a * (s + 1) <= a * b;
  }

  lemma TwoSteps(m: nat, a: nat, b: nat, q: nat, p: nat, s: nat, t: nat)
    requires s < b && t < a && m == a * q + t && q == b * p + s
    ensures m == (a * b) * p + (a * s + t) && a * s + t < a * b
  {
    Regroup(a, b, p, s, t);
  }

  /** Dividing by a product is dividing twice. */
  lemma DivideTwice(m: nat, a: nat, b: nat)
    requires 0 < a && 0 < b
    ensures 0 < a * b && m / (a * b) == m / a / b
  {
    var q := m / a;
    TwoSteps(m, a, b, q, q / b, q % b, m % a);
    UniqueQuotient(m, a * b, q / b, a * (q % b) + m % a);
  }

  lemma QuotientBelow(q: nat, c: nat, p: nat)
    requires 0 < c && q < c * p
    ensures q / c < p
  {
    var e := q / c - p;
    assert q == c * (p + e) + q % c;
    assert 0 <= e ==> c * p <= c * (p + e);
  }
}
