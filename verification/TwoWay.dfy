/**
 The two-way search for longer needles: critical factorization, a shift table on the window's
 last byte, and a remembered prefix for periodic needles.
 */
module TwoWaySearch {
  import opened Basics
  import opened CStrings
  import opened Endian
  import opened Words
  import opened MaxSuffix

  // ----- The shifts of the two-way search -----

  /** The text under the right part also matches the needle shifted by `j`. */
  ghost predicate RightRepeat(x: seq<int>, m: nat, j: nat) {
    0 < j && forall i :: m <= i < |x| && j <= i ==> x[i] == x[i - j]
  }

  /** What the preprocessing establishes about a needle split at `m`. */
  ghost predicate Factored(x: seq<int>, m: nat, p: nat, mem0: nat) {
    && m < |x| && 0 < p <= |x|
    && (forall j: nat :: LocalPeriod(x, m, j) ==> HasPeriod(x, 0, j))
    && (forall j: nat :: RightRepeat(x, m, j) ==> p <= j)
    && (mem0 == 0 || (mem0 == |x| - p && m < p && HasPeriod(x, 0, p)))
  }

  /** A shift under which the matched right part repeats is at least the chosen period. */
  lemma RepeatAtLeastPeriod(x: seq<int>, rev: bool, m: nat, m2: nat, p: nat, j: nat)
    requires IsMaxSuffix(x, rev, m) && IsMaxSuffix(x, !rev, m2) && m2 <= m
    requires LeastPeriod(x, m, p) && m + p <= |x|
    requires RightRepeat(x, m, j)
    ensures p <= j && m < j
    ensures !HasPeriod(x, 0, p) ==> |x| - m < j
  {
    CriticalFactorization(x, rev, m, m2, j);
    if j <= |x| - m {
      ShortPeriodIsGlobal(x, rev, m, m2, p, j);
      assert HasPeriod(x, m, j);
    }
  }

  /** memcmp of the left part against itself `p` letters on decides whether `p` is a period. */
  lemma LeftPartDecidesPeriod(x: seq<int>, m: nat, p: nat)
    requires HasPeriod(x, m, p) && m + p <= |x|
    ensures x[..m] == x[p..p + m] <==> HasPeriod(x, 0, p)
  {
    if x[..m] == x[p..p + m] {
      forall i | p <= i < |x| ensures x[i] == x[i - p] {
        if i < m + p {
          assert x[p..p + m][i - p] == x[..m][i - p];
        }
      }
    }
  }

  /** The split at the later maximal suffix, with the shift chosen by the memcmp. */
  lemma ChosenShift(x: seq<int>, rev: bool, m: nat, m2: nat, q: nat, p: nat, mem0: nat)
    requires IsMaxSuffix(x, rev, m) && IsMaxSuffix(x, !rev, m2) && m2 <= m
    requires LeastPeriod(x, m, q) && m + q <= |x|
    requires if x[..m] == x[q..q + m] then p == q && mem0 == |x| - q
             else mem0 == 0 && p == (if m <= |x| - m then |x| - m + 1 else m)
    ensures Factored(x, m, p, mem0)
  {
    LeftPartDecidesPeriod(x, m, q);
    forall j: nat | LocalPeriod(x, m, j) ensures HasPeriod(x, 0, j) {
      CriticalFactorization(x, rev, m, m2, j);
    }
    forall j: nat | RightRepeat(x, m, j) ensures p <= j && m < j {
      RepeatAtLeastPeriod(x, rev, m, m2, q, j);
    }
    if mem0 != 0 {
      assert RightRepeat(x, m, q);
    }
  }

  method Factorize(x: seq<int>) returns (ms: int, p: nat, mem0: nat)
    requires 0 < |x|
    ensures -1 <= ms && Factored(x, ms + 1, p, mem0)
  {
    var p0;
    ms, p0 := MaximalSuffix(x, false);
    var ip;
    ip, p := MaximalSuffix(x, true);
    ghost var rev, m2 := false, ip + 1;
    if ip + 1 > ms + 1 {
      rev, m2 := true, ms + 1;
      ms := ip;
    } else {
      p := p0;
    }
    ghost var q := p;
    if x[..ms + 1] != x[p..p + ms + 1] {
      assert ms >= 0;  // with an empty left part the comparison is of no bytes
      mem0 := 0;
      p := (if ms > |x| - ms - 1 then ms else |x| - ms - 1) + 1;
    } else {
      mem0 := |x| - p;
    }
    ChosenShift(x, rev, ms + 1, m2, q, p, mem0);
  }

  /** Needle letters lo..hi agree with the haystack at offset `pos`. */
  ghost predicate Matches(h: seq<Byte>, n: seq<Byte>, pos: nat, lo: nat, hi: nat)
    requires IsCString(h) && IsCString(n)
  {
    hi <= Length(n) && pos + hi <= Length(h) && forall k :: lo <= k < hi ==> n[k] == h[pos + k]
  }

  ghost predicate NoneIn(h: seq<Byte>, n: seq<Byte>, lo: nat, hi: nat)
    requires IsCString(h) && IsCString(n)
  {
    forall j: nat :: lo <= j < hi ==> !OccursAt(h, n, j)
  }

  /** The byte under the needle's last place fixes how far the needle must move. */
  lemma LastByteShift(h: seq<Byte>, n: seq<Byte>, pos: nat, s: nat)
    requires IsCString(h) && IsCString(n) && s <= Length(n) && pos + Length(n) <= Length(h)
    requires forall i :: s <= i < Length(n) ==> n[i] != h[pos + Length(n) - 1]
    ensures NoneIn(h, n, pos, pos + Length(n) - s)
  {
    forall j: nat | pos <= j < pos + Length(n) - s ensures !OccursAt(h, n, j) {
      var i := pos + Length(n) - 1 - j;
      assert n[i] != h[j + i];
    }
  }

  /** A remembered prefix rules out every smaller shift once the last byte is wrong. */
  lemma RememberedShift(h: seq<Byte>, n: seq<Byte>, pos: nat, p: nat, mem: nat)
    requires IsCString(h) && IsCString(n) && pos + Length(n) <= Length(h)
    requires 0 < p && HasPeriod(n[..Length(n)], 0, p) && mem == Length(n) - p
    requires Matches(h, n, pos, 0, mem)
    requires h[pos + Length(n) - 1] != n[Length(n) - 1]
    ensures NoneIn(h, n, pos, pos + mem)
  {
    var l := Length(n);
    var x := n[..l];
    forall j: nat | pos <= j < pos + mem ensures !OccursAt(h, n, j) {
      var d := j - pos;
      assert x[l - 1] == x[l - 1 - p];
      assert x[l - 1 - d] == x[l - 1 - d - p];
    }
  }

  /** Text that matches the right part up to `k` and the shifted needle makes the shift a local period. */
  lemma OverlapIsLocalPeriod(h: seq<Byte>, n: seq<Byte>, pos: nat, m: nat, k: nat, j: nat)
    requires IsCString(h) && IsCString(n) && m <= k
    requires Matches(h, n, pos, m, k) && OccursAt(h, n, pos + j) && 0 < j
    ensures forall i :: m <= i < k && j <= i ==> n[i] == n[i - j]
  {
    forall i | m <= i < k && j <= i ensures n[i] == n[i - j] {
      assert n[i - j] == h[pos + j + (i - j)];
    }
  }

  /** A mismatch at `k` in the right part: critical factorization allows the shift k - m + 1. */
  lemma RightShift(h: seq<Byte>, n: seq<Byte>, pos: nat, m: nat, p: nat, mem0: nat, k: nat)
    requires IsCString(h) && IsCString(n) && Factored(n[..Length(n)], m, p, mem0)
    requires m <= k < Length(n) && pos + Length(n) <= Length(h)
    requires Matches(h, n, pos, m, k) && n[k] != h[pos + k]
    ensures NoneIn(h, n, pos, pos + k - m + 1)
  {
    var x := n[..Length(n)];
    forall t: nat | pos <= t < pos + k - m + 1 ensures !OccursAt(h, n, t) {
      if OccursAt(h, n, t) {
        var j := t - pos;
        OverlapIsLocalPeriod(h, n, pos, m, k, j);
        assert x[k - j] == n[k - j] == h[t + (k - j)];
        assert LocalPeriod(x, m, j);
      }
    }
  }

  /** A mismatch in the left part after the right part matched: the shift is `p`. */
  lemma LeftShift(h: seq<Byte>, n: seq<Byte>, pos: nat, m: nat, p: nat, mem0: nat, k: nat)
    requires IsCString(h) && IsCString(n) && Factored(n[..Length(n)], m, p, mem0)
    requires k < Length(n) && Matches(h, n, pos, m, Length(n)) && n[k] != h[pos + k]
    ensures NoneIn(h, n, pos, pos + p)
    ensures Matches(h, n, pos + p, 0, mem0)
  {
    var x := n[..Length(n)];
    forall t: nat | pos <= t < pos + p ensures !OccursAt(h, n, t) {
      if OccursAt(h, n, t) {
        var j := t - pos;
        OverlapIsLocalPeriod(h, n, pos, m, Length(n), j);
        assert RightRepeat(x, m, j);
      }
    }
    forall i | 0 <= i < mem0 ensures n[i] == h[pos + p + i] {
      assert x[i + p] == x[i + p - p];
      assert n[i + p] == h[pos + (i + p)];
    }
  }

  // ----- The search -----

  /**
   The tables for the first `l` needle bytes: exactly the bytes that occur, and one more than
   each one's last place.
   */
  ghost predicate TableOf(n: seq<Byte>, l: nat, present: seq<bool>, shift: seq<nat>) {
    && l <= |n| && |present| == |shift| == 256
    && (forall i :: 0 <= i < l ==> present[n[i]] && i < shift[n[i]])
    && (forall b: Byte :: present[b] ==> 0 < shift[b] <= l && n[shift[b] - 1] == b)
  }

  ghost predicate TablesFor(n: seq<Byte>, l: nat, present: array<bool>, shift: array<nat>)
    reads present, shift
  {
    TableOf(n, l, present[..], shift[..])
  }

  lemma TableSize(n: seq<Byte>, l: nat, present: seq<bool>, shift: seq<nat>)
    requires TableOf(n, l, present, shift)
    ensures |present| == |shift| == 256
  {}

  lemma TableNext(n: seq<Byte>, l: nat, present: seq<bool>, shift: seq<nat>)
    requires TableOf(n, l, present, shift) && l < |n|
    ensures TableOf(n, l + 1, present[n[l] := true], shift[n[l] := l + 1])
  {}

  /** First loop of twoway_strstr: the needle's length, or where the haystack ends before it, and the tables. */
  method FillTables(h: seq<Byte>, n: seq<Byte>) returns (l: nat, present: array<bool>, shift: array<nat>)
    requires IsCString(h) && IsCString(n)
    ensures fresh(present) && fresh(shift) && TablesFor(n, l, present, shift)
    ensures l == if Length(n) <= Length(h) then Length(n) else Length(h)
  {
    present := new bool[256](_ => false);
    shift := new nat[256];
    l := 0;
    while n[l] != 0 && h[l] != 0
      invariant l <= Length(n) && l <= Length(h)
      invariant TablesFor(n, l, present, shift)
      decreases |n| - l
    {
      TableNext(n, l, present[..], shift[..]);
      TableSize(n, l, present[..], shift[..]);
      hide TableOf;
      ghost var p, s := present[..][n[l] := true], shift[..][n[l] := l + 1];
      present[n[l]] := true;
      shift[n[l]] := l + 1;
      l := l + 1;
      assert present[..] == p && shift[..] == s;
    }
  }

  /** memchr for the terminator: its place if it lies among the `count` bytes from `z`. */
  method FindTerminator(h: seq<Byte>, z: nat, count: nat) returns (r: Option<nat>)
    requires IsCString(h) && z <= Length(h)
    ensures r == if Length(h) < z + count then Some(Length(h)) else None
  {
    var i := z;
    while i < z + count
      invariant z <= i <= Length(h) && i <= z + count
    {
      if h[i] == 0 { return Some(i); }
      i := i + 1;
    }
    r := None;
  }

  /** The incremental end pointer: a place `l` or more past `pos` known to be in the string, or null. */
  method UpdateEnd(h: seq<Byte>, pos: nat, l: nat, z: nat) returns (r: Option<nat>)
    requires IsCString(h) && pos <= z <= Length(h)
    ensures r.None? <==> Length(h) < pos + l
    ensures r.Some? ==> pos + l <= r.value <= Length(h)
  {
    if z - pos < l {
      var grow := l / 64 * 64 + 63;  // l | 63
      var z2 := FindTerminator(h, z, grow);
      if z2.Some? {
        r := if z2.value - pos < l then None else z2;
      } else {
        r := Some(z + grow);
      }
    } else {
      r := Some(z);
    }
  }

  /** Right-hand comparison: the first place from `from` on where needle and text differ. */
  method CompareRight(h: seq<Byte>, n: seq<Byte>, pos: nat, from: nat) returns (k: nat)
    requires IsCString(h) && IsCString(n) && from <= Length(n) && pos + Length(n) <= Length(h)
    ensures from <= k && Matches(h, n, pos, from, k)
    ensures k < Length(n) ==> n[k] != h[pos + k]
  {
    k := from;
    while n[k] != 0 && n[k] == h[pos + k]
      invariant from <= k && Matches(h, n, pos, from, k)
      decreases |n| - k
    {
      k := k + 1;
    }
  }

  /** Left-hand comparison, backwards from `from` and not below the remembered prefix. */
  method CompareLeft(h: seq<Byte>, n: seq<Byte>, pos: nat, from: nat, mem: nat) returns (k: nat)
    requires IsCString(h) && IsCString(n) && from <= Length(n) && pos + Length(n) <= Length(h)
    ensures k <= from && Matches(h, n, pos, k, from)
    ensures mem < k ==> n[k - 1] != h[pos + k - 1]
  {
    k := from;
    while k > mem && n[k - 1] == h[pos + k - 1]
      invariant k <= from && Matches(h, n, pos, k, from)
    {
      k := k - 1;
    }
  }

  method TwoWay(h: seq<Byte>, n: seq<Byte>) returns (r: Option<nat>)
    requires IsCString(h) && IsCString(n) && 0 < Length(n)
    ensures IsFirstMatch(h, n, r)
  {
    var l, present, shift := FillTables(h, n);
    if n[l] != 0 { return None; }
    var ms, p, mem0 := Factorize(n[..l]);
    var pos, mem, z := 0, 0, 0;
    while true
      invariant TablesFor(n, l, present, shift)
      invariant pos <= z <= Length(h)
      invariant NoneBefore(h, n, pos)
      invariant mem == 0 || mem == mem0
      invariant Matches(h, n, pos, 0, mem)
      decreases Length(h) - pos
    {
      var end := UpdateEnd(h, pos, l, z);
      if end.None? { return None; }
      z := end.value;
      var step, keep := Step(h, n, pos, present, shift, ms, p, mem0, mem);
      if step == 0 { return Some(pos); }
      pos, mem := pos + step, keep;
    }
  }

  /** One alignment of the search loop: zero on a match, otherwise how far to move and what to remember. */
  method Step(h: seq<Byte>, n: seq<Byte>, pos: nat, present: array<bool>, shift: array<nat>,
              ms: int, p: nat, mem0: nat, mem: nat)
    returns (step: nat, keep: nat)
    requires IsCString(h) && IsCString(n) && 0 < Length(n) && pos + Length(n) <= Length(h)
    requires TablesFor(n, Length(n), present, shift)
    requires -1 <= ms && Factored(n[..Length(n)], ms + 1, p, mem0)
    requires mem == 0 || mem == mem0
    requires Matches(h, n, pos, 0, mem)
    ensures step == 0 ==> OccursAt(h, n, pos)
    ensures 0 < step ==> step <= Length(n) && NoneIn(h, n, pos, pos + step)
    ensures 0 < step ==> (keep == 0 || keep == mem0) && Matches(h, n, pos + step, 0, keep)
  {
    var l := |n| - 1;
    var last := h[pos + l - 1];
    if !present[last] {
      LastByteShift(h, n, pos, 0);
      return l, 0;
    }
    var k := l - shift[last];
    if k != 0 {
      LastByteShift(h, n, pos, shift[last]);
      if k < mem {
        RememberedShift(h, n, pos, p, mem);
        k := mem;
      }
      return k, 0;
    }
    step, keep := CompareHalves(h, n, pos, ms, p, mem0, mem);
  }

  /** The needle's last byte fits: compare the right part, then the left part. */
  method CompareHalves(h: seq<Byte>, n: seq<Byte>, pos: nat, ms: int, p: nat, mem0: nat, mem: nat)
    returns (step: nat, keep: nat)
    requires IsCString(h) && IsCString(n) && pos + Length(n) <= Length(h)
    requires -1 <= ms && Factored(n[..Length(n)], ms + 1, p, mem0)
    requires mem == 0 || mem == mem0
    requires Matches(h, n, pos, 0, mem)
    ensures step == 0 ==> OccursAt(h, n, pos)
    ensures 0 < step ==> step <= Length(n) && NoneIn(h, n, pos, pos + step)
    ensures 0 < step ==> (keep == 0 || keep == mem0) && Matches(h, n, pos + step, 0, keep)
  {
    var k := CompareRight(h, n, pos, if ms + 1 < mem then mem else ms + 1);
    if n[k] != 0 {
      RightShift(h, n, pos, ms + 1, p, mem0, k);
      return k - ms, 0;
    }
    k := CompareLeft(h, n, pos, ms + 1, mem);
    if k <= mem {
      return 0, 0;
    }
    LeftShift(h, n, pos, ms + 1, p, mem0, k - 1);
    return p, mem0;
  }
}
