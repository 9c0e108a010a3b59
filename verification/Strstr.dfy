/** The C library's substring search, by the length of the needle. */
module Strstr {
  import opened Basics
  import opened CStrings
  import opened Endian
  import opened TwoWaySearch
  import opened Windows

  /** strchr for a byte other than the terminator. */
  method FindByte(h: seq<Byte>, c: Byte) returns (r: Option<nat>)
    requires IsCString(h) && c != 0
    ensures r.Some? ==> r.value < Length(h) && h[r.value] == c
    ensures forall j :: 0 <= j < (if r.Some? then r.value else Length(h)) ==> h[j] != c
  {
    var i := 0;
    while h[i] != 0
      invariant i < |h|
      invariant forall j :: 0 <= j < i ==> h[j] != c
      decreases |h| - i
    {
      if h[i] == c { return Some(i); }
      i := i + 1;
    }
    r := None;
  }

  /** A match from the needle's first byte on, moved back to an offset in the whole haystack. */
  lemma FromFirstByte(h: seq<Byte>, n: seq<Byte>, c: nat, r: Option<nat>)
    requires IsCString(h) && IsCString(n) && 0 < Length(n) && c < Length(h)
    requires forall j :: 0 <= j < c ==> h[j] != n[0]
    requires IsCString(h[c..]) && IsFirstMatch(h[c..], n, r)
    ensures IsFirstMatch(h, n, if r.Some? then Some(c + r.value) else None)
  {
    forall j: nat ensures OccursAt(h, n, j) <==> c <= j && OccursAt(h[c..], n, j - c) {
      if OccursAt(h, n, j) {
        assert n[0] == h[j + 0];
        forall k | 0 <= k < Length(n) ensures n[k] == h[c..][j - c + k] {
          assert n[k] == h[j + k];
        }
      }
      if c <= j && OccursAt(h[c..], n, j - c) {
        forall k | 0 <= k < Length(n) ensures n[k] == h[j + k] {
          assert n[k] == h[c..][j - c + k];
        }
      }
    }
  }

  method StrStr(h: seq<Byte>, n: seq<Byte>) returns (r: Option<nat>)
    requires IsCString(h) && IsCString(n)
    ensures IsFirstMatch(h, n, r)
  {
    if n[0] == 0 { return Some(0); }
    var first := FindByte(h, n[0]);
    if first.None? {
      forall j: nat ensures !OccursAt(h, n, j) {
        assert j < Length(h) ==> n[0] != h[j + 0];
      }
      return None;
    }
    var c := first.value;
    var t := h[c..];
    assert IsCString(t);
    if n[1] == 0 {
      r := Some(0);
    } else if t[1] == 0 {
      r := None;
    } else if n[2] == 0 {
      r := TwoByte(t, n);
    } else if t[2] == 0 {
      r := None;
    } else if n[3] == 0 {
      r := ThreeByte(t, n);
    } else if t[3] == 0 {
      r := None;
    } else if n[4] == 0 {
      r := FourByte(t, n);
    } else {
      r := TwoWay(t, n);
    }
    FromFirstByte(h, n, c, r);
    r := if r.Some? then Some(c + r.value) else None;
  }
}
