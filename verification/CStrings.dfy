/**
 C strings and what a substring search promises.

 A C string is the sequence of its bytes with the terminating zero as its last element, so
 every index a search uses is checked to lie at or before the terminator.  A pointer
 result is an offset, the null pointer is None.
 */
module CStrings {
  import opened Basics
  import opened Endian

  ghost predicate IsCString(s: seq<Byte>) {
    && 0 < |s|
    && s[|s| - 1] == 0
    && forall i :: 0 <= i < |s| - 1 ==> s[i] != 0
  }

  /** strlen */
  ghost function Length(s: seq<Byte>): (l: nat)
    requires IsCString(s)
  {
    |s| - 1
  }

  ghost predicate OccursAt(h: seq<Byte>, n: seq<Byte>, i: nat)
    requires IsCString(h) && IsCString(n)
  {
    i + Length(n) <= Length(h) && forall k :: 0 <= k < Length(n) ==> n[k] == h[i + k]
  }

  ghost predicate NoneBefore(h: seq<Byte>, n: seq<Byte>, i: nat)
    requires IsCString(h) && IsCString(n)
  {
    forall j: nat :: j < i ==> !OccursAt(h, n, j)
  }

  /** What strstr promises: the first occurrence, or null exactly when there is none. */
  ghost predicate IsFirstMatch(h: seq<Byte>, n: seq<Byte>, r: Option<nat>)
    requires IsCString(h) && IsCString(n)
  {
    match r
    case Some(i) => OccursAt(h, n, i) && NoneBefore(h, n, i)
    case None => forall j: nat :: !OccursAt(h, n, j)
  }
}
