/** UTF-8 as the encoding of scalar values (section 3 of RFC 3629). */
module Utf8 {
  import opened Basics
  import opened Endian

  predicate IsScalar(c: nat) {
    c < 0xD800 || 0xE000 <= c < 0x110000
  }

  function EncodeScalar(c: nat): (b: seq<Byte>)
    requires IsScalar(c)
    ensures b != []
  {
    if c < 0x80 then [c]
    else if c < 0x800 then [0xC0 + c / 0x40, 0x80 + c % 0x40]
    else if c < 0x10000 then [0xE0 + c / 0x1000, 0x80 + c / 0x40 % 0x40, 0x80 + c % 0x40]
    else [0xF0 + c / 0x40000, 0x80 + c / 0x1000 % 0x40, 0x80 + c / 0x40 % 0x40, 0x80 + c % 0x40]
  }

  ghost predicate AllScalars(cs: seq<nat>) {
    forall i :: 0 <= i < |cs| ==> IsScalar(cs[i])
  }

  function Encoded(cs: seq<nat>): seq<Byte>
    requires AllScalars(cs)
  {
    if cs == [] then [] else EncodeScalar(cs[0]) + Encoded(cs[1..])
  }

  lemma TwoBytes(a: int, b: int)
    requires 0xC2 <= a < 0xE0 && 0x80 <= b < 0xC0
    ensures var c := 0x40 * (a - 0xC0) + (b - 0x80);
      0x80 <= c < 0x800 && c / 0x40 == a - 0xC0 && c % 0x40 == b - 0x80
  {}

  lemma ThreeBytes(a: int, b: int, c: int)
    requires 0xE0 <= a < 0xF0 && 0x80 <= b < 0xC0 && 0x80 <= c < 0xC0
    requires (a == 0xE0 ==> 0xA0 <= b) && (a == 0xED ==> b < 0xA0)
    ensures var n := 0x1000 * (a - 0xE0) + 0x40 * (b - 0x80) + (c - 0x80);
      && 0x800 <= n < 0x10000 && IsScalar(n)
      && n / 0x1000 == a - 0xE0 && n / 0x40 % 0x40 == b - 0x80 && n % 0x40 == c - 0x80
  {}

  lemma FourBytes(a: int, b: int, c: int, d: int)
    requires 0xF0 <= a < 0xF5 && 0x80 <= b < 0xC0 && 0x80 <= c < 0xC0 && 0x80 <= d < 0xC0
    requires (a == 0xF0 ==> 0x90 <= b) && (a == 0xF4 ==> b < 0x90)
    ensures var n := 0x40000 * (a - 0xF0) + 0x1000 * (b - 0x80) + 0x40 * (c - 0x80) + (d - 0x80);
      && 0x10000 <= n < 0x110000
      && n / 0x40000 == a - 0xF0 && n / 0x1000 % 0x40 == b - 0x80
      && n / 0x40 % 0x40 == c - 0x80 && n % 0x40 == d - 0x80
  {
    var w, x, y, z := a - 0xF0, b - 0x80, c - 0x80, d - 0x80;
    var n := 0x40000 * w + 0x1000 * x + 0x40 * y + z;
    UniqueQuotient(n, 0x40000, w, 0x1000 * x + 0x40 * y + z);
    UniqueQuotient(n, 0x1000, 0x40 * w + x, 0x40 * y + z);
    UniqueQuotient(0x40 * w + x, 0x40, w, x);
    UniqueQuotient(n, 0x40, 0x1000 * w + 0x40 * x + y, z);
    UniqueQuotient(0x1000 * w + 0x40 * x + y, 0x40, 0x40 * w + x, y);
  }

  /** The scalar value in front of well-formed text. */
  lemma FirstScalar(s: seq<Byte>) returns (c: nat)
    requires IsUtf8(s) && s != []
    ensures IsScalar(c) && |EncodeScalar(c)| <= |s| && s[..|EncodeScalar(c)|] == EncodeScalar(c)
    ensures IsUtf8(s[|EncodeScalar(c)|..])
  {
    var a: int := s[0];
    if a < 0x80 {
      c := a;
    } else if a < 0xE0 {
      c := SecondWidth(s);
    } else if a < 0xF0 {
      c := ThirdWidth(s);
    } else {
      c := FourthWidth(s);
    }
  }

  lemma SecondWidth(s: seq<Byte>) returns (c: nat)
    requires IsUtf8(s) && s != [] && 0x80 <= s[0] < 0xE0
    ensures IsScalar(c) && |EncodeScalar(c)| == 2 <= |s| && s[..2] == EncodeScalar(c) && IsUtf8(s[2..])
  {
    var a: int, b: int := s[0], s[1];
    TwoBytes(a, b);
    c := 0x40 * (a - 0xC0) + (b - 0x80);
    assert EncodeScalar(c) == [s[0], s[1]];
  }

  lemma ThirdWidth(s: seq<Byte>) returns (c: nat)
    requires IsUtf8(s) && s != [] && 0xE0 <= s[0] < 0xF0
    ensures IsScalar(c) && |EncodeScalar(c)| == 3 <= |s| && s[..3] == EncodeScalar(c) && IsUtf8(s[3..])
  {
    var a: int, b: int, d: int := s[0], s[1], s[2];
    ThreeBytes(a, b, d);
    c := 0x1000 * (a - 0xE0) + 0x40 * (b - 0x80) + (d - 0x80);
    assert EncodeScalar(c) == [s[0], s[1], s[2]];
  }

  lemma FourthWidth(s: seq<Byte>) returns (c: nat)
    requires IsUtf8(s) && s != [] && 0xF0 <= s[0]
    ensures IsScalar(c) && |EncodeScalar(c)| == 4 <= |s| && s[..4] == EncodeScalar(c) && IsUtf8(s[4..])
  {
    var a: int, b: int, d: int, e: int := s[0], s[1], s[2], s[3];
    FourBytes(a, b, d, e);
    c := 0x40000 * (a - 0xF0) + 0x1000 * (b - 0x80) + 0x40 * (d - 0x80) + (e - 0x80);
    assert EncodeScalar(c) == [s[0], s[1], s[2], s[3]];
  }

  lemma ScalarInFront(c: nat, rest: seq<Byte>)
    requires IsScalar(c)
    ensures IsUtf8(EncodeScalar(c) + rest) <==> IsUtf8(rest)
  {
    var b := EncodeScalar(c);
    var s := b + rest;
    assert s[|b|..] == rest;
    assert forall i :: 0 <= i < |b| ==> s[i] == b[i];
    LeadByte(c);
    hide EncodeScalar;
  }

  /** The first two bytes show how many there are; no value has two encodings and surrogates have none. */
  lemma LeadByte(c: nat)
    requires IsScalar(c)
    ensures var b := EncodeScalar(c);
      && (forall i :: 1 <= i < |b| ==> Continuation(b[i]))
      && match |b|
         case 1 => b[0] < 0x80
         case 2 => 0xC2 <= b[0] < 0xE0
         case 3 => 0xE0 <= b[0] < 0xF0 && (b[0] == 0xE0 ==> 0xA0 <= b[1]) && (b[0] == 0xED ==> b[1] < 0xA0)
         case 4 => 0xF0 <= b[0] < 0xF5 && (b[0] == 0xF0 ==> 0x90 <= b[1]) && (b[0] == 0xF4 ==> b[1] < 0x90)
         case _ => false
  {
    if 0x10000 <= c {
      LeadOfFour(c);
    } else if 0x800 <= c {
      LeadOfThree(c);
    }
  }

  lemma LeadOfThree(c: nat)
    requires 0x800 <= c < 0x10000 && IsScalar(c)
    ensures var q, r := c / 0x1000, c / 0x40 % 0x40;
      0 <= q < 0x10 && 0 <= r < 0x40 && (q == 0 ==> 0x20 <= r) && (q == 0xD ==> r < 0x20)
  {
    var m := c / 0x40;
    DivideTwice(c, 0x40, 0x40);
    assert m == 0x40 * (m / 0x40) + m % 0x40;
  }

  lemma LeadOfFour(c: nat)
    requires 0x10000 <= c < 0x110000
    ensures var q, r := c / 0x40000, c / 0x1000 % 0x40;
      0 <= q < 5 && 0 <= r < 0x40 && (q == 0 ==> 0x10 <= r) && (q == 4 ==> r < 0x10)
  {
    var m := c / 0x1000;
    DivideTwice(c, 0x1000, 0x40);
    assert m == 0x40 * (m / 0x40) + m % 0x40;
  }

  /** The text that the reader takes is exactly what encodes some scalar values. */
  lemma {:induction false} Utf8IsEncoded(s: seq<Byte>)
    ensures IsUtf8(s) <==> exists cs :: AllScalars(cs) && Encoded(cs) == s
  {
    if IsUtf8(s) {
      var cs := ScalarsOf(s);
    }
    if cs :| AllScalars(cs) && Encoded(cs) == s {
      EncodedIsUtf8(cs);
    }
  }

  lemma {:induction false} ScalarsOf(s: seq<Byte>) returns (cs: seq<nat>)
    requires IsUtf8(s)
    ensures AllScalars(cs) && Encoded(cs) == s
    decreases |s|
  {
    hide EncodeScalar, IsScalar, IsUtf8;
    cs := [];
    if s != [] {
      var c := FirstScalar(s);
      var n := |EncodeScalar(c)|;
      var rest := ScalarsOf(s[n..]);
      cs := [c] + rest;
      assert cs[1..] == rest && s == s[..n] + s[n..];
    }
  }

  lemma {:induction false} EncodedIsUtf8(cs: seq<nat>)
    requires AllScalars(cs)
    ensures IsUtf8(Encoded(cs))
  {
    if cs != [] {
      EncodedIsUtf8(cs[1..]);
      ScalarInFront(cs[0], Encoded(cs[1..]));
    }
  }
}
