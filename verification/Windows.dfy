/**
 Rolling windows for needles of two, three and four bytes.

 A shift of an unsigned word drops the bits above its width; the byte or-ed in always meets zero
 bits, so it is added.
 */
module Windows {
  import opened Basics
  import opened CStrings
  import opened Endian

  function Word16(a: int, b: int): int { a * 0x100 + b }

  function Word32(a: int, b: int, c: int, d: int): int {
    a * 0x100_0000 + b * 0x1_0000 + c * 0x100 + d
  }

  lemma Word32Injective(a: Byte, b: Byte, c: Byte, d: Byte, e: Byte, f: Byte, g: Byte, i: Byte)
    ensures Word32(a, b, c, d) == Word32(e, f, g, i) <==> (a, b, c, d) == (e, f, g, i)
  {
    assert Word32(a, b, c, d) == Word16(Word16(Word16(a, b), c), d);
    assert Word32(e, f, g, i) == Word16(Word16(Word16(e, f), g), i);
    Word16Injective(Word16(Word16(a, b), c), d, Word16(Word16(e, f), g), i);
    Word16Injective(Word16(a, b), c, Word16(e, f), g);
    Word16Injective(a, b, e, f);
  }

  lemma Word16Injective(a: int, b: Byte, c: int, d: Byte)
    ensures Word16(a, b) == Word16(c, d) <==> a == c && b == d
  {}

  /** Shifting left drops the first byte of the window. */
  lemma Word32Slides(a: Byte, b: Byte, c: Byte, d: Byte, e: Byte)
    ensures Word32(a, b, c, d) * 0x100 % 0x1_0000_0000 + e == Word32(b, c, d, e)
    ensures (Word32(a, b, c, 0) + d) * 0x100 % 0x1_0000_0000 == Word32(b, c, d, 0)
  {
    assert Word32(a, b, c, d) * 0x100 == a * 0x1_0000_0000 + Word32(b, c, d, 0);
  }

  /** The first `size` bytes of needle and window decide whether the needle occurs. */
  lemma WindowDecides(h: seq<Byte>, n: seq<Byte>, i: nat)
    requires IsCString(h) && IsCString(n) && i + Length(n) <= Length(h)
    requires Length(n) == 3 || Length(n) == 4
    ensures Length(n) == 3 ==>
      (OccursAt(h, n, i) <==> Word32(n[0], n[1], n[2], 0) == Word32(h[i], h[i + 1], h[i + 2], 0))
    ensures Length(n) == 4 ==>
      (OccursAt(h, n, i) <==>
       Word32(n[0], n[1], n[2], n[3]) == Word32(h[i], h[i + 1], h[i + 2], h[i + 3]))
  {
    var l := Length(n);
    Word32Injective(n[0], n[1], n[2], n[3], h[i], h[i + 1], h[i + 2], if l == 3 then 0 else h[i + 3]);
    if OccursAt(h, n, i) {
      assert n[0] == h[i + 0];
    }
  }

  method TwoByte(h: seq<Byte>, n: seq<Byte>) returns (r: Option<nat>)
    requires IsCString(h) && IsCString(n) && Length(n) == 2 && 1 < |h|
    ensures IsFirstMatch(h, n, r)
  {
    var nw, hw := Word16(n[0], n[1]), Word16(h[0], h[1]);
    var i := 1;
    while h[i] != 0 && hw != nw
      invariant 1 <= i < |h| && hw == Word16(h[i - 1], h[i])
      invariant NoneBefore(h, n, i - 1)
      decreases |h| - i
    {
      i := i + 1;
      hw := hw * 0x100 % 0x1_0000 + h[i];
    }
    r := if h[i] != 0 then Some(i - 1) else None;
  }

  method ThreeByte(h: seq<Byte>, n: seq<Byte>) returns (r: Option<nat>)
    requires IsCString(h) && IsCString(n) && Length(n) == 3 && 2 < |h|
    ensures IsFirstMatch(h, n, r)
  {
    var nw, hw := Word32(n[0], n[1], n[2], 0), Word32(h[0], h[1], h[2], 0);
    var i := 2;
    while h[i] != 0 && hw != nw
      invariant 2 <= i < |h| && hw == Word32(h[i - 2], h[i - 1], h[i], 0)
      invariant NoneBefore(h, n, i - 2)
      decreases |h| - i
    {
      WindowDecides(h, n, i - 2);
      Word32Slides(h[i - 2], h[i - 1], h[i], h[i + 1], 0);
      i := i + 1;
      hw := (hw + h[i]) * 0x100 % 0x1_0000_0000;
    }
    if h[i] != 0 {
      WindowDecides(h, n, i - 2);
      r := Some(i - 2);
    } else {
      r := None;
    }
  }

  method FourByte(h: seq<Byte>, n: seq<Byte>) returns (r: Option<nat>)
    requires IsCString(h) && IsCString(n) && Length(n) == 4 && 3 < |h|
    ensures IsFirstMatch(h, n, r)
  {
    var nw, hw := Word32(n[0], n[1], n[2], n[3]), Word32(h[0], h[1], h[2], h[3]);
    var i := 3;
    while h[i] != 0 && hw != nw
      invariant 3 <= i < |h| && hw == Word32(h[i - 3], h[i - 2], h[i - 1], h[i])
      invariant NoneBefore(h, n, i - 3)
      decreases |h| - i
    {
      WindowDecides(h, n, i - 3);
      Word32Slides(h[i - 3], h[i - 2], h[i - 1], h[i], h[i + 1]);
      i := i + 1;
      hw := hw * 0x100 % 0x1_0000_0000 + h[i];
    }
    if h[i] != 0 {
      WindowDecides(h, n, i - 3);
      r := Some(i - 3);
    } else {
      r := None;
    }
  }
}
