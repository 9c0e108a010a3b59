/**
 Fixed-width unsigned integers as bytes.  A value too large for its width loses its upper bits,
 as a cast to the narrower type does.
 */
module Endian {
  type Byte = b: int | 0 <= b < 256

  const U16_SIZE: nat := 0x1_0000
  const U32_SIZE: nat := 0x1_0000_0000
  const U64_SIZE: nat := 0x1_0000_0000_0000_0000

  /** Least significant digit first. */
  function Digit(low: nat, high: nat): nat { low + 0x100 * high }

  /** u32::to_le_bytes */
  function Le32(n: nat): (b: seq<Byte>)
    ensures |b| == 4
  {
    [n % 0x100, n / 0x100 % 0x100, n / 0x100 / 0x100 % 0x100, n / 0x100 / 0x100 / 0x100 % 0x100]
  }

  function FromLe32(b: seq<Byte>): (n: nat)
    requires |b| == 4
  {
    Digit(b[0], Digit(b[1], Digit(b[2], b[3])))
  }

  lemma Le32RoundTrip(n: nat)
    requires n < U32_SIZE
    ensures FromLe32(Le32(n)) == n
  {
    Digits(n);
  }

  /** u32::to_be_bytes */
  function Be32(n: nat): (b: seq<Byte>)
    ensures |b| == 4
  {
    [n / 0x100 / 0x100 / 0x100 % 0x100, n / 0x100 / 0x100 % 0x100, n / 0x100 % 0x100, n % 0x100]
  }

  function FromBe32(b: seq<Byte>): (n: nat)
    requires |b| == 4
  {
    Digit(b[3], Digit(b[2], Digit(b[1], b[0])))
  }

  lemma Be32RoundTrip(n: nat)
    requires n < U32_SIZE
    ensures FromBe32(Be32(n)) == n
  {
    Digits(n);
  }

  lemma Digits(n: nat)
    requires n < U32_SIZE
    ensures var a, b, c := n / 0x100, n / 0x100 / 0x100, n / 0x100 / 0x100 / 0x100;
      n == Digit(n % 0x100, a) && a == Digit(a % 0x100, b) && b == Digit(b % 0x100, c) && c % 0x100 == c
  {}

  /** u64::to_be_bytes */
  function Be64(n: nat): (b: seq<Byte>)
    ensures |b| == 8
  {
    Be32(n / U32_SIZE) + Be32(n % U32_SIZE)
  }

  function FromBe64(b: seq<Byte>): (n: nat)
    requires |b| == 8
    ensures n < U64_SIZE
  {
    FromBe32(b[..4]) * U32_SIZE + FromBe32(b[4..])
  }

  lemma Be64RoundTrip(n: nat)
    requires n < U64_SIZE
    ensures FromBe64(Be64(n)) == n
  {
    Be32RoundTrip(n / U32_SIZE);
    Be32RoundTrip(n % U32_SIZE);
    assert Be64(n)[..4] == Be32(n / U32_SIZE) && Be64(n)[4..] == Be32(n % U32_SIZE);
  }

  // ----- Text -----

  predicate Continuation(b: Byte) { 0x80 <= b < 0xC0 }

  /** Well-formed UTF-8, as core::str::from_utf8 accepts it (section 4 of RFC 3629). */
  predicate IsUtf8(s: seq<Byte>) {
    if s == [] then true
    else if s[0] < 0x80 then IsUtf8(s[1..])
    else if 0xC2 <= s[0] < 0xE0 then
      2 <= |s| && Continuation(s[1]) && IsUtf8(s[2..])
    else if 0xE0 <= s[0] < 0xF0 then
      && 3 <= |s| && Continuation(s[1]) && Continuation(s[2])
      && (s[0] == 0xE0 ==> 0xA0 <= s[1]) && (s[0] == 0xED ==> s[1] < 0xA0)
      && IsUtf8(s[3..])
    else
      && 0xF0 <= s[0] < 0xF5 && 4 <= |s|
      && Continuation(s[1]) && Continuation(s[2]) && Continuation(s[3])
      && (s[0] == 0xF0 ==> 0x90 <= s[1]) && (s[0] == 0xF4 ==> s[1] < 0x90)
      && IsUtf8(s[4..])
  }
}
