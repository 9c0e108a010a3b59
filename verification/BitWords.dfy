/**
 Machine words as numbers, and their bits or bytes as digits: a shift right and a mask picks a
 digit, setting or clearing a bit in place replaces one.
 */
module BitWords {
  import opened Basics

  /** The i-th digit of w, lowest first. */
  function Digit(base: nat, w: nat, i: nat): (d: nat)
    requires 1 < base
    ensures d < base
    decreases i
  {
    if i == 0 then w % base else Digit(base, w / base, i - 1)
  }

  /** The word with its i-th digit replaced. */
  function SetDigit(base: nat, w: nat, i: nat, d: nat): (v: nat)
    requires 1 < base && d < base
    decreases i
  {
    if i == 0 then base * (w / base) + d else base * SetDigit(base, w / base, i - 1, d) + w % base
  }

  /** (w >> shift) & mask */
  lemma {:induction false} Shifted(base: nat, w: nat, i: nat)
    requires 1 < base
    ensures Digit(base, w, i) == w / Power(base, i) % base
    decreases i
  {
    if 0 < i {
      Shifted(base, w / base, i - 1);
      DivideTwice(w, base, Power(base, i - 1));
    }
  }

  /** Every digit has a place of its own. */
  lemma {:induction false} DigitOfSet(base: nat, w: nat, i: nat, d: nat, j: nat)
    requires 1 < base && d < base
    ensures Digit(base, SetDigit(base, w, i, d), j) == if i == j then d else Digit(base, w, j)
    decreases i
  {
    var rest := if i == 0 then w / base else SetDigit(base, w / base, i - 1, d);
    var low := if i == 0 then d else w % base;
    UniqueQuotient(SetDigit(base, w, i, d), base, rest, low);
    if 0 < i && 0 < j {
      DigitOfSet(base, w / base, i - 1, d, j - 1);
    }
  }

  /** What replacing a digit does to the number: w - old * base^i + new * base^i. */
  lemma {:induction false} SetDigitValue(base: nat, w: nat, i: nat, d: nat)
    requires 1 < base && d < base
    ensures SetDigit(base, w, i, d) + Digit(base, w, i) * Power(base, i) == w + d * Power(base, i)
    decreases i
  {
    if i == 0 {
      FirstDigit(base, w, d);
    } else {
      LaterDigit(base, w, i, d);
      hide *;
      SetDigitValue(base, w / base, i - 1, d);
      Raise(base, SetDigit(base, w / base, i - 1, d), Digit(base, w, i), Power(base, i - 1), w / base, w % base, d,
            SetDigit(base, w, i, d), Power(base, i), w);
    }
  }

  lemma FirstDigit(base: nat, w: nat, d: nat)
    requires 1 < base && d < base
    ensures SetDigit(base, w, 0, d) + Digit(base, w, 0) * Power(base, 0) == w + d * Power(base, 0)
  {
    assert SetDigit(base, w, 0, d) == base * (w / base) + d;
  }

  lemma LaterDigit(base: nat, w: nat, i: nat, d: nat)
    requires 1 < base && d < base && i != 0
    ensures SetDigit(base, w, i, d) == base * SetDigit(base, w / base, i - 1, d) + w % base
    ensures Digit(base, w, i) == Digit(base, w / base, i - 1) && Power(base, i) == base * Power(base, i - 1)
    ensures w == base * (w / base) + w % base
  {}

  lemma Raise(base: nat, a: nat, b: nat, p: nat, q: nat, r: nat, d: nat, v: nat, power: nat, w: nat)
    requires a + b * p == q + d * p && v == base * a + r && power == base * p && w == base * q + r
    ensures v + b * power == w + d * power
  {
    Scale(base, a, b, p, q, d);
  }

  lemma Scale(base: nat, a: nat, b: nat, p: nat, q: nat, d: nat)
    requires a + b * p == q + d * p
    ensures base * a + b * (base * p) == base * q + d * (base * p)
  {
    assert base * (a + b * p) == base * (q + d * p);
    assert base * (b * p) == b * (base * p) && base * (d * p) == d * (base * p);
  }

  lemma {:induction false} SetDigitBelow(base: nat, w: nat, i: nat, d: nat, n: nat)
    requires 1 < base && d < base && i < n && w < Power(base, n)
    ensures SetDigit(base, w, i, d) < Power(base, n)
    decreases i
  {
    var p := Power(base, n - 1);
    QuotientBelow(w, base, p);
    if i == 0 {
      OneMoreDigit(base, w / base, d, p);
    } else {
      SetDigitBelow(base, w / base, i - 1, d, n - 1);
      OneMoreDigit(base, SetDigit(base, w / base, i - 1, d), w % base, p);
    }
  }

  lemma OneMoreDigit(base: nat, a: nat, d: nat, p: nat)
    requires a < p && d < base
    ensures base * a + d < base * p
  {
    assert base * (a + 1) <= base * p;
  }

  /** Digits above the width of a word are zero. */
  lemma {:induction false} HighDigits(base: nat, w: nat, i: nat, n: nat)
    requires 1 < base && w < Power(base, n) && n <= i
    ensures Digit(base, w, i) == 0
    decreases i
  {
    if 0 < n {
      QuotientBelow(w, base, Power(base, n - 1));
      HighDigits(base, w / base, i - 1, n - 1);
    } else if 0 < i {
      HighDigits(base, w / base, i - 1, 0);
    }
  }

  // ----- Bits -----

  predicate Bit(w: nat, i: nat) {
    Digit(2, w, i) == 1
  }

  /** fetch_or with, and fetch_and with the complement of, 1 << i. */
  function WithBit(w: nat, i: nat, on: bool): (v: nat)
  {
    SetDigit(2, w, i, if on then 1 else 0)
  }

  lemma BitOfWith(w: nat, i: nat, on: bool, j: nat)
    ensures Bit(WithBit(w, i, on), j) <==> if i == j then on else Bit(w, j)
  {
    DigitOfSet(2, w, i, if on then 1 else 0, j);
  }

  function TrailingZeros(w: nat): (i: nat)
    requires 0 < w
    ensures Bit(w, i)
  {
    if w % 2 == 1 then 0 else 1 + TrailingZeros(w / 2)
  }

  lemma {:induction false} LowestBit(w: nat, j: nat)
    requires 0 < w && Bit(w, j)
    ensures TrailingZeros(w) <= j
  {
    if w % 2 == 0 {
      assert 0 < j;
      LowestBit(w / 2, j - 1);
    }
  }

  lemma NoBits(i: nat)
    ensures !Bit(0, i)
  {
    HighDigits(2, 0, i, 0);
  }

  /** The word without its lowest bit. */
  lemma DropLowest(w: nat, j: nat)
    requires 0 < w
    ensures var r := TrailingZeros(w);
      WithBit(w, r, false) < w && (Bit(w, j) <==> j == r || Bit(WithBit(w, r, false), j)) && (Bit(w, j) ==> r <= j)
  {
    hide SetDigit, Digit, Power, TrailingZeros;
    var r := TrailingZeros(w);
    SetDigitValue(2, w, r, 0);
    BitOfWith(w, r, false, j);
    if Bit(w, j) { LowestBit(w, j); }
  }

  /** The iterator over a word's bits: trailing_zeros, then the bit is taken out. */
  method Biterate(w: nat) returns (bits: seq<nat>)
    ensures forall i: nat :: i in bits <==> Bit(w, i)
    ensures forall i, j :: 0 <= i < j < |bits| ==> bits[i] < bits[j]
  {
    hide Bit, TrailingZeros, WithBit;
    var left: nat := w;
    bits := [];
    while left != 0
      invariant forall i: nat :: Bit(w, i) <==> i in bits || Bit(left, i)
      invariant forall i, j :: 0 <= i < j < |bits| ==> bits[i] < bits[j]
      invariant forall i, j: nat :: 0 <= i < |bits| && Bit(left, j) ==> bits[i] < j
      decreases left
    {
      var r := TrailingZeros(left);
      ghost var was: nat := left;
      left := WithBit(left, r, false);
      forall j: nat ensures left < was && (Bit(was, j) <==> j == r || Bit(left, j)) && (Bit(left, j) ==> r < j) {
        DropLowest(was, j);
        BitOfWith(was, r, false, j);
      }
      assert Bit(was, r);
      bits := bits + [r];
    }
    forall i: nat ensures i in bits <==> Bit(w, i) {
      NoBits(i);
    }
  }
}
