/**
 Which bytes carry which value on the wire, said without encoder or decoder (section intro(5)
 of the Plan 9 manual).
 */
module WireGrammar {
  import opened Basics
  import opened Endian
  import opened WireFormat

  /** The first bytes of b, lowest first, are n. */
  ghost predicate Starts(b: seq<Byte>, width: nat, n: nat) {
    && width <= |b| && n < Power(256, width)
    && forall i :: 0 <= i < width ==> b[i] == n / Power(256, i) % 256
  }

  function Short(b: seq<Byte>): nat
    requires 2 <= |b|
  {
    var x: int, y: int := b[0], b[1];
    x + 256 * y
  }

  function Long(b: seq<Byte>): nat
    requires 4 <= |b|
  {
    var w: int, x: int, y: int, z: int := b[0], b[1], b[2], b[3];
    w + 256 * x + 65536 * y + 16777216 * z
  }

  /**
   b begins with a value v of type t, and left comes after it: a number of its width; two bytes of
   length and text, or what there is of it; four bytes of length and data, up to 32 megabytes; two
   bytes of count and that many elements; or fields one after the other.
   */
  ghost predicate Carries(t: Type, b: seq<Byte>, v: Value, left: seq<Byte>)
    decreases t, 0, v
  {
    match t
    case UInt(width) => v.Number? && Starts(b, width, v.number) && left == b[width..]
    case Text =>
      && v.Bytes? && IsUtf8(v.bytes) && 2 + |v.bytes| <= |b|
      && |v.bytes| == (if Short(b) <= |b| - 2 then Short(b) else |b| - 2)
      && v.bytes == b[2..2 + |v.bytes|] && left == b[2 + |v.bytes|..]
    case Data =>
      && v.Bytes? && 4 + |v.bytes| <= |b| && |v.bytes| == Long(b) <= 33554432
      && v.bytes == b[4..4 + |v.bytes|] && left == b[4 + |v.bytes|..]
    case Vec(e) => v.Many? && 2 <= |b| && Length(v.values) == Short(b) && CarriesAll(e, b[2..], v.values, left)
    case Struct(ts) => v.Many? && CarriesFields(ts, b, v.values, left)
  }

  ghost predicate CarriesAll(t: Type, b: seq<Byte>, vs: Values, left: seq<Byte>)
    decreases t, 1, vs
  {
    match vs
    case Nil => left == b
    case Cons(v, rest) => exists mid :: Carries(t, b, v, mid) && CarriesAll(t, mid, rest, left)
  }

  ghost predicate CarriesFields(ts: Types, b: seq<Byte>, vs: Values, left: seq<Byte>)
    decreases ts, 0, vs
  {
    match ts
    case NoMore => vs.Nil? && left == b
    case Field(t, rest) =>
      vs.Cons? && exists mid :: Carries(t, b, vs.head, mid) && CarriesFields(rest, mid, vs.tail, left)
  }

  // ----- Numbers -----

  lemma {:induction false} FromLeIs(b: seq<Byte>, n: nat)
    ensures FromLe(b) == n <==> Starts(b, |b|, n)
  {
    LeOfFrom(b);
    forall i | 0 <= i < |b| ensures b[i] == FromLe(b) / Power(256, i) % 256 {
      LeAt(FromLe(b), |b|, i);
    }
    if Starts(b, |b|, n) {
      forall i | 0 <= i < |b| ensures Le(n, |b|)[i] == b[i] {
        LeAt(n, |b|, i);
      }
      assert Le(n, |b|) == b;
      LeRoundTrip(n, |b|);
    }
  }

  lemma ReadIsNumber(width: nat, b: seq<Byte>, n: nat, left: seq<Byte>)
    ensures ReadUInt(width, b) == Some(Parsed(n, left)) <==> Starts(b, width, n) && left == b[width..]
  {
    if width <= |b| {
      FromLeIs(b[..width], n);
      assert Starts(b[..width], width, n) <==> Starts(b, width, n) by {
        assert forall i :: 0 <= i < width ==> b[..width][i] == b[i];
      }
    }
  }

  lemma ShortIs(b: seq<Byte>)
    requires 2 <= |b|
    ensures ReadUInt(2, b) == Some(Parsed(Short(b), b[2..]))
  {
    var c := b[..2];
    assert c[1..] == [c[1]] && c[1..][1..] == [];
    assert FromLe(c[1..]) == c[1] + 0x100 * FromLe(c[1..][1..]);
  }

  lemma LongIs(b: seq<Byte>)
    requires 4 <= |b|
    ensures ReadUInt(4, b) == Some(Parsed(Long(b), b[4..]))
  {
    var c := b[..4];
    var c1, c2, c3, c4 := c[1..], c[2..], c[3..], c[4..];
    assert c1[1..] == c2 && c2[1..] == c3 && c3[1..] == c4 == [];
    assert FromLe(c3) == c[3] + 0x100 * FromLe(c4);
    assert FromLe(c2) == c[2] + 0x100 * FromLe(c3);
    assert FromLe(c1) == c[1] + 0x100 * FromLe(c2);
  }

  // ----- Decoding -----

  lemma DecodeText(b: seq<Byte>, v: Value, left: seq<Byte>)
    ensures Decode(Text, b) == Some(Parsed(v, left)) <==> Carries(Text, b, v, left)
  {
    hide IsUtf8;
    if 2 <= |b| {
      ShortIs(b);
      hide ReadUInt, Short;
      var taken := Min(Short(b), |b| - 2);
      assert b[2..][..taken] == b[2..2 + taken] && b[2..][taken..] == b[2 + taken..];
    }
  }

  lemma DecodeData(b: seq<Byte>, v: Value, left: seq<Byte>)
    ensures Decode(Data, b) == Some(Parsed(v, left)) <==> Carries(Data, b, v, left)
  {
    if 4 <= |b| {
      LongIs(b);
      hide ReadUInt, Long;
      var n := Long(b);
      if n <= |b| - 4 {
        assert b[4..][..n] == b[4..4 + n] && b[4..][n..] == b[4 + n..];
      }
    }
  }

  /** Decoding accepts exactly the bytes that carry a value, and gives that value and what comes after it. */
  lemma {:induction false} DecodesWhatIsCarried(t: Type, b: seq<Byte>, v: Value, left: seq<Byte>)
    ensures Decode(t, b) == Some(Parsed(v, left)) <==> Carries(t, b, v, left)
    decreases t, 0, 0
  {
    match t
    case UInt(width) =>
      hide ReadUInt, Starts;
      if v.Number? { ReadIsNumber(width, b, v.number, left); }
      if ReadUInt(width, b).Some? {
        ReadIsNumber(width, b, ReadUInt(width, b).value.result, ReadUInt(width, b).value.left);
      }
    case Text => DecodeText(b, v, left);
    case Data => DecodeData(b, v, left);
    case Vec(e) =>
      hide ReadUInt, Short, DecodeAll, CarriesAll;
      if 2 <= |b| {
        ShortIs(b);
        if v.Many? { AllCarried(e, Short(b), b[2..], v.values, left); }
        var vs := DecodeAll(e, Short(b), b[2..]);
        if vs.Some? { AllCarried(e, Short(b), b[2..], vs.value.result, vs.value.left); }
      } else {
        TooShort(b);
      }
    case Struct(ts) =>
      hide DecodeFields, CarriesFields;
      if v.Many? { FieldsCarried(ts, b, v.values, left); }
      var vs := DecodeFields(ts, b);
      if vs.Some? { FieldsCarried(ts, b, vs.value.result, vs.value.left); }
  }

  lemma TooShort(b: seq<Byte>)
    requires |b| < 2
    ensures ReadUInt(2, b).None?
  {}

  lemma {:induction false} AllCarried(t: Type, n: nat, b: seq<Byte>, vs: Values, left: seq<Byte>)
    ensures DecodeAll(t, n, b) == Some(Parsed(vs, left)) <==> Length(vs) == n && CarriesAll(t, b, vs, left)
    decreases t, 1, n
  {
    hide Decode, Carries;
    if n != 0 && vs.Cons? {
      var d := Decode(t, b);
      if d.Some? {
        DecodesWhatIsCarried(t, b, d.value.result, d.value.left);
        AllCarried(t, n - 1, d.value.left, vs.tail, left);
      }
      forall mid | Carries(t, b, vs.head, mid) ensures d == Some(Parsed(vs.head, mid)) {
        DecodesWhatIsCarried(t, b, vs.head, mid);
      }
    }
  }

  lemma {:induction false} FieldsCarried(ts: Types, b: seq<Byte>, vs: Values, left: seq<Byte>)
    ensures DecodeFields(ts, b) == Some(Parsed(vs, left)) <==> CarriesFields(ts, b, vs, left)
    decreases ts, 0, 0
  {
    hide Decode, Carries;
    if ts.Field? && vs.Cons? {
      var d := Decode(ts.first, b);
      if d.Some? {
        DecodesWhatIsCarried(ts.first, b, d.value.result, d.value.left);
        FieldsCarried(ts.rest, d.value.left, vs.tail, left);
      }
      forall mid | Carries(ts.first, b, vs.head, mid) ensures d == Some(Parsed(vs.head, mid)) {
        DecodesWhatIsCarried(ts.first, b, vs.head, mid);
      }
    }
  }

  /** What is encoded carries its value. */
  lemma EncodesWhatIsCarried(v: Value, t: Type, more: seq<Byte>)
    requires Fits(v, t)
    ensures Carries(t, Encode(v, t) + more, v, more)
  {
    hide *;
    DecodeEncode(v, t, more);
    DecodesWhatIsCarried(t, Encode(v, t) + more, v, more);
  }

  // ----- Frames -----

  /**
   Four bytes of size, a byte of type, two bytes of tag and the message, which has to be within the
   size or within what there is.
   */
  ghost predicate CarriesFrame(schema: Schema, b: seq<Byte>, f: Frame, left: seq<Byte>) {
    && 7 <= |b| && 7 <= Long(b) && b[4] == f.ty && f.ty in schema && f.tag == Short(b[5..])
    && var end := if Long(b) <= |b| then Long(b) else |b|;
    && exists rest :: Carries(schema[f.ty], b[7..end], f.message, rest) && left == rest + b[end..]
  }

  lemma DecodesFrameCarried(schema: Schema, b: seq<Byte>, f: Frame, left: seq<Byte>)
    ensures DecodeFrame(schema, b) == Some(Parsed(f, left)) <==> CarriesFrame(schema, b, f, left)
  {
    hide Decode, Carries, ReadUInt, Long, Short;
    if 4 <= |b| {
      LongIs(b);
      if 7 <= |b| && 7 <= Long(b) {
        FrameMessage(schema, b, f, left, if Long(b) <= |b| then Long(b) else |b|);
      } else {
        FrameTooShort(schema, b);
      }
    } else {
      NoSize(b);
    }
  }

  lemma NoSize(b: seq<Byte>)
    requires |b| < 4
    ensures ReadUInt(4, b).None?
  {}

  lemma FrameTooShort(schema: Schema, b: seq<Byte>)
    requires 4 <= |b| && (|b| < 7 || Long(b) < 7)
    ensures DecodeFrame(schema, b).None?
  {
    LongIs(b);
    hide Long, Decode;
    if 4 <= Long(b) {
      var cut := Min(Long(b) - 4, |b| - 4);
      assert |b[4..][..cut]| == cut < 3;
    }
  }

  lemma FrameParts(b: seq<Byte>, end: nat)
    requires 7 <= end <= |b|
    ensures b[4..][..end - 4] == b[4..end] && b[4..][end - 4..] == b[end..]
    ensures b[4..end][0] == b[4] && b[4..end][1..][2..] == b[7..end] && |b[4..end][1..]| == end - 5
    ensures b[4..end][1..][..2] == b[5..][..2] && b[4..end][1..][0] == b[5] && b[4..end][1..][1] == b[6]
  {}

  lemma FrameMessage(schema: Schema, b: seq<Byte>, f: Frame, left: seq<Byte>, end: nat)
    requires 7 <= |b| && 7 <= Long(b) && end == if Long(b) <= |b| then Long(b) else |b|
    ensures DecodeFrame(schema, b) == Some(Parsed(f, left)) <==> CarriesFrame(schema, b, f, left)
  {
    LongIs(b);
    FrameParts(b, end);
    ShortIs(b[4..end][1..]);
    assert Short(b[4..end][1..]) == Short(b[5..]);
    hide Decode, Carries, ReadUInt, Long, Short;
    if b[4] in schema {
      var t := schema[b[4]];
      DecodesWhatIsCarriedSomehow(t, b[7..end], f.message);
    }
  }

  lemma DecodesWhatIsCarriedSomehow(t: Type, b: seq<Byte>, v: Value)
    ensures forall left :: Decode(t, b) == Some(Parsed(v, left)) <==> Carries(t, b, v, left)
  {
    hide Decode, Carries;
    forall left ensures Decode(t, b) == Some(Parsed(v, left)) <==> Carries(t, b, v, left) {
      DecodesWhatIsCarried(t, b, v, left);
    }
  }
}
