/**
 The wire format of 9P2000.L messages, over a schema of field types as the derived code walks it.

 Integers are little-endian; text and vectors carry a 16-bit count, data a 32-bit one.  Decoding
 gives what is left of the input, as a reader does.
 */
module WireFormat {
  import opened Basics
  import opened Endian

  datatype Type = UInt(width: nat) | Text | Data | Vec(element: Type) | Struct(fields: Types)
  datatype Types = NoMore | Field(first: Type, rest: Types)

  datatype Value = Number(number: nat) | Bytes(bytes: seq<Byte>) | Many(values: Values)
  datatype Values = Nil | Cons(head: Value, tail: Values)

  const MAX_DATA_LENGTH: nat := 32 * 1024 * 1024

  function Length(vs: Values): nat {
    if vs.Nil? then 0 else 1 + Length(vs.tail)
  }

  // ----- Integers -----

  /** The low width bytes of n, lowest first. */
  function Le(n: nat, width: nat): (b: seq<Byte>)
    ensures |b| == width
  {
    if width == 0 then [] else [n % 0x100] + Le(n / 0x100, width - 1)
  }

  function FromLe(b: seq<Byte>): nat {
    if b == [] then 0 else b[0] + 0x100 * FromLe(b[1..])
  }

  lemma {:induction false} LeRoundTrip(n: nat, width: nat)
    requires n < Power(0x100, width)
    ensures FromLe(Le(n, width)) == n
  {
    if 0 < width {
      LeRoundTrip(n / 0x100, width - 1);
      assert Le(n, width)[1..] == Le(n / 0x100, width - 1);
    }
  }

  // ----- The derived code -----

  /** A value of the type that is within the limits of both encoding and decoding. */
  predicate Fits(v: Value, t: Type)
    decreases t, 0, v
  {
    match t
    case UInt(width) => v.Number? && v.number < Power(0x100, width)
    case Text => v.Bytes? && |v.bytes| < U16_SIZE && IsUtf8(v.bytes)
    case Data => v.Bytes? && |v.bytes| <= MAX_DATA_LENGTH
    case Vec(e) => v.Many? && Length(v.values) < U16_SIZE && AllFit(v.values, e)
    case Struct(ts) => v.Many? && FieldsFit(v.values, ts)
  }

  predicate AllFit(vs: Values, t: Type)
    decreases t, 1, vs
  {
    vs.Cons? ==> Fits(vs.head, t) && AllFit(vs.tail, t)
  }

  predicate FieldsFit(vs: Values, ts: Types)
    decreases ts, 0, vs
  {
    match ts
    case NoMore => vs.Nil?
    case Field(t, rest) => vs.Cons? && Fits(vs.head, t) && FieldsFit(vs.tail, rest)
  }

  function ByteSize(v: Value, t: Type): nat
    requires Fits(v, t)
    decreases t, 0, v
  {
    match t
    case UInt(width) => width
    case Text => 2 + |v.bytes|
    case Data => 4 + |v.bytes|
    case Vec(e) => 2 + SizeOfAll(v.values, e)
    case Struct(ts) => SizeOfFields(v.values, ts)
  }

  function SizeOfAll(vs: Values, t: Type): nat
    requires AllFit(vs, t)
    decreases t, 1, vs
  {
    if vs.Nil? then 0 else ByteSize(vs.head, t) + SizeOfAll(vs.tail, t)
  }

  function SizeOfFields(vs: Values, ts: Types): nat
    requires FieldsFit(vs, ts)
    decreases ts, 0, vs
  {
    match ts
    case NoMore => 0
    case Field(t, rest) => ByteSize(vs.head, t) + SizeOfFields(vs.tail, rest)
  }

  function Encode(v: Value, t: Type): seq<Byte>
    requires Fits(v, t)
    decreases t, 0, v
  {
    match t
    case UInt(width) => Le(v.number, width)
    case Text => Le(|v.bytes|, 2) + v.bytes
    case Data => Le(|v.bytes|, 4) + v.bytes
    case Vec(e) => Le(Length(v.values), 2) + EncodeAll(v.values, e)
    case Struct(ts) => EncodeFields(v.values, ts)
  }

  function EncodeAll(vs: Values, t: Type): seq<Byte>
    requires AllFit(vs, t)
    decreases t, 1, vs
  {
    if vs.Nil? then [] else Encode(vs.head, t) + EncodeAll(vs.tail, t)
  }

  function EncodeFields(vs: Values, ts: Types): seq<Byte>
    requires FieldsFit(vs, ts)
    decreases ts, 0, vs
  {
    match ts
    case NoMore => []
    case Field(t, rest) => Encode(vs.head, t) + EncodeFields(vs.tail, rest)
  }

  datatype Parsed<T> = Parsed(result: T, left: seq<Byte>)

  function ReadUInt(width: nat, b: seq<Byte>): Option<Parsed<nat>> {
    if |b| < width then None else Some(Parsed(FromLe(b[..width]), b[width..]))
  }

  function Min(a: nat, b: nat): nat {
    if a < b then a else b
  }

  /** Text that is cut short is accepted if what there is is text; data that is cut short is not. */
  function Decode(t: Type, b: seq<Byte>): Option<Parsed<Value>>
    decreases t, 0, 0
  {
    match t
    case UInt(width) =>
      var n := ReadUInt(width, b);
      if n.None? then None else Some(Parsed(Number(n.value.result), n.value.left))
    case Text =>
      var n := ReadUInt(2, b);
      if n.None? then None else
      var len, left := n.value.result, n.value.left;
      var taken := Min(len, |left|);
      if IsUtf8(left[..taken]) then Some(Parsed(Bytes(left[..taken]), left[taken..])) else None
    case Data =>
      var n := ReadUInt(4, b);
      if n.None? then None else
      var len, left := n.value.result, n.value.left;
      if len > MAX_DATA_LENGTH || |left| < len then None else Some(Parsed(Bytes(left[..len]), left[len..]))
    case Vec(e) =>
      var n := ReadUInt(2, b);
      if n.None? then None else
      var vs := DecodeAll(e, n.value.result, n.value.left);
      if vs.None? then None else Some(Parsed(Many(vs.value.result), vs.value.left))
    case Struct(ts) =>
      var vs := DecodeFields(ts, b);
      if vs.None? then None else Some(Parsed(Many(vs.value.result), vs.value.left))
  }

  function DecodeAll(t: Type, n: nat, b: seq<Byte>): Option<Parsed<Values>>
    decreases t, 1, n
  {
    if n == 0 then Some(Parsed(Nil, b)) else
    var v := Decode(t, b);
    if v.None? then None else
    var vs := DecodeAll(t, n - 1, v.value.left);
    if vs.None? then None else Some(Parsed(Cons(v.value.result, vs.value.result), vs.value.left))
  }

  function DecodeFields(ts: Types, b: seq<Byte>): Option<Parsed<Values>>
    decreases ts, 0, 0
  {
    match ts
    case NoMore => Some(Parsed(Nil, b))
    case Field(t, rest) =>
      var v := Decode(t, b);
      if v.None? then None else
      var vs := DecodeFields(rest, v.value.left);
      if vs.None? then None else Some(Parsed(Cons(v.value.result, vs.value.result), vs.value.left))
  }

  // ----- Encoded length -----

  lemma {:induction false} EncodedLength(v: Value, t: Type)
    requires Fits(v, t)
    ensures |Encode(v, t)| == ByteSize(v, t)
    decreases t, 0, v
  {
    match t
    case Vec(e) => LengthOfAll(v.values, e);
    case Struct(ts) => LengthOfFields(v.values, ts);
    case _ =>
  }

  lemma {:induction false} LengthOfAll(vs: Values, t: Type)
    requires AllFit(vs, t)
    ensures |EncodeAll(vs, t)| == SizeOfAll(vs, t)
    decreases t, 1, vs
  {
    if vs.Cons? {
      EncodedLength(vs.head, t);
      LengthOfAll(vs.tail, t);
    }
  }

  lemma {:induction false} LengthOfFields(vs: Values, ts: Types)
    requires FieldsFit(vs, ts)
    ensures |EncodeFields(vs, ts)| == SizeOfFields(vs, ts)
    decreases ts, 0, vs
  {
    if ts.Field? {
      EncodedLength(vs.head, ts.first);
      LengthOfFields(vs.tail, ts.rest);
    }
  }

  // ----- Decoding inverts encoding -----

  lemma ReadBack(n: nat, width: nat, more: seq<Byte>)
    requires n < Power(0x100, width)
    ensures ReadUInt(width, Le(n, width) + more) == Some(Parsed(n, more))
  {
    LeRoundTrip(n, width);
    assert (Le(n, width) + more)[..width] == Le(n, width);
  }

  lemma Powers()
    ensures Power(0x100, 1) == 0x100 && Power(0x100, 2) == U16_SIZE && Power(0x100, 4) == U32_SIZE
  {}

  lemma {:induction false} DecodeEncode(v: Value, t: Type, more: seq<Byte>)
    requires Fits(v, t)
    ensures Decode(t, Encode(v, t) + more) == Some(Parsed(v, more))
    decreases t, 0, v
  {
    Powers();
    match t
    case UInt(width) => ReadBack(v.number, width, more);
    case Text =>
      ReadBack(|v.bytes|, 2, v.bytes + more);
      Associate(Le(|v.bytes|, 2), v.bytes, more);
      assert (v.bytes + more)[..|v.bytes|] == v.bytes;
    case Data =>
      ReadBack(|v.bytes|, 4, v.bytes + more);
      Associate(Le(|v.bytes|, 4), v.bytes, more);
      assert (v.bytes + more)[..|v.bytes|] == v.bytes;
    case Vec(e) =>
      var n := Length(v.values);
      ReadBack(n, 2, EncodeAll(v.values, e) + more);
      Associate(Le(n, 2), EncodeAll(v.values, e), more);
      DecodeEncodeAll(v.values, e, more);
    case Struct(ts) => DecodeEncodeFields(v.values, ts, more);
  }

  lemma {:induction false} DecodeEncodeAll(vs: Values, t: Type, more: seq<Byte>)
    requires AllFit(vs, t)
    ensures DecodeAll(t, Length(vs), EncodeAll(vs, t) + more) == Some(Parsed(vs, more))
    decreases t, 1, vs
  {
    hide Encode, Decode, Fits;
    if vs.Nil? {
      assert [] + more == more;
    } else {
      DecodeEncode(vs.head, t, EncodeAll(vs.tail, t) + more);
      DecodeEncodeAll(vs.tail, t, more);
      Associate(Encode(vs.head, t), EncodeAll(vs.tail, t), more);
    }
  }

  lemma {:induction false} DecodeEncodeFields(vs: Values, ts: Types, more: seq<Byte>)
    requires FieldsFit(vs, ts)
    ensures DecodeFields(ts, EncodeFields(vs, ts) + more) == Some(Parsed(vs, more))
    decreases ts, 0, vs
  {
    hide Encode, Decode, Fits;
    if ts.NoMore? {
      assert [] + more == more;
    } else {
      DecodeEncode(vs.head, ts.first, EncodeFields(vs.tail, ts.rest) + more);
      DecodeEncodeFields(vs.tail, ts.rest, more);
      Associate(Encode(vs.head, ts.first), EncodeFields(vs.tail, ts.rest), more);
    }
  }

  // ----- What decoding accepts -----

  lemma {:induction false} LeOfFrom(b: seq<Byte>)
    ensures FromLe(b) < Power(0x100, |b|) && Le(FromLe(b), |b|) == b
  {
    if b != [] {
      LeOfFrom(b[1..]);
      UniqueQuotient(FromLe(b), 0x100, FromLe(b[1..]), b[0]);
      assert b == [b[0]] + b[1..];
    }
  }

  /** No text announces more bytes than there are. */
  ghost predicate Whole(t: Type, b: seq<Byte>)
    decreases t, 0, 0
  {
    match t
    case UInt(_) => true
    case Data => true
    case Text => var n := ReadUInt(2, b); n.Some? ==> n.value.result <= |n.value.left|
    case Vec(e) => var n := ReadUInt(2, b); n.Some? ==> WholeAll(e, n.value.result, n.value.left)
    case Struct(ts) => WholeFields(ts, b)
  }

  ghost predicate WholeAll(t: Type, n: nat, b: seq<Byte>)
    decreases t, 1, n
  {
    0 < n ==> Whole(t, b) && var v := Decode(t, b); v.Some? ==> WholeAll(t, n - 1, v.value.left)
  }

  ghost predicate WholeFields(ts: Types, b: seq<Byte>)
    decreases ts, 0, 0
  {
    ts.Field? ==> Whole(ts.first, b) && var v := Decode(ts.first, b); v.Some? ==> WholeFields(ts.rest, v.value.left)
  }

  /** The bytes read are as many as the value takes, they are e exactly if whole, and the rest is left. */
  ghost predicate Explained(b: seq<Byte>, left: seq<Byte>, e: seq<Byte>, whole: bool) {
    |e| + |left| == |b| && b[|e|..] == left && (e + left == b <==> whole)
  }

  lemma ReadExplained(width: nat, b: seq<Byte>)
    requires width <= |b|
    ensures var n := ReadUInt(width, b).value;
      n.result < Power(0x100, width) && Explained(b, n.left, Le(n.result, width), true)
  {
    LeOfFrom(b[..width]);
    assert b[..width] + b[width..] == b;
  }

  lemma ReadLength(width: nat, b: seq<Byte>)
    requires width <= |b|
    ensures ReadUInt(width, b).value == Parsed(FromLe(b[..width]), b[width..])
  {}

  /** One part after another. */
  lemma ExplainedBoth(b: seq<Byte>, left: seq<Byte>, rest: seq<Byte>, e: seq<Byte>, f: seq<Byte>, one: bool, two: bool)
    requires Explained(b, left, e, one) && Explained(left, rest, f, two)
    ensures Explained(b, rest, e + f, one && two)
  {
    assert e + f + rest == e + (f + rest);
    if e + f + rest == b {
      assert b[..|e|] == e && b[|e|..] == f + rest;
    }
    if one && two {
      assert e + left == b;
    }
  }

  lemma BlobExplained(n: nat, width: nat, bytes: seq<Byte>, left: seq<Byte>, rest: seq<Byte>)
    requires n <= |left| && bytes == left[..n] && rest == left[n..]
    ensures Explained(left, rest, bytes, true)
  {
    assert left[..n] + left[n..] == left;
  }

  /** A text cut short is not what its encoding would have been. */
  lemma CutExplained(b: seq<Byte>, n: nat, left: seq<Byte>)
    requires Explained(b, left, Le(n, 2), true) && |left| < n < U16_SIZE
    ensures Explained(b, [], Le(|left|, 2) + left, false)
  {
    Powers();
    LeRoundTrip(n, 2);
    LeRoundTrip(|left|, 2);
    assert b[..2] == Le(n, 2);
    assert (Le(|left|, 2) + left + [])[..2] == Le(|left|, 2);
  }

  /**
   Whatever is decoded is a value within the limits, and encoding it again gives back the bytes
   read exactly when no text in them was cut short.
   */
  lemma {:induction false} DecodedExactly(t: Type, b: seq<Byte>)
    requires Decode(t, b).Some?
    ensures var p := Decode(t, b).value;
      Fits(p.result, t) && Explained(b, p.left, Encode(p.result, t), Whole(t, b))
    decreases t, 0, 0
  {
    hide Explained, Le, FromLe, IsUtf8, Power;
    Powers();
    match t
    case UInt(width) => ReadExplained(width, b);
    case Text => TextExactly(b);
    case Data =>
      ReadExplained(4, b);
      var n, left := ReadUInt(4, b).value.result, ReadUInt(4, b).value.left;
      BlobExplained(n, 4, left[..n], left, left[n..]);
      ExplainedBoth(b, left, left[n..], Le(n, 4), left[..n], true, true);
    case Vec(e) =>
      ReadExplained(2, b);
      var n, left := ReadUInt(2, b).value.result, ReadUInt(2, b).value.left;
      DecodedAllExactly(e, n, left);
      var vs := DecodeAll(e, n, left).value;
      ExplainedBoth(b, left, vs.left, Le(n, 2), EncodeAll(vs.result, e), true, WholeAll(e, n, left));
    case Struct(ts) => DecodedFieldsExactly(ts, b);
  }

  lemma TextExactly(b: seq<Byte>)
    requires Decode(Text, b).Some?
    ensures var p := Decode(Text, b).value;
      Fits(p.result, Text) && Explained(b, p.left, Encode(p.result, Text), Whole(Text, b))
  {
    hide Explained, Le, FromLe, IsUtf8, Power;
    Powers();
    ReadExplained(2, b);
    var n, left := ReadUInt(2, b).value.result, ReadUInt(2, b).value.left;
    if n <= |left| {
      BlobExplained(n, 2, left[..n], left, left[n..]);
      ExplainedBoth(b, left, left[n..], Le(n, 2), left[..n], true, true);
    } else {
      assert left[..|left|] == left && left[|left|..] == [];
      CutExplained(b, n, left);
    }
  }

  lemma {:induction false} DecodedAllExactly(t: Type, n: nat, b: seq<Byte>)
    requires DecodeAll(t, n, b).Some?
    ensures var p := DecodeAll(t, n, b).value;
      && AllFit(p.result, t) && Length(p.result) == n
      && Explained(b, p.left, EncodeAll(p.result, t), WholeAll(t, n, b))
    decreases t, 1, n
  {
    if n == 0 {
      assert [] + b == b;
    } else {
      AllParts(t, n, b);
      hide *;
      DecodedExactly(t, b);
      var v := Decode(t, b).value;
      DecodedAllExactly(t, n - 1, v.left);
      var vs := DecodeAll(t, n - 1, v.left).value;
      ExplainedBoth(b, v.left, vs.left, Encode(v.result, t), EncodeAll(vs.result, t), Whole(t, b),
                    WholeAll(t, n - 1, v.left));
      AllJoined(t, n, b, v, vs);
    }
  }

  lemma AllParts(t: Type, n: nat, b: seq<Byte>)
    requires 0 < n && DecodeAll(t, n, b).Some?
    ensures Decode(t, b).Some?
    ensures var v := Decode(t, b).value;
      && DecodeAll(t, n - 1, v.left).Some?
      && var vs := DecodeAll(t, n - 1, v.left).value;
         DecodeAll(t, n, b).value == Parsed(Cons(v.result, vs.result), vs.left)
  {
    hide Decode;
  }

  lemma AllJoined(t: Type, n: nat, b: seq<Byte>, v: Parsed<Value>, vs: Parsed<Values>)
    requires 0 < n && Decode(t, b) == Some(v) && DecodeAll(t, n - 1, v.left) == Some(vs)
    requires Fits(v.result, t) && AllFit(vs.result, t) && Length(vs.result) == n - 1
    requires Explained(b, vs.left, Encode(v.result, t) + EncodeAll(vs.result, t),
                       Whole(t, b) && WholeAll(t, n - 1, v.left))
    ensures var all := Cons(v.result, vs.result);
      AllFit(all, t) && Length(all) == n && Explained(b, vs.left, EncodeAll(all, t), WholeAll(t, n, b))
  {
    hide Decode, Encode, Whole, Fits, Explained;
  }

  lemma {:induction false} DecodedFieldsExactly(ts: Types, b: seq<Byte>)
    requires DecodeFields(ts, b).Some?
    ensures var p := DecodeFields(ts, b).value;
      FieldsFit(p.result, ts) && Explained(b, p.left, EncodeFields(p.result, ts), WholeFields(ts, b))
    decreases ts, 0, 0
  {
    if ts.NoMore? {
      assert [] + b == b;
    } else {
      hide Explained, Decode, Encode, Whole, Fits;
      DecodedExactly(ts.first, b);
      var v := Decode(ts.first, b).value;
      DecodedFieldsExactly(ts.rest, v.left);
      var vs := DecodeFields(ts.rest, v.left).value;
      ExplainedBoth(b, v.left, vs.left, Encode(v.result, ts.first), EncodeFields(vs.result, ts.rest),
                    Whole(ts.first, b), WholeFields(ts.rest, v.left));
    }
  }

  /** Tversion: a message size and the name of a protocol. */
  const VERSION: Type := Struct(Field(UInt(4), Field(Text, NoMore)))

  /** Eight bytes are announced and two are there: they are taken for the whole name. */
  lemma CutVersion(msize: nat)
    requires msize < U32_SIZE
    ensures var b := Le(msize, 4) + (Le(8, 2) + [0x39, 0x50]);
      && Decode(VERSION, b) == Some(Parsed(Many(Cons(Number(msize), Cons(Bytes([0x39, 0x50]), Nil))), []))
      && !Whole(VERSION, b)
  {
    Powers();
    hide Power, Le, FromLe;
    var name: seq<Byte> := [0x39, 0x50];
    var rest := Le(8, 2) + name;
    ReadBack(msize, 4, rest);
    ReadBack(8, 2, name);
    assert IsUtf8(name) by { assert name[1..] == [0x50] && name[1..][1..] == []; }
    assert name[..2] == name && name[2..] == [];
    var text := Field(Text, NoMore);
    assert DecodeFields(NoMore, []) == Some(Parsed(Nil, []));
    assert Decode(Text, rest) == Some(Parsed(Bytes(name), []));
    assert DecodeFields(text, rest) == Some(Parsed(Cons(Bytes(name), Nil), []));
    assert !WholeFields(text, rest);
  }

  // ----- Integers byte by byte -----

  lemma {:induction false} LeAt(n: nat, width: nat, i: nat)
    requires i < width
    ensures Le(n, width)[i] == n / Power(0x100, i) % 0x100
  {
    if 0 < i {
      LeAt(n / 0x100, width - 1, i - 1);
      DivideTwice(n, 0x100, Power(0x100, i - 1));
    }
  }

  /** Shifts out one byte after the other. */
  method EncodeUInt(n: nat, width: nat) returns (buf: array<Byte>)
    ensures fresh(buf) && buf[..] == Le(n, width)
  {
    buf := new Byte[width](_ => 0);
    for i := 0 to width
      invariant forall j :: 0 <= j < i ==> buf[j] == Le(n, width)[j]
    {
      LeAt(n, width, i);
      buf[i] := n / Power(0x100, i) % 0x100;
    }
  }

  /** Ors in one byte after the other; the bytes do not overlap. */
  method DecodeUInt(buf: array<Byte>) returns (result: nat)
    ensures result == FromLe(buf[..])
  {
    result := 0;
    ghost var b := buf[..];
    assert b[0..] == b;
    for i := 0 to buf.Length
      invariant result + Power(0x100, i) * FromLe(b[i..]) == FromLe(b)
    {
      LowerByte(b, i);
      result := result + buf[i] * Power(0x100, i);
    }
    assert b[buf.Length..] == [];
  }

  lemma LowerByte(b: seq<Byte>, i: nat)
    requires i < |b|
    ensures Power(0x100, i) * FromLe(b[i..]) == b[i] * Power(0x100, i) + Power(0x100, i + 1) * FromLe(b[i + 1..])
  {
    assert b[i..][1..] == b[i + 1..];
    var p, f := Power(0x100, i), FromLe(b[i + 1..]);
    assert p * (b[i] + 0x100 * f) == p * b[i] + p * (0x100 * f);
    assert p * (0x100 * f) == (0x100 * p) * f;
  }

  // ----- Frames -----

  /** A message: its type byte, a tag, and the fields the schema has for that type. */
  datatype Frame = Frame(ty: Byte, tag: nat, message: Value)

  /** The messages of one direction. */
  type Schema = map<Byte, Type>

  predicate FrameFits(schema: Schema, f: Frame) {
    && f.ty in schema && f.tag < U16_SIZE && Fits(f.message, schema[f.ty])
    && 7 + ByteSize(f.message, schema[f.ty]) < U32_SIZE
  }

  function FrameSize(schema: Schema, f: Frame): nat
    requires FrameFits(schema, f)
  {
    4 + 1 + 2 + ByteSize(f.message, schema[f.ty])
  }

  function EncodeFrame(schema: Schema, f: Frame): seq<Byte>
    requires FrameFits(schema, f)
  {
    Le(FrameSize(schema, f), 4) + ([f.ty] + (Le(f.tag, 2) + Encode(f.message, schema[f.ty])))
  }

  /** Only the bytes the size announces are there to be decoded; what the message leaves of them stays. */
  function DecodeFrame(schema: Schema, b: seq<Byte>): Option<Parsed<Frame>> {
    var size := ReadUInt(4, b);
    if size.None? || size.value.result < 4 then None else
    var cut := Min(size.value.result - 4, |size.value.left|);
    var limited, beyond := size.value.left[..cut], size.value.left[cut..];
    if limited == [] then None else
    var tag := ReadUInt(2, limited[1..]);
    if tag.None? || limited[0] !in schema then None else
    var message := Decode(schema[limited[0]], tag.value.left);
    if message.None? then None else
    Some(Parsed(Frame(limited[0], tag.value.result, message.value.result), message.value.left + beyond))
  }

  lemma FrameLength(schema: Schema, f: Frame)
    requires FrameFits(schema, f)
    ensures |EncodeFrame(schema, f)| == FrameSize(schema, f)
  {
    EncodedLength(f.message, schema[f.ty]);
  }

  lemma DecodeEncodeFrame(schema: Schema, f: Frame, more: seq<Byte>)
    requires FrameFits(schema, f)
    ensures DecodeFrame(schema, EncodeFrame(schema, f) + more) == Some(Parsed(f, more))
  {
    hide Decode, Encode, Le, FromLe, Fits, Power, ByteSize;
    var t := schema[f.ty];
    var size := FrameSize(schema, f);
    var body := Encode(f.message, t);
    var limited := [f.ty] + (Le(f.tag, 2) + body);
    FrameLength(schema, f);
    Powers();
    ReadBack(size, 4, limited + more);
    Associate(Le(size, 4), limited, more);
    assert (limited + more)[..size - 4] == limited && (limited + more)[size - 4..] == more;
    assert limited[1..] == Le(f.tag, 2) + body;
    ReadBack(f.tag, 2, body);
    DecodeEncode(f.message, t, []);
    assert body + [] == body && [] + more == more;
  }

  function EncodeFrames(schema: Schema, fs: seq<Frame>): seq<Byte>
    requires forall i :: 0 <= i < |fs| ==> FrameFits(schema, fs[i])
  {
    if fs == [] then [] else EncodeFrame(schema, fs[0]) + EncodeFrames(schema, fs[1..])
  }

  /** Up to n frames from a stream. */
  function DecodeFrames(schema: Schema, n: nat, b: seq<Byte>): Option<Parsed<seq<Frame>>> {
    if n == 0 then Some(Parsed([], b)) else
    var f := DecodeFrame(schema, b);
    if f.None? then None else
    var fs := DecodeFrames(schema, n - 1, f.value.left);
    if fs.None? then None else Some(Parsed([f.value.result] + fs.value.result, fs.value.left))
  }

  /** Frames written one after the other are read back as they were. */
  lemma {:induction false} StreamRoundTrip(schema: Schema, fs: seq<Frame>, more: seq<Byte>)
    requires forall i :: 0 <= i < |fs| ==> FrameFits(schema, fs[i])
    ensures DecodeFrames(schema, |fs|, EncodeFrames(schema, fs) + more) == Some(Parsed(fs, more))
  {
    if fs == [] {
      assert [] + more == more;
    } else {
      hide DecodeFrame, EncodeFrame;
      var rest := EncodeFrames(schema, fs[1..]);
      DecodeEncodeFrame(schema, fs[0], rest + more);
      StreamRoundTrip(schema, fs[1..], more);
      Associate(EncodeFrame(schema, fs[0]), rest, more);
      assert [fs[0]] + fs[1..] == fs;
    }
  }

  /**
   The bytes a frame announces are there, its message takes all of them, and no text in it is cut
   short.
   */
  ghost predicate WholeFrame(schema: Schema, b: seq<Byte>)
    requires DecodeFrame(schema, b).Some?
  {
    var size := FromLe(b[..4]);
    var limited := b[4..][..Min(size - 4, |b| - 4)];
    size <= |b| && Whole(schema[limited[0]], limited[3..]) && Decode(schema[limited[0]], limited[3..]).value.left == []
  }

  /** A frame decoded from any bytes fits the schema, and is what they encode exactly when they are whole. */
  lemma FrameExactly(schema: Schema, b: seq<Byte>)
    requires DecodeFrame(schema, b).Some?
    ensures var p := DecodeFrame(schema, b).value;
      FrameFits(schema, p.result) && (EncodeFrame(schema, p.result) + p.left == b <==> WholeFrame(schema, b))
  {
    hide Decode, Encode, Fits, Whole, Le, FromLe, Power, Explained, ByteSize;
    Powers();
    ReadExplained(4, b);
    ReadLength(4, b);
    var size, rest := ReadUInt(4, b).value.result, ReadUInt(4, b).value.left;
    var cut := Min(size - 4, |rest|);
    var limited, beyond := rest[..cut], rest[cut..];
    ReadExplained(2, limited[1..]);
    assert rest == limited + beyond;
    var tag, body := ReadUInt(2, limited[1..]).value.result, limited[1..][2..];
    assert body == limited[3..];
    var t := schema[limited[0]];
    DecodedExactly(t, body);
    var m := Decode(t, body).value;
    EncodedLength(m.result, t);
    assert limited == b[4..][..Min(size - 4, |b| - 4)];
    FrameBytes(b, size, limited, beyond, tag, body, Encode(m.result, t), m.left, Whole(t, body));
  }

  lemma FrameBytes(b: seq<Byte>, size: nat, limited: seq<Byte>, beyond: seq<Byte>, tag: nat, body: seq<Byte>,
                   e: seq<Byte>, left: seq<Byte>, whole: bool)
    requires Explained(b, limited + beyond, Le(size, 4), true) && 4 <= size < U32_SIZE
    requires |limited| == Min(size - 4, |b| - 4) && 3 <= |limited| && body == limited[3..]
    requires Explained(limited[1..], body, Le(tag, 2), true)
    requires Explained(body, left, e, whole)
    ensures 7 + |e| < U32_SIZE
    ensures Le(7 + |e|, 4) + ([limited[0]] + (Le(tag, 2) + e)) + (left + beyond) == b <==>
      size <= |b| && whole && left == []
  {
    Powers();
    hide Le, Power;
    var mine := Le(7 + |e|, 4) + ([limited[0]] + (Le(tag, 2) + e)) + (left + beyond);
    assert mine[..4] == Le(7 + |e|, 4) && b[..4] == Le(size, 4);
    LeRoundTrip(size, 4);
    LeRoundTrip(7 + |e|, 4);
    assert 7 + |e| == size ==> mine[7..] == e + (left + beyond);
    assert b[4..] == limited + beyond && limited == [limited[0]] + (Le(tag, 2) + body);
    assert b == Le(size, 4) + (limited + beyond);
    if size <= |b| && whole && left == [] {
      assert e + left == body && e == body;
    }
    if mine == b {
      assert mine[7..] == e + (left + beyond) && b[7..] == body + beyond;
      assert (e + (left + beyond))[..|body|] == e + left;
    }
  }
}
