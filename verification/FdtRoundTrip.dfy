/**
 Reading back what was written.
 */
module FdtRoundTrip {
  import opened Basics
  import opened Endian
  import opened Fdt

  /** `b` stands at index `i` of `buf`. */
  ghost predicate At(buf: seq<Byte>, i: nat, b: seq<Byte>) {
    i + |b| <= |buf| && buf[i..i + |b|] == b
  }

  lemma AtSplit(buf: seq<Byte>, i: nat, a: seq<Byte>, b: seq<Byte>)
    requires At(buf, i, a + b)
    ensures At(buf, i, a) && At(buf, i + |a|, b)
  {
    var c := buf[i..i + |a + b|];
    assert c[..|a|] == a && c[|a|..] == b;
    assert buf[i..i + |a|] == c[..|a|] && buf[i + |a|..i + |a| + |b|] == c[|a|..];
  }

  /** What the format can carry: sorted maps, readable names, lengths within 32 bits. */
  ghost predicate Writable(n: Node)
    decreases n
  {
    && SortedProps(n.properties) && SortedChildren(n.children)
    && (forall p :: p in n.properties ==> IsName(p.name) && |p.value| < U32_SIZE)
    && forall c :: c in n.children ==> IsName(c.name) && Writable(c.node)
  }

  lemma ReadWritten(buf: seq<Byte>, i: nat, n: nat)
    requires At(buf, i, Be32(n)) && n < U32_SIZE
    ensures ReadU32(buf, i) == Some(n)
  {
    Be32RoundTrip(n);
  }

  lemma NameAt(buf: seq<Byte>, i: nat, name: Name)
    requires At(buf, i, name + [0]) && IsName(name)
    ensures CStringAt(buf, i) == Some(name)
  {
    var z := FirstZero(buf, i);
    var c := buf[i..i + |name| + 1];
    assert forall k :: i <= k < i + |name| ==> buf[k] == c[k - i] == name[k - i];
    assert buf[i + |name|] == c[|name|] == 0;
    assert z == Some(i + |name|);
    assert buf[i..i + |name|] == name;
  }

  lemma AlignedSum(i: nat, n: nat)
    requires i % 4 == 0
    ensures AlignUp4(i + n) == i + AlignUp4(n)
  {}

  // One turn of the reader's loop, for each token the writer produces.

  lemma PropToken(buf: seq<Byte>, strings: seq<Byte>, i: nat, len: nat, off: nat, name: Name,
                  ps: seq<Prop>, cs: seq<Child>)
    requires ReadU32(buf, i) == Some(TOK_PROP) && ReadU32(buf, i + 4) == Some(len)
    requires ReadU32(buf, i + 8) == Some(off) && CStringAt(strings, off) == Some(name)
    requires i + 12 + len <= |buf|
    ensures ReadNode(buf, strings, i, ps, cs) ==
            ReadNode(buf, strings, AlignUp4(i + 12 + len),
                     InsertProp(ps, Prop(name, buf[i + 12..i + 12 + len])), cs)
  {
    hide IsUtf8, InsertChild, InsertProp, CStringAt, ReadU32, AlignUp4, FirstZero;
  }

  lemma BeginToken(buf: seq<Byte>, strings: seq<Byte>, i: nat, name: Name, n: Node, next: nat,
                   ps: seq<Prop>, cs: seq<Child>)
    requires ReadU32(buf, i) == Some(TOK_BEGIN_NODE) && CStringAt(buf, i + 4) == Some(name)
    requires ReadNode(buf, strings, AlignUp4(i + 4 + |name| + 1), [], []) == Parsed(n, next)
    ensures ReadNode(buf, strings, i, ps, cs) ==
            ReadNode(buf, strings, next, ps, InsertChild(cs, Child(name, n)))
  {
    hide IsUtf8, InsertChild, InsertProp, CStringAt, ReadU32, AlignUp4, FirstZero;
  }

  lemma EndToken(buf: seq<Byte>, strings: seq<Byte>, i: nat, ps: seq<Prop>, cs: seq<Child>)
    requires ReadU32(buf, i) == Some(TOK_END_NODE)
    ensures ReadNode(buf, strings, i, ps, cs) == Parsed(Node(ps, cs), i + 4)
  {
    hide IsUtf8, InsertChild, InsertProp, CStringAt, ReadU32, AlignUp4, FirstZero;
  }

  /** Where the parts of an encoded property stand. */
  lemma PropParts(buf: seq<Byte>, i: nat, p: Prop, off: nat)
    requires At(buf, i, EncodeProp(p, off)) && |p.value| < U32_SIZE && off < U32_SIZE
    ensures ReadU32(buf, i) == Some(TOK_PROP) && ReadU32(buf, i + 4) == Some(|p.value|)
    ensures ReadU32(buf, i + 8) == Some(off) && At(buf, i + 12, p.value)
    ensures |EncodeProp(p, off)| == 12 + AlignUp4(|p.value|)
  {
    hide Be32, FromBe32, ReadU32, At, AlignUp4;
    var t, l, o, v := Be32(TOK_PROP), Be32(|p.value|), Be32(off), Padded(p.value);
    Split4(buf, i, t, l, o, v);
    AtSplit(buf, i + 12, p.value, Zeros(AlignUp4(|p.value|) - |p.value|));
    ReadWritten(buf, i, TOK_PROP);
    ReadWritten(buf, i + 4, |p.value|);
    ReadWritten(buf, i + 8, off);
  }

  lemma Split4(buf: seq<Byte>, i: nat, t: seq<Byte>, l: seq<Byte>, o: seq<Byte>, v: seq<Byte>)
    requires At(buf, i, t + (l + (o + v))) && |t| == |l| == |o| == 4
    ensures At(buf, i, t) && At(buf, i + 4, l) && At(buf, i + 8, o) && At(buf, i + 12, v)
    ensures |t + (l + (o + v))| == 12 + |v|
  {
    AtSplit(buf, i, t, l + (o + v));
    AtSplit(buf, i + 4, l, o + v);
    AtSplit(buf, i + 8, o, v);
  }

  /** One property is read back and inserted. */
  lemma ReadProp(buf: seq<Byte>, strings: seq<Byte>, i: nat, p: Prop, off: nat, ps: seq<Prop>, cs: seq<Child>)
    requires i % 4 == 0 && At(buf, i, EncodeProp(p, off)) && At(strings, off, p.name + [0])
    requires IsName(p.name) && |p.value| < U32_SIZE && off < U32_SIZE
    ensures |EncodeProp(p, off)| % 4 == 0
    ensures ReadNode(buf, strings, i, ps, cs) ==
            ReadNode(buf, strings, i + |EncodeProp(p, off)|, InsertProp(ps, p), cs)
  {
    hide ReadNode, IsUtf8, EncodeProp, ReadU32, CStringAt, InsertProp, Be32;
    PropParts(buf, i, p, off);
    NameAt(strings, off, p.name);
    PropToken(buf, strings, i, |p.value|, off, p.name, ps, cs);
    AlignedSum(i + 12, |p.value|);
  }

  lemma PropAligned(p: Prop, off: nat)
    ensures |EncodeProp(p, off)| % 4 == 0
  {
    hide Be32, AlignUp4, Zeros;
  }

  lemma {:induction false} PropsAligned(ps: seq<Prop>, off: nat)
    ensures |EncodeProps(ps, off)| % 4 == 0
    decreases |ps|
  {
    hide EncodeProp;
    if ps != [] {
      PropAligned(ps[0], off);
      PropsAligned(ps[1..], off + |ps[0].name| + 1);
    }
  }

  /** Properties written one after the other are read back in order. */
  lemma {:induction false} ReadProps(buf: seq<Byte>, strings: seq<Byte>, i: nat, ps: seq<Prop>, off: nat,
                                     acc: seq<Prop>, cs: seq<Child>)
    requires i % 4 == 0 && At(buf, i, EncodeProps(ps, off)) && At(strings, off, PropNames(ps))
    requires SortedProps(acc + ps) && |strings| < U32_SIZE
    requires forall p :: p in ps ==> IsName(p.name) && |p.value| < U32_SIZE
    ensures ReadNode(buf, strings, i, acc, cs) ==
            ReadNode(buf, strings, i + |EncodeProps(ps, off)|, acc + ps, cs)
    decreases |ps|
  {
    hide ReadNode, IsUtf8, EncodeProp, InsertProp, AlignUp4, At, SortedProps, IsName;
    if ps == [] {
      assert acc + ps == acc;
    } else {
      var p, rest := ps[0], ps[1..];
      AtSplit(buf, i, EncodeProp(p, off), EncodeProps(rest, off + |p.name| + 1));
      AtSplit(strings, off, p.name + [0], PropNames(rest));
      ReadProp(buf, strings, i, p, off, acc, cs);
      AppendProp(acc, ps);
      ReadProps(buf, strings, i + |EncodeProp(p, off)|, rest, off + |p.name| + 1, acc + [p], cs);
    }
  }

  lemma AppendProp(acc: seq<Prop>, ps: seq<Prop>)
    requires SortedProps(acc + ps) && ps != []
    ensures InsertProp(acc, ps[0]) == acc + [ps[0]] && acc + [ps[0]] + ps[1..] == acc + ps
  {
    forall k | 0 <= k < |acc| ensures Less(acc[k].name, ps[0].name) {
      assert acc[k] == (acc + ps)[k] && ps[0] == (acc + ps)[|acc|];
    }
    InsertLastProp(acc, ps[0]);
  }

  lemma AppendChild(acc: seq<Child>, cs: seq<Child>)
    requires SortedChildren(acc + cs) && cs != []
    ensures InsertChild(acc, cs[0]) == acc + [cs[0]] && acc + [cs[0]] + cs[1..] == acc + cs
  {
    forall k | 0 <= k < |acc| ensures Less(acc[k].name, cs[0].name) {
      assert acc[k] == (acc + cs)[k] && cs[0] == (acc + cs)[|acc|];
    }
    InsertLastChild(acc, cs[0]);
  }

  lemma BodyParts(buf: seq<Byte>, strings: seq<Byte>, i: nat, n: Node, off: nat)
    requires At(buf, i, EncodeBody(n, off)) && At(strings, off, NodeNames(n))
    ensures var props := EncodeProps(n.properties, off);
      var off1 := off + |PropNames(n.properties)|;
      var kids := EncodeChildren(n.children, off1);
      && At(buf, i, props) && At(buf, i + |props|, kids)
      && At(buf, i + |props| + |kids|, Be32(TOK_END_NODE))
      && At(strings, off, PropNames(n.properties)) && At(strings, off1, ChildNames(n.children))
      && |EncodeBody(n, off)| == |props| + |kids| + 4
  {
    hide *;
    var props := EncodeProps(n.properties, off);
    var off1 := off + |PropNames(n.properties)|;
    var kids, end := EncodeChildren(n.children, off1), Be32(TOK_END_NODE);
    BodyIs(n, off);
    AtSplit(buf, i, props, kids + end);
    AtSplit(buf, i + |props|, kids, end);
    AtSplit(strings, off, PropNames(n.properties), ChildNames(n.children));
  }

  lemma BodyIs(n: Node, off: nat)
    ensures EncodeBody(n, off) == EncodeProps(n.properties, off) +
      (EncodeChildren(n.children, off + |PropNames(n.properties)|) + Be32(TOK_END_NODE))
    ensures NodeNames(n) == PropNames(n.properties) + ChildNames(n.children)
  {
    hide EncodeProps, EncodeChildren, PropNames, ChildNames, Be32;
  }

  lemma AlignedParts(a: nat, b: nat, c: nat)
    requires a % 4 == b % 4 == 0
    ensures (a + b) % 4 == 0 && (a + b + 4) % 4 == 0 && (4 + AlignUp4(c) + a) % 4 == 0
  {}

  lemma {:induction false} BodyAligned(n: Node, off: nat)
    ensures |EncodeBody(n, off)| % 4 == 0
    decreases n, 1
  {
    hide EncodeProps, EncodeChildren, Be32;
    PropsAligned(n.properties, off);
    ChildrenAligned(n.children, off + |PropNames(n.properties)|);
    AlignedParts(|EncodeProps(n.properties, off)|, |EncodeChildren(n.children, off + |PropNames(n.properties)|)|, 0);
  }

  lemma {:induction false} NodeAligned(name: Name, n: Node, off: nat)
    ensures |EncodeNode(name, n, off)| % 4 == 0
    decreases n, 2
  {
    hide EncodeBody, Be32, AlignUp4, Zeros;
    BodyAligned(n, off);
    AlignedParts(|EncodeBody(n, off)|, 0, |name + [0]|);
  }

  lemma {:induction false} ChildrenAligned(cs: seq<Child>, off: nat)
    ensures |EncodeChildren(cs, off)| % 4 == 0
    decreases cs, 0
  {
    hide EncodeNode;
    if cs != [] {
      NodeAligned(cs[0].name, cs[0].node, off);
      var off1 := off + |NodeNames(cs[0].node)|;
      ChildrenAligned(cs[1..], off1);
      AlignedParts(|EncodeNode(cs[0].name, cs[0].node, off)|, |EncodeChildren(cs[1..], off1)|, 0);
    }
  }

  /** A node's body is read back. */
  lemma {:induction false} ReadBody(buf: seq<Byte>, strings: seq<Byte>, i: nat, n: Node, off: nat)
    requires i % 4 == 0 && At(buf, i, EncodeBody(n, off)) && At(strings, off, NodeNames(n))
    requires Writable(n) && |strings| < U32_SIZE
    ensures ReadNode(buf, strings, i, [], []) == Parsed(n, i + |EncodeBody(n, off)|)
    decreases n, 1
  {
    hide ReadNode, IsUtf8, EncodeProps, EncodeChildren, EncodeBody, PropNames, ChildNames, NodeNames, Be32, ReadU32,
         At, Less;
    var ps, cs := n.properties, n.children;
    var off1 := off + |PropNames(ps)|;
    var j := i + |EncodeProps(ps, off)|;
    BodyParts(buf, strings, i, n, off);
    assert [] + ps == ps && [] + cs == cs;
    ReadProps(buf, strings, i, ps, off, [], []);
    PropsAligned(ps, off);
    ReadChildren(buf, strings, j, cs, off1, ps, []);
    ReadWritten(buf, j + |EncodeChildren(cs, off1)|, TOK_END_NODE);
    EndToken(buf, strings, j + |EncodeChildren(cs, off1)|, ps, cs);
  }

  lemma ChildParts(buf: seq<Byte>, i: nat, c: Child, off: nat)
    requires At(buf, i, EncodeNode(c.name, c.node, off))
    ensures At(buf, i, Be32(TOK_BEGIN_NODE)) && At(buf, i + 4, c.name + [0])
    ensures At(buf, i + 4 + AlignUp4(|c.name| + 1), EncodeBody(c.node, off))
    ensures |EncodeNode(c.name, c.node, off)| == 4 + AlignUp4(|c.name| + 1) + |EncodeBody(c.node, off)|
  {
    hide Be32, EncodeBody, AlignUp4, At;
    var t, name, body := Be32(TOK_BEGIN_NODE), Padded(c.name + [0]), EncodeBody(c.node, off);
    assert EncodeNode(c.name, c.node, off) == t + (name + body);
    AtSplit(buf, i, t, name + body);
    AtSplit(buf, i + 4, name, body);
    AtSplit(buf, i + 4, c.name + [0], Zeros(AlignUp4(|c.name| + 1) - (|c.name| + 1)));
  }

  /** One child is read back and inserted. */
  lemma {:induction false} ReadChild(buf: seq<Byte>, strings: seq<Byte>, i: nat, c: Child, off: nat,
                                     ps: seq<Prop>, cs: seq<Child>)
    requires i % 4 == 0 && At(buf, i, EncodeNode(c.name, c.node, off)) && At(strings, off, NodeNames(c.node))
    requires IsName(c.name) && Writable(c.node) && |strings| < U32_SIZE
    ensures ReadNode(buf, strings, i, ps, cs) ==
            ReadNode(buf, strings, i + |EncodeNode(c.name, c.node, off)|, ps, InsertChild(cs, c))
    decreases c.node, 2
  {
    hide ReadNode, IsUtf8, EncodeBody, EncodeNode, NodeNames, Be32, FromBe32, ReadU32, CStringAt, InsertChild, At,
         Writable, AlignUp4, IsName;
    ChildParts(buf, i, c, off);
    var body := i + 4 + AlignUp4(|c.name| + 1);
    ReadBody(buf, strings, body, c.node, off);
    ReadWritten(buf, i, TOK_BEGIN_NODE);
    NameAt(buf, i + 4, c.name);
    AlignedSum(i + 4, |c.name| + 1);
    BeginToken(buf, strings, i, c.name, c.node, body + |EncodeBody(c.node, off)|, ps, cs);
  }

  lemma {:induction false} ReadChildren(buf: seq<Byte>, strings: seq<Byte>, i: nat, cs: seq<Child>, off: nat,
                                        ps: seq<Prop>, acc: seq<Child>)
    requires i % 4 == 0 && At(buf, i, EncodeChildren(cs, off)) && At(strings, off, ChildNames(cs))
    requires SortedChildren(acc + cs) && |strings| < U32_SIZE
    requires forall c :: c in cs ==> IsName(c.name) && Writable(c.node)
    ensures ReadNode(buf, strings, i, ps, acc) ==
            ReadNode(buf, strings, i + |EncodeChildren(cs, off)|, ps, acc + cs)
    decreases cs, 0
  {
    hide ReadNode, IsUtf8, EncodeNode, NodeNames, InsertChild, AlignUp4, Writable, At, SortedChildren, IsName;
    if cs == [] {
      assert acc + cs == acc;
    } else {
      var c, rest := cs[0], cs[1..];
      var off1 := off + |NodeNames(c.node)|;
      AtSplit(buf, i, EncodeNode(c.name, c.node, off), EncodeChildren(rest, off1));
      AtSplit(strings, off, NodeNames(c.node), ChildNames(rest));
      ReadChild(buf, strings, i, c, off, ps, acc);
      NodeAligned(c.name, c.node, off);
      AppendChild(acc, cs);
      ReadChildren(buf, strings, i + |EncodeNode(c.name, c.node, off)|, rest, off1, ps, acc + [c]);
    }
  }

  // ----- The whole blob -----

  ghost predicate WritableReserve(es: seq<ReserveEntry>) {
    forall e :: e in es ==> e.address < U64_SIZE && e.size < U64_SIZE && !(e.address == 0 && e.size == 0)
  }

  /** The trees the format can carry. */
  ghost predicate WritableTree(dt: DeviceTree) {
    && Writable(dt.root) && WritableReserve(dt.rsvmap) && dt.bootCpu < U32_SIZE
    && |Blob(dt)| < U32_SIZE
  }

  lemma ReadWord64(buf: seq<Byte>, i: nat, n: nat)
    requires At(buf, i, Be64(n)) && n < U64_SIZE
    ensures FromBe64(buf[i..i + 8]) == n
  {
    Be64RoundTrip(n);
  }

  lemma {:induction false} ReadReserveBack(buf: seq<Byte>, i: nat, es: seq<ReserveEntry>)
    requires At(buf, i, EncodeReserve(es)) && WritableReserve(es)
    ensures ReadReserve(buf, i) == Some(es)
    decreases |es|
  {
    hide Be64, FromBe64;
    if es == [] {
      AtSplit(buf, i, Be64(0), Be64(0));
      ReadWord64(buf, i, 0);
      ReadWord64(buf, i + 8, 0);
    } else {
      var e, rest := es[0], EncodeReserve(es[1..]);
      AtSplit(buf, i, Be64(e.address), Be64(e.size) + rest);
      AtSplit(buf, i + 8, Be64(e.size), rest);
      ReadWord64(buf, i, e.address);
      ReadWord64(buf, i + 8, e.size);
      assert e in es;
      ReadReserveBack(buf, i + 16, es[1..]);
      assert [e] + es[1..] == es;
    }
  }

  lemma {:induction false} WordAt(buf: seq<Byte>, i: nat, w: seq<nat>, k: nat)
    requires At(buf, i, EncodeWords(w)) && k < |w| && w[k] < U32_SIZE
    ensures i + 4 * k + 4 <= |buf| && FromBe32(buf[i + 4 * k..i + 4 * k + 4]) == w[k]
    decreases |w|
  {
    hide Be32, FromBe32;
    AtSplit(buf, i, Be32(w[0]), EncodeWords(w[1..]));
    if k == 0 {
      ReadBack32(buf, i, w[0]);
    } else {
      WordAt(buf, i + 4, w[1..], k - 1);
    }
  }

  lemma ReadBack32(buf: seq<Byte>, i: nat, n: nat)
    requires At(buf, i, Be32(n)) && n < U32_SIZE
    ensures FromBe32(buf[i..i + 4]) == n
  {
    Be32RoundTrip(n);
  }

  lemma ReadRootBack(dt: DeviceTree)
    requires Writable(dt.root) && |StringBlock(dt)| < U32_SIZE
    ensures ReadRoot(StructBlock(dt), StringBlock(dt)) == Some(dt.root)
  {
    hide ReadNode, IsUtf8, Writable, NodeNames, Be32, ReadU32, CStringAt, EncodeNode, EncodeBody, FirstZero;
    var block, strings := StructBlock(dt), StringBlock(dt);
    var root := Child([], dt.root);
    var e, body := EncodeNode([], dt.root, 0), EncodeBody(dt.root, 0);
    assert At(block, 0, e + Be32(TOK_END));
    AtSplit(block, 0, e, Be32(TOK_END));
    ChildParts(block, 0, root, 0);
    assert At(strings, 0, NodeNames(dt.root));
    BodyAligned(dt.root, 0);
    ReadBody(block, strings, 8, dt.root, 0);
    ReadWritten(block, 0, TOK_BEGIN_NODE);
    EmptyName();
    NameAt(block, 4, []);
    ReadWritten(block, 8 + |body|, TOK_END);
  }

  lemma EmptyName()
    ensures IsName([]) && AlignUp4(1) == 4 && AlignUp4(5) == 8
  {}

  /** The header words of a written blob, and where its blocks stand. */
  lemma BlobParts(dt: DeviceTree, dtb: seq<Byte>)
    requires WritableTree(dt) && dtb == Blob(dt)
    ensures HEADER_SIZE <= |dtb| == OffStrings(dt) + |StringBlock(dt)|
    ensures forall k :: 0 <= k < 10 ==> Word(dtb, k) == HeaderWords(dt)[k]
    ensures At(dtb, HEADER_SIZE, EncodeReserve(dt.rsvmap))
    ensures At(dtb, OffStruct(dt), StructBlock(dt))
    ensures At(dtb, OffStrings(dt), StringBlock(dt))
  {
    hide Be32, FromBe32, EncodeReserve, StructBlock, StringBlock, Writable, EncodeWords;
    var w, rsv, st, names := HeaderWords(dt), EncodeReserve(dt.rsvmap), StructBlock(dt), StringBlock(dt);
    var h := EncodeWords(w);
    assert At(dtb, 0, h + (rsv + (st + names)));
    AtSplit(dtb, 0, h, rsv + (st + names));
    AtSplit(dtb, HEADER_SIZE, rsv, st + names);
    AtSplit(dtb, OffStruct(dt), st, names);
    forall k | 0 <= k < 10 ensures Word(dtb, k) == w[k] {
      WordAt(dtb, 0, w, k);
    }
  }

  /** Reading what was written gives the tree back. */
  lemma ReadInvertsWrite(dt: DeviceTree)
    requires WritableTree(dt)
    ensures ReadBlob(Blob(dt)) == Tree(dt)
  {
    hide Blob, EncodeReserve, StructBlock, StringBlock, ReadRoot, ReadReserve, Writable;
    var dtb := Blob(dt);
    BlobParts(dt, dtb);
    ReadRootBack(dt);
    var tail := dtb[HEADER_SIZE..];
    assert At(tail, 0, EncodeReserve(dt.rsvmap)) by {
      hide *;
      TailAt(dtb, HEADER_SIZE, EncodeReserve(dt.rsvmap));
    }
    ReadReserveBack(tail, 0, dt.rsvmap);
  }

  lemma TailAt(buf: seq<Byte>, i: nat, b: seq<Byte>)
    requires At(buf, i, b)
    ensures At(buf[i..], 0, b)
  {
    assert buf[i..][0..|b|] == buf[i..i + |b|];
  }
}
