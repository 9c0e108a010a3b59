/**
 The writer and the reader as they run: buffers that are appended to, and a cursor that
 advances through the blob.
 */
module FdtCode {
  import opened Basics
  import opened Endian
  import opened Fdt
  import opened FdtGrammar
  import opened FdtRoundTrip

  class Strings {
    var buf: seq<Byte>

    constructor ()
      ensures buf == []
    {
      buf := [];
    }

    method Insert(s: Name) returns (off: nat)
      modifies this
      ensures off == |old(buf)| && buf == old(buf) + (s + [0])
    {
      off := |buf|;
      Associate(buf, s, [0]);
      buf := buf + s;
      buf := buf + [0];
    }
  }

  class Writer {
    var buf: seq<Byte>

    constructor ()
      ensures buf == []
    {
      buf := [];
    }

    method Write(bytes: seq<Byte>)
      modifies this
      ensures buf == old(buf) + bytes
    {
      buf := buf + bytes;
    }

    method Align4()
      modifies this
      ensures buf == old(buf) + Zeros(AlignUp4(|old(buf)|) - |old(buf)|)
      ensures |old(buf)| % 4 == 0 ==> buf == old(buf)
    {
      buf := buf + Zeros(AlignUp4(|buf|) - |buf|);
    }

    /** Bytes and the padding after them, from an aligned position. */
    method WritePadded(bytes: seq<Byte>)
      requires |buf| % 4 == 0
      modifies this
      ensures buf == old(buf) + Padded(bytes) && |buf| % 4 == 0
    {
      Write(bytes);
      Align4();
      Associate(old(buf), bytes, Zeros(AlignUp4(|bytes|) - |bytes|));
    }

    method WriteProp(strings: Strings, p: Prop)
      requires |buf| % 4 == 0
      modifies this, strings
      ensures buf == old(buf) + EncodeProp(p, |old(strings.buf)|) && |buf| % 4 == 0
      ensures strings.buf == old(strings.buf) + (p.name + [0])
    {
      hide Be32, Padded;
      ghost var start := buf;
      Write(Be32(TOK_PROP));
      Write(Be32(|p.value|));
      var off := strings.Insert(p.name);
      Write(Be32(off));
      WritePadded(p.value);
      Chain(start, Be32(TOK_PROP), Be32(|p.value|), Be32(off), Padded(p.value));
    }

    method WriteMemRsvmap(es: seq<ReserveEntry>)
      modifies this
      ensures buf == old(buf) + EncodeReserve(es)
    {
      hide Be64;
      assert es[0..] == es;
      for k := 0 to |es|
        invariant buf + EncodeReserve(es[k..]) == old(buf) + EncodeReserve(es)
      {
        ghost var start, e, rest := buf, es[k], es[k..][1..];
        assert rest == es[k + 1..];
        Write(Be64(es[k].address));
        Write(Be64(es[k].size));
        Chain3(start, Be64(e.address), Be64(e.size), EncodeReserve(rest));
      }
      assert es[|es|..] == [];
      ghost var start := buf;
      Write(Be64(0));
      Write(Be64(0));
      Associate(start, Be64(0), Be64(0));
    }

    method WriteWords(w: seq<nat>)
      modifies this
      ensures buf == old(buf) + EncodeWords(w)
    {
      hide Be32;
      assert w[0..] == w;
      for k := 0 to |w|
        invariant buf + EncodeWords(w[k..]) == old(buf) + EncodeWords(w)
      {
        assert w[k..][1..] == w[k + 1..];
        Associate(buf, Be32(w[k]), EncodeWords(w[k + 1..]));
        Write(Be32(w[k]));
      }
      assert w[|w|..] == [];
    }

    /** The node's properties, then its children, between begin and end tokens. */
    method WriteNode(strings: Strings, name: Name, node: Node)
      requires |buf| % 4 == 0
      modifies this, strings
      ensures buf == old(buf) + EncodeNode(name, node, |old(strings.buf)|) && |buf| % 4 == 0
      ensures strings.buf == old(strings.buf) + NodeNames(node)
      decreases node, 1
    {
      hide Be32, Padded, AlignUp4, EncodeProps, EncodeChildren, PropNames, ChildNames;
      ghost var start, names, off := buf, strings.buf, |strings.buf|;
      Write(Be32(TOK_BEGIN_NODE));
      WritePadded(name + [0]);
      WriteProps(strings, node.properties);
      WriteChildren(strings, node.children);
      Write(Be32(TOK_END_NODE));
      var ps := EncodeProps(node.properties, off);
      var cs := EncodeChildren(node.children, off + |PropNames(node.properties)|);
      Chain5(start, Be32(TOK_BEGIN_NODE), Padded(name + [0]), ps, cs, Be32(TOK_END_NODE));
      Associate(names, PropNames(node.properties), ChildNames(node.children));
    }

    method WriteProps(strings: Strings, ps: seq<Prop>)
      requires |buf| % 4 == 0
      modifies this, strings
      ensures buf == old(buf) + EncodeProps(ps, |old(strings.buf)|) && |buf| % 4 == 0
      ensures strings.buf == old(strings.buf) + PropNames(ps)
    {
      hide EncodeProp;
      assert ps[0..] == ps;
      for k := 0 to |ps|
        invariant |buf| % 4 == 0
        invariant buf + EncodeProps(ps[k..], |strings.buf|) == old(buf) + EncodeProps(ps, |old(strings.buf)|)
        invariant strings.buf + PropNames(ps[k..]) == old(strings.buf) + PropNames(ps)
      {
        ghost var p, rest := ps[k], ps[k..][1..];
        assert rest == ps[k + 1..];
        Associate(buf, EncodeProp(p, |strings.buf|), EncodeProps(rest, |strings.buf| + |p.name| + 1));
        Associate(strings.buf, p.name + [0], PropNames(rest));
        WriteProp(strings, ps[k]);
      }
      assert ps[|ps|..] == [];
    }

    method WriteChildren(strings: Strings, cs: seq<Child>)
      requires |buf| % 4 == 0
      modifies this, strings
      ensures buf == old(buf) + EncodeChildren(cs, |old(strings.buf)|) && |buf| % 4 == 0
      ensures strings.buf == old(strings.buf) + ChildNames(cs)
      decreases cs, 0
    {
      hide EncodeNode, NodeNames;
      assert cs[0..] == cs;
      for k := 0 to |cs|
        invariant |buf| % 4 == 0
        invariant buf + EncodeChildren(cs[k..], |strings.buf|) == old(buf) + EncodeChildren(cs, |old(strings.buf)|)
        invariant strings.buf + ChildNames(cs[k..]) == old(strings.buf) + ChildNames(cs)
      {
        ghost var c, rest := cs[k], cs[k..][1..];
        assert rest == cs[k + 1..];
        Associate(buf, EncodeNode(c.name, c.node, |strings.buf|),
                  EncodeChildren(rest, |strings.buf| + |NodeNames(c.node)|));
        Associate(strings.buf, NodeNames(c.node), ChildNames(rest));
        WriteNode(strings, cs[k].name, cs[k].node);
      }
      assert cs[|cs|..] == [];
    }
  }

  lemma Chain3<T>(s: seq<T>, a: seq<T>, b: seq<T>, c: seq<T>)
    ensures s + (a + (b + c)) == s + a + b + c
  {}

  lemma Chain<T>(s: seq<T>, a: seq<T>, b: seq<T>, c: seq<T>, d: seq<T>)
    ensures s + a + b + c + d == s + (a + (b + (c + d)))
  {}

  lemma Chain5<T>(s: seq<T>, a: seq<T>, b: seq<T>, c: seq<T>, d: seq<T>, e: seq<T>)
    ensures s + a + b + c + d + e == s + (a + (b + (c + (d + e))))
  {}

  ghost function Behind<T>(v: seq<T>, r: Option<seq<T>>): Option<seq<T>> {
    if r.None? then None else Some(v + r.value)
  }

  lemma BehindOne<T>(v: seq<T>, e: T, r: Option<seq<T>>)
    ensures Behind(v, Behind([e], r)) == Behind(v + [e], r)
  {
    if r.Some? {
      assert v + ([e] + r.value) == v + [e] + r.value;
    }
  }

  lemma BehindNothing<T>(v: seq<T>, r: Option<seq<T>>)
    ensures Behind([], r) == r && Behind(v, Some([])) == Some(v)
  {
    if r.Some? {
      assert [] + r.value == r.value;
    }
    assert v + [] == v;
  }

  class Cursor {
    const buf: seq<Byte>
    var i: nat

    constructor (buf: seq<Byte>)
      ensures this.buf == buf && i == 0
    {
      this.buf := buf;
      i := 0;
    }

    method ReadBeU32() returns (r: Option<nat>)
      modifies this
      ensures r == ReadU32(buf, old(i))
      ensures i == if r.Some? then old(i) + 4 else old(i)
    {
      r := ReadU32(buf, i);
      if r.Some? { i := i + 4; }
    }

    method ReadProperty(strings: seq<Byte>) returns (r: Option<Prop>)
      modifies this
      ensures match PropAt(buf, strings, old(i))
        case None => r.None?
        case Some((p, next)) => r == Some(p) && i == next
    {
      hide IsUtf8, FirstZero, CStringAt, ReadU32, AlignUp4;
      var len := ReadBeU32();
      if len.None? { return None; }
      var off := ReadBeU32();
      if off.None? { return None; }
      var name := CStringAt(strings, off.value);
      if name.None? || |buf| < i + len.value { return None; }
      r := Some(Prop(name.value, buf[i..i + len.value]));
      i := AlignUp4(i + len.value);
    }

    method ReadUnitName() returns (r: Option<Name>)
      modifies this
      ensures r == CStringAt(buf, old(i))
      ensures r.Some? ==> i == AlignUp4(old(i) + |r.value| + 1)
    {
      r := CStringAt(buf, i);
      if r.Some? { i := AlignUp4(i + |r.value| + 1); }
    }

    /** read_mem_rsvmap: entries up to the one that is all zeros. */
    method ReadMemRsvmap() returns (r: Option<seq<ReserveEntry>>)
      modifies this
      ensures r == ReadReserve(buf, old(i))
      ensures forall es :: r == Some(es) <==> SpellsReserve(buf, old(i), es)
    {
      hide FromBe64, SpellsReserve;
      forall es ensures ReadReserve(buf, i) == Some(es) <==> SpellsReserve(buf, i, es) {
        ReserveIsSpelled(buf, i, es);
      }
      var v := [];
      BehindNothing(v, ReadReserve(buf, i));
      while true
        invariant ReadReserve(buf, old(i)) == Behind(v, ReadReserve(buf, i))
        decreases Remaining(buf, i)
      {
        if |buf| < i + 16 { return None; }
        var e := ReserveEntry(FromBe64(buf[i..i + 8]), FromBe64(buf[i + 8..i + 16]));
        if e.address == 0 && e.size == 0 {
          BehindNothing(v, None);
          return Some(v);
        }
        BehindOne(v, e, ReadReserve(buf, i + 16));
        i := i + 16;
        v := v + [e];
      }
    }

    /**
     The loop of read_node, which calls itself for every child: it goes through exactly if the bytes
     spell a node, and returns that node.
     */
    method ReadNodeBody(strings: seq<Byte>) returns (r: Option<Node>)
      modifies this
      ensures match ReadNode(buf, strings, old(i), [], [])
        case Malformed => r.None?
        case Parsed(node, next) => r == Some(node) && i == next
      ensures r.Some? ==> SpellsNode(buf, strings, old(i), r.value, i)
      ensures r.None? ==> forall n, next :: !SpellsNode(buf, strings, old(i), n, next)
      decreases Remaining(buf, i)
    {
      hide IsUtf8, InsertProp, InsertChild, FirstZero, PropAt, CStringAt, ReadU32, AlignUp4, SpellsNode;
      forall n, next
        ensures ReadNode(buf, strings, i, [], []) == Parsed(n, next) <==> SpellsNode(buf, strings, i, n, next)
      {
        ReadsWhatIsSpelled(buf, strings, i, n, next);
      }
      var properties, children: seq<Child> := [], [];
      while true
        invariant ReadNode(buf, strings, i, properties, children) == ReadNode(buf, strings, old(i), [], [])
        invariant old(i) <= i
        decreases Remaining(buf, i)
      {
        var tok := ReadBeU32();
        if tok.None? { return None; }
        if tok.value == TOK_NOP {
        } else if tok.value == TOK_PROP {
          var p := ReadProperty(strings);
          if p.None? { return None; }
          properties := InsertProp(properties, p.value);
        } else if tok.value == TOK_BEGIN_NODE {
          var name := ReadUnitName();
          if name.None? { return None; }
          var child := ReadNodeBody(strings);
          if child.None? { return None; }
          children := InsertChild(children, Child(name.value, child.value));
        } else if tok.value == TOK_END_NODE {
          return Some(Node(properties, children));
        } else {
          return None;
        }
      }
    }
  }

  lemma {:induction false} ReserveAligned(es: seq<ReserveEntry>)
    ensures |EncodeReserve(es)| % 4 == 0
  {
    if es != [] { ReserveAligned(es[1..]); }
  }

  /** The three blocks behind a gap for the header, each aligned. */
  method LayOut(rsvmap: seq<Byte>, root: seq<Byte>, strings: seq<Byte>)
    returns (image: seq<Byte>, offRsvmap: nat, offStruct: nat, offStrings: nat)
    requires |rsvmap| % 4 == 0 && |root| % 4 == 0
    ensures |image| == HEADER_SIZE + |rsvmap| + |root| + |strings|
    ensures image[HEADER_SIZE..] == rsvmap + (root + strings)
    ensures offRsvmap == HEADER_SIZE && offStruct == HEADER_SIZE + |rsvmap| && offStrings == offStruct + |root|
  {
    hide Zeros, AlignUp4;
    var w := new Writer();
    var gap := Zeros(HEADER_SIZE);
    w.Write(gap);
    offRsvmap := |w.buf|;
    w.Write(rsvmap);
    w.Align4();
    offStruct := |w.buf|;
    w.Write(root);
    w.Align4();
    offStrings := |w.buf|;
    w.Write(strings);
    image := w.buf;
    BehindGap(gap, rsvmap, root, strings);
  }

  lemma BehindGap<T>(gap: seq<T>, a: seq<T>, b: seq<T>, c: seq<T>)
    ensures ([] + gap + a + b + c)[|gap|..] == a + (b + c)
  {}

  /** DeviceTree::write: the blocks are laid out behind a gap that the header then fills. */
  method WriteDeviceTree(dt: DeviceTree) returns (blob: seq<Byte>)
    ensures blob == Blob(dt)
    ensures WritableTree(dt) ==> SpellsTree(blob, dt)
  {
    hide EncodeReserve, EncodeNode, NodeNames, EncodeWords, Be32, Padded, WritableTree, SpellsTree;
    if WritableTree(dt) { WritesWhatIsSpelled(dt); }
    var rsv := new Writer();
    rsv.WriteMemRsvmap(dt.rsvmap);
    ReserveAligned(dt.rsvmap);
    var strings := new Strings();
    var root := new Writer();
    root.WriteNode(strings, [], dt.root);
    root.Write(Be32(TOK_END));
    assert rsv.buf == EncodeReserve(dt.rsvmap) && root.buf == StructBlock(dt) && strings.buf == StringBlock(dt);
    var image, offRsvmap, offStruct, offStrings := LayOut(rsv.buf, root.buf, strings.buf);
    var header := new Writer();
    header.WriteWords([MAGIC, |image|, offStruct, offStrings, offRsvmap, VERSION, LAST_COMP_VERSION,
                       dt.bootCpu, |strings.buf|, |root.buf|]);
    blob := header.buf + image[HEADER_SIZE..];
  }

  /** DeviceTree::read */
  method ReadDeviceTree(dtb: seq<Byte>) returns (r: ReadResult)
    ensures r == ReadBlob(dtb)
    ensures forall dt :: r == Tree(dt) <==> SpellsTree(dtb, dt)
  {
    hide ReadReserve, FromBe32, ReadRoot, SpellsTree;
    forall dt ensures ReadBlob(dtb) == Tree(dt) <==> SpellsTree(dtb, dt) {
      ReadsTreeSpelled(dtb, dt);
    }
    if |dtb| < HEADER_SIZE { return Refused; }
    if Word(dtb, 0) != MAGIC || Word(dtb, 5) != VERSION || Word(dtb, 6) != LAST_COMP_VERSION { return Refused; }
    if |dtb| < Word(dtb, 4) { return OutOfRange; }
    var reservations := new Cursor(dtb[Word(dtb, 4)..]);
    var rsvmap := reservations.ReadMemRsvmap();
    if rsvmap.None? { return Refused; }
    var strings0, strings1 := Word(dtb, 3), Word(dtb, 3) + Word(dtb, 8);
    var struct0, struct1 := Word(dtb, 2), Word(dtb, 2) + Word(dtb, 9);
    if |dtb| < strings1 || |dtb| < struct1 { return OutOfRange; }
    var root := ReadStructure(dtb[struct0..struct1], dtb[strings0..strings1]);
    r := if root.None? then Refused else Tree(DeviceTree(rsvmap.value, root.value, Word(dtb, 7)));
  }

  method ReadStructure(block: seq<Byte>, strings: seq<Byte>) returns (r: Option<Node>)
    ensures r == ReadRoot(block, strings)
  {
    hide ReadNode, CStringAt, ReadU32;
    var cursor := new Cursor(block);
    var tok := cursor.ReadBeU32();
    if tok != Some(TOK_BEGIN_NODE) { return None; }
    var name := cursor.ReadUnitName();
    if name != Some([]) { return None; }
    var root := cursor.ReadNodeBody(strings);
    if root.None? { return None; }
    tok := cursor.ReadBeU32();
    r := if tok != Some(TOK_END) then None else root;
  }
}
