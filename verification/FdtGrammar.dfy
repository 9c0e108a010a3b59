/**
 Which bytes spell which tree, said without a reader: the layout of the items of a node, and what
 a list of items means (sections 5.2 to 5.5 of the Devicetree Specification).

 Between tokens any number of NOPs may stand, properties and children may come in any order, and
 of several entries with one name the last one counts.
 */
module FdtGrammar {
  import opened Basics
  import opened Endian
  import opened Fdt
  import opened FdtRoundTrip
  import opened FdtRead

  // ----- Words and text -----

  /** The big-endian word at `i`. */
  function WordAt(buf: seq<Byte>, i: nat): nat
    requires i + 4 <= |buf|
  {
    var a: int, b: int, c: int, d: int := buf[i], buf[i + 1], buf[i + 2], buf[i + 3];
    0x1000000 * a + 0x10000 * b + 0x100 * c + d
  }

  ghost predicate Says(buf: seq<Byte>, i: nat, w: nat) {
    i + 4 <= |buf| && WordAt(buf, i) == w
  }

  /** Text with its terminator. */
  ghost predicate TextAt(buf: seq<Byte>, off: nat, name: Name) {
    && off + |name| < |buf| && buf[off..off + |name|] == name && buf[off + |name|] == 0
    && IsUtf8(name) && forall k :: 0 <= k < |name| ==> name[k] != 0
  }

  // ----- Layout -----

  datatype Item = Nop | Property(name: Name, value: seq<Byte>) | Subnode(name: Name, items: seq<Item>)

  /** Where an item that starts at `i` ends: values and names are padded to the next multiple of four. */
  function EndOf(i: nat, item: Item): (j: nat)
    decreases item, 0
  {
    match item
    case Nop => i + 4
    case Property(_, value) => AlignUp4(i + 12 + |value|)
    case Subnode(name, items) => EndOfAll(AlignUp4(i + 5 + |name|), items) + 4
  }

  function EndOfAll(i: nat, items: seq<Item>): (j: nat)
    decreases items, 1
  {
    if items == [] then i else EndOfAll(EndOf(i, items[0]), items[1..])
  }

  /** An item at `i`: token 4, token 3 with length, name and value, or token 1 with name, items and token 2. */
  ghost predicate Spells(buf: seq<Byte>, strings: seq<Byte>, i: nat, item: Item)
    decreases item, 0
  {
    match item
    case Nop => Says(buf, i, 4)
    case Property(name, value) =>
      && Says(buf, i, 3) && Says(buf, i + 4, |value|)
      && i + 12 + |value| <= |buf| && TextAt(strings, WordAt(buf, i + 8), name)
      && buf[i + 12..i + 12 + |value|] == value
    case Subnode(name, items) =>
      && Says(buf, i, 1) && TextAt(buf, i + 4, name)
      && SpellsAll(buf, strings, AlignUp4(i + 5 + |name|), items)
      && Says(buf, EndOfAll(AlignUp4(i + 5 + |name|), items), 2)
  }

  ghost predicate SpellsAll(buf: seq<Byte>, strings: seq<Byte>, i: nat, items: seq<Item>)
    decreases items, 1
  {
    items == [] || (Spells(buf, strings, i, items[0]) && SpellsAll(buf, strings, EndOf(i, items[0]), items[1..]))
  }

  // ----- Meaning -----

  predicate Names(item: Item, name: Name, child: bool) {
    if child then item.Subnode? && item.name == name else item.Property? && item.name == name
  }

  /** The last property or child of a name. */
  function LastAt(items: seq<Item>, name: Name, child: bool): (k: Option<nat>)
    ensures k.Some? ==> k.value < |items| && Names(items[k.value], name, child)
    ensures forall j :: (if k.Some? then k.value + 1 else 0) <= j < |items| ==> !Names(items[j], name, child)
  {
    if items == [] then None
    else if Names(items[|items| - 1], name, child) then Some(|items| - 1)
    else LastAt(items[..|items| - 1], name, child)
  }

  /** The node that items stand for: for every name the last entry of it, in the order of names. */
  ghost predicate Means(items: seq<Item>, n: Node)
    decreases items
  {
    && SortedProps(n.properties) && SortedChildren(n.children)
    && (forall p :: p in n.properties <==> MeansProp(items, p))
    && forall c: Child :: c in n.children <==>
         var k := LastAt(items, c.name, true); k.Some? && Means(items[k.value].items, c.node)
  }

  ghost predicate MeansProp(items: seq<Item>, p: Prop) {
    var k := LastAt(items, p.name, false); k.Some? && items[k.value].value == p.value
  }

  /** The bytes from `i` up to `next` spell a node: items, then token 2. */
  ghost predicate SpellsNode(buf: seq<Byte>, strings: seq<Byte>, i: nat, n: Node, next: nat) {
    exists items ::
      && SpellsAll(buf, strings, i, items) && Means(items, n)
      && Says(buf, EndOfAll(i, items), 2) && next == EndOfAll(i, items) + 4
  }

  // ----- The reader's maps -----

  function PropsOf(items: seq<Item>): seq<Prop> {
    if items == [] then [] else
    var ps, last := PropsOf(items[..|items| - 1]), items[|items| - 1];
    if last.Property? then InsertProp(ps, Prop(last.name, last.value)) else ps
  }

  function ChildrenOf(items: seq<Item>): seq<Child>
    decreases items, 0
  {
    if items == [] then [] else
    var cs, last := ChildrenOf(items[..|items| - 1]), items[|items| - 1];
    if last.Subnode? then InsertChild(cs, Child(last.name, Meaning(last.items))) else cs
  }

  function Meaning(items: seq<Item>): Node
    decreases items, 1
  {
    Node(PropsOf(items), ChildrenOf(items))
  }

  lemma PropsSnoc(items: seq<Item>, item: Item)
    ensures PropsOf(items + [item]) ==
      if item.Property? then InsertProp(PropsOf(items), Prop(item.name, item.value)) else PropsOf(items)
    ensures ChildrenOf(items + [item]) ==
      if item.Subnode? then InsertChild(ChildrenOf(items), Child(item.name, Meaning(item.items))) else ChildrenOf(items)
  {
    assert (items + [item])[..|items|] == items;
  }

  // ----- Words and text as the reader finds them -----

  lemma ReadIsWord(buf: seq<Byte>, i: nat, w: nat)
    ensures ReadU32(buf, i) == Some(w) <==> Says(buf, i, w)
  {}

  lemma {:induction false} FirstZeroIs(buf: seq<Byte>, i: nat, z: nat)
    requires i <= z < |buf| && buf[z] == 0 && forall k :: i <= k < z ==> buf[k] != 0
    ensures FirstZero(buf, i) == Some(z)
    decreases z - i
  {
    if i < z { FirstZeroIs(buf, i + 1, z); }
  }

  lemma ReadIsText(buf: seq<Byte>, off: nat, name: Name)
    ensures CStringAt(buf, off) == Some(name) <==> TextAt(buf, off, name)
  {
    hide IsUtf8;
    if TextAt(buf, off, name) {
      assert forall k :: off <= k < off + |name| ==> buf[k] == buf[off..off + |name|][k - off];
      FirstZeroIs(buf, off, off + |name|);
    }
    if CStringAt(buf, off) == Some(name) {
      var z := FirstZero(buf, off).value;
      assert forall k :: 0 <= k < |name| ==> name[k] == buf[off + k];
    }
  }

  /** A property as the reader finds it. */
  lemma ReadIsProperty(buf: seq<Byte>, strings: seq<Byte>, i: nat, name: Name, value: seq<Byte>)
    requires Says(buf, i, 3)
    ensures Spells(buf, strings, i, Property(name, value)) <==>
      PropAt(buf, strings, i + 4) == Some((Prop(name, value), EndOf(i, Property(name, value))))
  {
    hide AlignUp4, CStringAt, TextAt, ReadU32;
    if i + 12 <= |buf| {
      ReadIsWord(buf, i + 4, WordAt(buf, i + 4));
      ReadIsWord(buf, i + 8, WordAt(buf, i + 8));
      ReadIsText(strings, WordAt(buf, i + 8), name);
    }
  }

  // ----- What is spelled is read -----

  lemma ReadNop(buf: seq<Byte>, strings: seq<Byte>, i: nat, ps: seq<Prop>, cs: seq<Child>)
    requires Says(buf, i, 4)
    ensures ReadNode(buf, strings, i, ps, cs) == ReadNode(buf, strings, i + 4, ps, cs)
  {
    ReadIsWord(buf, i, 4);
  }

  lemma ReadProperty(buf: seq<Byte>, strings: seq<Byte>, i: nat, ps: seq<Prop>, cs: seq<Child>)
    requires Says(buf, i, 3)
    ensures var p := PropAt(buf, strings, i + 4);
      ReadNode(buf, strings, i, ps, cs) ==
      if p.None? then Malformed else ReadNode(buf, strings, p.value.1, InsertProp(ps, p.value.0), cs)
  {
    ReadIsWord(buf, i, 3);
    hide PropAt, ReadU32;
  }

  lemma ReadSubnode(buf: seq<Byte>, strings: seq<Byte>, i: nat, ps: seq<Prop>, cs: seq<Child>)
    requires Says(buf, i, 1)
    ensures var name := CStringAt(buf, i + 4);
      ReadNode(buf, strings, i, ps, cs) ==
      if name.None? then Malformed else
      var child := ReadNode(buf, strings, AlignUp4(i + 5 + |name.value|), [], []);
      if child.Malformed? then Malformed
      else ReadNode(buf, strings, child.next, ps, InsertChild(cs, Child(name.value, child.node)))
  {
    ReadIsWord(buf, i, 1);
    hide PropAt, ReadU32, CStringAt, AlignUp4;
    var name := CStringAt(buf, i + 4);
    assert name.Some? ==> i + 4 + |name.value| + 1 == i + 5 + |name.value|;
  }

  lemma ReadEnd(buf: seq<Byte>, strings: seq<Byte>, i: nat, ps: seq<Prop>, cs: seq<Child>)
    requires Says(buf, i, 2)
    ensures ReadNode(buf, strings, i, ps, cs) == Parsed(Node(ps, cs), i + 4)
  {
    ReadIsWord(buf, i, 2);
  }

  /** The reader with the maps of some items before goes through the items spelled behind them. */
  lemma {:induction false} ReadSpelled(buf: seq<Byte>, strings: seq<Byte>, i: nat, done: seq<Item>, items: seq<Item>)
    requires SpellsAll(buf, strings, i, items) && Says(buf, EndOfAll(i, items), 2)
    ensures ReadNode(buf, strings, i, PropsOf(done), ChildrenOf(done)) ==
      Parsed(Meaning(done + items), EndOfAll(i, items) + 4)
    decreases items
  {
    hide ReadNode, PropsOf, ChildrenOf, TextAt, Says, AlignUp4, PropAt, CStringAt, InsertProp, InsertChild;
    var ps, cs := PropsOf(done), ChildrenOf(done);
    if items == [] {
      ReadEnd(buf, strings, i, ps, cs);
      assert done + items == done;
    } else {
      var item, rest := items[0], items[1..];
      PropsSnoc(done, item);
      ReadSpelled(buf, strings, EndOf(i, item), done + [item], rest);
      assert done + [item] + rest == done + items;
      match item
      case Nop => ReadNop(buf, strings, i, ps, cs);
      case Property(name, value) =>
        ReadProperty(buf, strings, i, ps, cs);
        ReadIsProperty(buf, strings, i, name, value);
      case Subnode(name, sub) =>
        ReadSubnode(buf, strings, i, ps, cs);
        ReadIsText(buf, i + 4, name);
        EmptyMaps();
        ReadSpelled(buf, strings, AlignUp4(i + 5 + |name|), [], sub);
        assert [] + sub == sub;
    }
  }

  lemma EmptyMaps()
    ensures PropsOf([]) == [] && ChildrenOf([]) == []
  {}

  // ----- What is read is spelled -----

  lemma OneMoreItem(buf: seq<Byte>, strings: seq<Byte>, i: nat, item: Item, rest: seq<Item>)
    requires Spells(buf, strings, i, item) && SpellsAll(buf, strings, EndOf(i, item), rest)
    ensures SpellsAll(buf, strings, i, [item] + rest)
    ensures EndOfAll(i, [item] + rest) == EndOfAll(EndOf(i, item), rest)
  {
    assert ([item] + rest)[1..] == rest;
  }

  lemma TokenRead(buf: seq<Byte>, strings: seq<Byte>, i: nat, ps: seq<Prop>, cs: seq<Child>) returns (w: nat)
    requires ReadNode(buf, strings, i, ps, cs).Parsed?
    ensures Says(buf, i, w) && 1 <= w <= 4 && i + 4 <= |buf|
  {
    w := ReadU32(buf, i).value;
    ReadIsWord(buf, i, w);
  }

  lemma NopRead(buf: seq<Byte>, strings: seq<Byte>, i: nat)
    requires Says(buf, i, 4)
    ensures Spells(buf, strings, i, Nop) && EndOf(i, Nop) == i + 4
  {}

  lemma PropertyRead(buf: seq<Byte>, strings: seq<Byte>, i: nat) returns (item: Item)
    requires Says(buf, i, 3) && PropAt(buf, strings, i + 4).Some?
    ensures Spells(buf, strings, i, item) && item.Property? && i < EndOf(i, item)
    ensures PropAt(buf, strings, i + 4) == Some((Prop(item.name, item.value), EndOf(i, item)))
  {
    hide CStringAt, ReadU32, AlignUp4;
    var p := PropAt(buf, strings, i + 4).value;
    item := Property(p.0.name, p.0.value);
    ReadIsProperty(buf, strings, i, item.name, item.value);
  }

  lemma SubnodeRead(buf: seq<Byte>, strings: seq<Byte>, i: nat, name: Name, sub: seq<Item>)
    requires Says(buf, i, 1) && CStringAt(buf, i + 4) == Some(name)
    requires SpellsAll(buf, strings, AlignUp4(i + 5 + |name|), sub)
    requires Says(buf, EndOfAll(AlignUp4(i + 5 + |name|), sub), 2)
    ensures Spells(buf, strings, i, Subnode(name, sub))
    ensures ReadNode(buf, strings, AlignUp4(i + 5 + |name|), [], []) == Parsed(Meaning(sub),
                                                                               EndOf(i, Subnode(name, sub)))
  {
    hide ReadNode, CStringAt, TextAt, Says, AlignUp4, Meaning;
    ReadIsText(buf, i + 4, name);
    EmptyMaps();
    ReadSpelled(buf, strings, AlignUp4(i + 5 + |name|), [], sub);
    assert [] + sub == sub;
  }

  /** Whatever the reader accepts is spelled by some items. */
  lemma {:induction false} SpelledByRead(buf: seq<Byte>, strings: seq<Byte>, i: nat, done: seq<Item>)
    returns (items: seq<Item>)
    requires ReadNode(buf, strings, i, PropsOf(done), ChildrenOf(done)).Parsed?
    ensures SpellsAll(buf, strings, i, items) && Says(buf, EndOfAll(i, items), 2)
    decreases Remaining(buf, i)
  {
    hide ReadNode, PropsOf, ChildrenOf, Spells, SpellsAll, EndOf, EndOfAll, Says, AlignUp4, PropAt, CStringAt;
    var ps, cs := PropsOf(done), ChildrenOf(done);
    var w := TokenRead(buf, strings, i, ps, cs);
    if w == 2 {
      NothingSpelled(buf, strings, i);
      return [];
    }
    var item := Nop;
    if w == 4 {
      ReadNop(buf, strings, i, ps, cs);
      NopRead(buf, strings, i);
    } else if w == 3 {
      ReadProperty(buf, strings, i, ps, cs);
      item := PropertyRead(buf, strings, i);
    } else {
      ReadSubnode(buf, strings, i, ps, cs);
      EmptyMaps();
      var name := CStringAt(buf, i + 4).value;
      var sub := SpelledByRead(buf, strings, AlignUp4(i + 5 + |name|), []);
      SubnodeRead(buf, strings, i, name, sub);
      item := Subnode(name, sub);
    }
    PropsSnoc(done, item);
    var rest := SpelledByRead(buf, strings, EndOf(i, item), done + [item]);
    OneMoreItem(buf, strings, i, item, rest);
    items := [item] + rest;
  }

  lemma NothingSpelled(buf: seq<Byte>, strings: seq<Byte>, i: nat)
    ensures SpellsAll(buf, strings, i, []) && EndOfAll(i, []) == i
  {}

  // ----- The maps are what the items mean -----

  /** What an insertion into a sorted list leaves there, exactly. */
  lemma {:induction false} InsertedProps(ps: seq<Prop>, p: Prop, q: Prop)
    requires SortedProps(ps)
    ensures q in InsertProp(ps, p) <==> q == p || (q in ps && q.name != p.name)
  {
    if ps != [] {
      var first, rest := ps[0], ps[1..];
      assert forall i :: 0 <= i < |rest| ==> rest[i] == ps[i + 1];
      assert q in ps <==> q == first || q in rest;
      NamesAbove(ps, q);
      if p.name != first.name && !Less(p.name, first.name) {
        InsertedProps(rest, p, q);
      } else if Less(p.name, first.name) {
        LessIsAsymmetric(p.name, first.name);
        if q in rest && q.name == p.name { LessIsAsymmetric(first.name, q.name); }
      }
    }
  }

  lemma NamesAbove(ps: seq<Prop>, q: Prop)
    requires SortedProps(ps) && ps != []
    ensures q in ps[1..] ==> Less(ps[0].name, q.name) && q.name != ps[0].name
  {
    if q in ps[1..] {
      var i :| 0 <= i < |ps[1..]| && ps[1..][i] == q;
      assert ps[i + 1] == q;
      LessIsAsymmetric(ps[0].name, q.name);
    }
  }

  lemma {:induction false} InsertedChildren(cs: seq<Child>, c: Child, d: Child)
    requires SortedChildren(cs)
    ensures d in InsertChild(cs, c) <==> d == c || (d in cs && d.name != c.name)
  {
    if cs != [] {
      var first, rest := cs[0], cs[1..];
      assert forall i :: 0 <= i < |rest| ==> rest[i] == cs[i + 1];
      assert d in cs <==> d == first || d in rest;
      ChildNamesAbove(cs, d);
      if c.name != first.name && !Less(c.name, first.name) {
        InsertedChildren(rest, c, d);
      } else if Less(c.name, first.name) {
        LessIsAsymmetric(c.name, first.name);
        if d in rest && d.name == c.name { LessIsAsymmetric(first.name, d.name); }
      }
    }
  }

  lemma ChildNamesAbove(cs: seq<Child>, d: Child)
    requires SortedChildren(cs) && cs != []
    ensures d in cs[1..] ==> Less(cs[0].name, d.name) && d.name != cs[0].name
  {
    if d in cs[1..] {
      var i :| 0 <= i < |cs[1..]| && cs[1..][i] == d;
      assert cs[i + 1] == d;
      LessIsAsymmetric(cs[0].name, d.name);
    }
  }

  lemma {:induction false} PropsMean(items: seq<Item>, p: Prop)
    ensures SortedProps(PropsOf(items))
    ensures p in PropsOf(items) <==> MeansProp(items, p)
  {
    if items != [] {
      var before, last := items[..|items| - 1], items[|items| - 1];
      PropsMean(before, p);
      if last.Property? {
        InsertPropSorted(PropsOf(before), Prop(last.name, last.value));
        InsertedProps(PropsOf(before), Prop(last.name, last.value), p);
      }
    }
  }

  lemma {:induction false} ChildrenMean(items: seq<Item>, c: Child)
    ensures SortedChildren(ChildrenOf(items))
    ensures c in ChildrenOf(items) <==>
      var k := LastAt(items, c.name, true); k.Some? && c.node == Meaning(items[k.value].items)
  {
    if items != [] {
      var before, last := items[..|items| - 1], items[|items| - 1];
      ChildrenMean(before, c);
      if last.Subnode? {
        InsertChildSorted(ChildrenOf(before), Child(last.name, Meaning(last.items)));
        InsertedChildren(ChildrenOf(before), Child(last.name, Meaning(last.items)), c);
      }
    }
  }

  /** Sorted lists with the same entries are equal. */
  lemma {:induction false} SameProps(ps: seq<Prop>, qs: seq<Prop>)
    requires SortedProps(ps) && SortedProps(qs) && forall p :: p in ps <==> p in qs
    ensures ps == qs
  {
    assert (ps != [] ==> ps[0] in ps) && (qs != [] ==> qs[0] in qs);
    if ps != [] && qs != [] {
      assert ps[0] in qs && qs[0] in ps;
      if ps[0] != qs[0] {
        NamesAbove(ps, qs[0]);
        NamesAbove(qs, ps[0]);
        LessIsAsymmetric(ps[0].name, qs[0].name);
      }
      forall p ensures p in ps[1..] <==> p in qs[1..] {
        NamesAbove(ps, p);
        NamesAbove(qs, p);
        assert p in ps <==> p == ps[0] || p in ps[1..];
        assert p in qs <==> p == qs[0] || p in qs[1..];
      }
      SameProps(ps[1..], qs[1..]);
      assert ps == [ps[0]] + ps[1..] && qs == [qs[0]] + qs[1..];
    }
  }

  lemma {:induction false} SameChildren(cs: seq<Child>, ds: seq<Child>)
    requires SortedChildren(cs) && SortedChildren(ds) && forall c :: c in cs <==> c in ds
    ensures cs == ds
  {
    assert (cs != [] ==> cs[0] in cs) && (ds != [] ==> ds[0] in ds);
    if cs != [] && ds != [] {
      assert cs[0] in ds && ds[0] in cs;
      if cs[0] != ds[0] {
        ChildNamesAbove(cs, ds[0]);
        ChildNamesAbove(ds, cs[0]);
        LessIsAsymmetric(cs[0].name, ds[0].name);
      }
      forall c ensures c in cs[1..] <==> c in ds[1..] {
        ChildNamesAbove(cs, c);
        ChildNamesAbove(ds, c);
        assert c in cs <==> c == cs[0] || c in cs[1..];
        assert c in ds <==> c == ds[0] || c in ds[1..];
      }
      SameChildren(cs[1..], ds[1..]);
      assert cs == [cs[0]] + cs[1..] && ds == [ds[0]] + ds[1..];
    }
  }

  lemma MeansOne(items: seq<Item>, a: Node, b: Node)
    requires Means(items, a) && Means(items, b)
    ensures a == b
  {
    SameProps(a.properties, b.properties);
    SameChildren(a.children, b.children);
  }

  /** Items mean one node: the maps that the reader fills. */
  lemma {:induction false} MeaningMeans(items: seq<Item>)
    ensures Means(items, Meaning(items))
    decreases items
  {
    var n := Meaning(items);
    forall p ensures SortedProps(n.properties) && (p in n.properties <==> MeansProp(items, p)) {
      PropsMean(items, p);
    }
    forall c: Child ensures SortedChildren(n.children) && (c in n.children <==>
      var k := LastAt(items, c.name, true); k.Some? && Means(items[k.value].items, c.node))
    {
      ChildrenMean(items, c);
      var k := LastAt(items, c.name, true);
      if k.Some? {
        MeaningMeans(items[k.value].items);
        if Means(items[k.value].items, c.node) {
          MeansOne(items[k.value].items, c.node, Meaning(items[k.value].items));
        }
      }
    }
    assert SortedProps(n.properties) by { PropsMean(items, Prop([], [])); }
    assert SortedChildren(n.children) by { ChildrenMean(items, Child([], n)); }
  }

  /** The reader accepts exactly the bytes that spell a node, and gives the node they spell. */
  lemma ReadsWhatIsSpelled(buf: seq<Byte>, strings: seq<Byte>, i: nat, n: Node, next: nat)
    ensures ReadNode(buf, strings, i, [], []) == Parsed(n, next) <==> SpellsNode(buf, strings, i, n, next)
  {
    hide ReadNode, Meaning, SpellsAll, EndOfAll, Says, Means;
    EmptyMaps();
    if ReadNode(buf, strings, i, [], []) == Parsed(n, next) {
      var items := SpelledByRead(buf, strings, i, []);
      ReadSpelled(buf, strings, i, [], items);
      assert [] + items == items;
      MeaningMeans(items);
    }
    if SpellsNode(buf, strings, i, n, next) {
      var items :| SpellsAll(buf, strings, i, items) && Means(items, n) && Says(buf, EndOfAll(i, items), 2) &&
        next == EndOfAll(i, items) + 4;
      ReadSpelled(buf, strings, i, [], items);
      assert [] + items == items;
      MeaningMeans(items);
      MeansOne(items, n, Meaning(items));
    }
  }

  // ----- Blobs -----

  function LongAt(buf: seq<Byte>, i: nat): nat
    requires i + 8 <= |buf|
  {
    0x1_0000_0000 * WordAt(buf, i) + WordAt(buf, i + 4)
  }

  /** Address and size of each reservation, never both zero, and then two zeros. */
  ghost predicate SpellsReserve(buf: seq<Byte>, i: nat, es: seq<ReserveEntry>)
    decreases |es|
  {
    && i + 16 <= |buf|
    && (es == [] <==> LongAt(buf, i) == LongAt(buf, i + 8) == 0)
    && (es != [] ==>
        es[0] == ReserveEntry(LongAt(buf, i), LongAt(buf, i + 8)) && SpellsReserve(buf, i + 16, es[1..]))
  }

  /** Token 1, an empty name, the root, and token 9. */
  ghost predicate SpellsRoot(block: seq<Byte>, strings: seq<Byte>, n: Node) {
    && Says(block, 0, 1) && 4 < |block| && block[4] == 0
    && exists next :: SpellsNode(block, strings, 8, n, next) && Says(block, next, 9)
  }

  /** Magic number, versions and header size. */
  ghost predicate HeaderRight(dtb: seq<Byte>) {
    40 <= |dtb| && WordAt(dtb, 0) == 0xd00dfeed && WordAt(dtb, 20) == 17 && WordAt(dtb, 24) == 16
  }

  /** The structure and the strings that a header points to lie in the blob. */
  ghost predicate BlocksInside(dtb: seq<Byte>)
    requires 40 <= |dtb|
  {
    WordAt(dtb, 8) + WordAt(dtb, 36) <= |dtb| && WordAt(dtb, 12) + WordAt(dtb, 32) <= |dtb|
  }

  ghost predicate SpellsTree(dtb: seq<Byte>, dt: DeviceTree) {
    && HeaderRight(dtb) && BlocksInside(dtb) && WordAt(dtb, 16) <= |dtb|
    && SpellsReserve(dtb[WordAt(dtb, 16)..], 0, dt.rsvmap)
    && SpellsRoot(dtb[WordAt(dtb, 8)..WordAt(dtb, 8) + WordAt(dtb, 36)],
                  dtb[WordAt(dtb, 12)..WordAt(dtb, 12) + WordAt(dtb, 32)], dt.root)
    && dt.bootCpu == WordAt(dtb, 28)
  }

  lemma LongIsRead(buf: seq<Byte>, i: nat)
    requires i + 8 <= |buf|
    ensures FromBe64(buf[i..i + 8]) == LongAt(buf, i)
  {
    assert buf[i..i + 8][..4] == buf[i..i + 4] && buf[i..i + 8][4..] == buf[i + 4..i + 8];
  }

  lemma {:induction false} ReserveIsSpelled(buf: seq<Byte>, i: nat, es: seq<ReserveEntry>)
    ensures ReadReserve(buf, i) == Some(es) <==> SpellsReserve(buf, i, es)
    decreases |es|
  {
    hide FromBe64, LongAt;
    if i + 16 <= |buf| {
      LongIsRead(buf, i);
      LongIsRead(buf, i + 8);
      if es != [] {
        ReserveIsSpelled(buf, i + 16, es[1..]);
        assert es == [es[0]] + es[1..];
        var rest := ReadReserve(buf, i + 16);
        if rest.Some? {
          var e := ReserveEntry(LongAt(buf, i), LongAt(buf, i + 8));
          assert ([e] + rest.value)[0] == e && ([e] + rest.value)[1..] == rest.value;
        }
      }
    }
  }

  lemma RootIsSpelled(block: seq<Byte>, strings: seq<Byte>, n: Node)
    ensures ReadRoot(block, strings) == Some(n) <==> SpellsRoot(block, strings, n)
  {
    ReadIsWord(block, 0, 1);
    ReadIsText(block, 4, []);
    assert TextAt(block, 4, []) <==> 4 < |block| && block[4] == 0;
    hide ReadNode, ReadU32, CStringAt, Says, TextAt, SpellsNode;
    var r := ReadNode(block, strings, 8, [], []);
    if r.Parsed? {
      ReadsWhatIsSpelled(block, strings, 8, r.node, r.next);
      ReadIsWord(block, r.next, 9);
    }
    if SpellsRoot(block, strings, n) {
      var next :| SpellsNode(block, strings, 8, n, next) && Says(block, next, 9);
      ReadsWhatIsSpelled(block, strings, 8, n, next);
      ReadIsWord(block, next, 9);
    }
  }

  lemma WordsAre(dtb: seq<Byte>)
    requires 40 <= |dtb|
    ensures forall k :: 0 <= k < 10 ==> Word(dtb, k) == WordAt(dtb, 4 * k)
  {}

  /** The blobs that are read are exactly those that spell a tree, and that tree is read. */
  lemma ReadsTreeSpelled(dtb: seq<Byte>, dt: DeviceTree)
    ensures ReadBlob(dtb) == Tree(dt) <==> SpellsTree(dtb, dt)
  {
    hide Word, WordAt, ReadReserve, ReadRoot, SpellsReserve, SpellsRoot;
    if 40 <= |dtb| {
      HeaderWordsAre(dtb);
      if WordAt(dtb, 16) <= |dtb| {
        ReserveIsSpelled(dtb[WordAt(dtb, 16)..], 0, dt.rsvmap);
        if BlocksInside(dtb) {
          RootIsSpelled(dtb[WordAt(dtb, 8)..WordAt(dtb, 8) + WordAt(dtb, 36)],
                        dtb[WordAt(dtb, 12)..WordAt(dtb, 12) + WordAt(dtb, 32)], dt.root);
        }
      }
    }
  }

  lemma HeaderWordsAre(dtb: seq<Byte>)
    requires 40 <= |dtb|
    ensures Word(dtb, 0) == WordAt(dtb, 0) && Word(dtb, 2) == WordAt(dtb, 8) && Word(dtb, 3) == WordAt(dtb, 12)
    ensures Word(dtb, 4) == WordAt(dtb, 16) && Word(dtb, 5) == WordAt(dtb, 20) && Word(dtb, 6) == WordAt(dtb, 24)
    ensures Word(dtb, 7) == WordAt(dtb, 28) && Word(dtb, 8) == WordAt(dtb, 32) && Word(dtb, 9) == WordAt(dtb, 36)
  {
    WordsAre(dtb);
  }

  /**
   The source slices outside the blob exactly if a right header points there, and no earlier
   error ends the reading.
   */
  lemma ReadsOutside(dtb: seq<Byte>)
    ensures ReadBlob(dtb).OutOfRange? <==>
      && HeaderRight(dtb)
      && (|dtb| < WordAt(dtb, 16) ||
          (!BlocksInside(dtb) && exists es :: SpellsReserve(dtb[WordAt(dtb, 16)..], 0, es)))
  {
    hide Word, WordAt, ReadReserve, ReadRoot, SpellsReserve, SpellsRoot;
    if 40 <= |dtb| {
      HeaderWordsAre(dtb);
      if WordAt(dtb, 16) <= |dtb| {
        var rest := dtb[WordAt(dtb, 16)..];
        var r := ReadReserve(rest, 0);
        if r.Some? { ReserveIsSpelled(rest, 0, r.value); }
        if es :| SpellsReserve(rest, 0, es) { ReserveIsSpelled(rest, 0, es); }
      }
    }
  }

  /** What the writer produces spells its tree. */
  lemma WritesWhatIsSpelled(dt: DeviceTree)
    requires WritableTree(dt)
    ensures SpellsTree(Blob(dt), dt)
  {
    hide *;
    ReadInvertsWrite(dt);
    ReadsTreeSpelled(Blob(dt), dt);
  }

  /** Names are in the order of their first different bytes, a name before its extensions. */
  lemma {:induction false} LessMeans(a: Name, b: Name)
    ensures Less(a, b) <==>
      exists k :: 0 <= k <= |a| && k < |b| && a[..k] == b[..k] && (k == |a| || a[k] < b[k])
    decreases |a|
  {
    if b != [] && a != [] && a[0] == b[0] {
      LessMeans(a[1..], b[1..]);
      var c, d := a[1..], b[1..];
      if k :| 0 <= k <= |c| && k < |d| && c[..k] == d[..k] && (k == |c| || c[k] < d[k]) {
        assert a[..k + 1] == [a[0]] + c[..k] && b[..k + 1] == [b[0]] + d[..k];
      }
      if k :| 0 <= k <= |a| && k < |b| && a[..k] == b[..k] && (k == |a| || a[k] < b[k]) {
        assert 0 < k;
        assert a[1..][..k - 1] == a[..k][1..] && b[1..][..k - 1] == b[..k][1..];
      }
    } else if b != [] {
      assert a[..0] == b[..0];
      if a != [] && a[0] != b[0] {
        assert forall k :: 0 < k <= |a| && k < |b| ==> a[..k][0] != b[..k][0];
      }
    }
  }
}
