/** What the reader gives for arbitrary bytes: always a tree that the writer can write and it can read back. */
module FdtRead {
  import opened Basics
  import opened Endian
  import opened Fdt
  import opened FdtRoundTrip

  // ----- The order of names -----

  lemma {:induction false} LessTotal(a: Name, b: Name)
    ensures a == b || Less(a, b) || Less(b, a)
  {
    if a != [] && b != [] && a[0] == b[0] {
      LessTotal(a[1..], b[1..]);
      assert a == [a[0]] + a[1..] && b == [b[0]] + b[1..];
    }
  }

  lemma {:induction false} LessTransitive(a: Name, b: Name, c: Name)
    requires Less(a, b) && Less(b, c)
    ensures Less(a, c)
  {
    if a != [] && a[0] == b[0] && b[0] == c[0] {
      LessTransitive(a[1..], b[1..], c[1..]);
    }
  }

  /** What an insertion into a sorted list leaves there. */
  lemma {:induction false} InsertPropSorted(ps: seq<Prop>, p: Prop)
    requires SortedProps(ps)
    ensures SortedProps(InsertProp(ps, p))
    ensures forall q :: q in InsertProp(ps, p) ==> q == p || q in ps
  {
    if ps != [] {
      LessTotal(p.name, ps[0].name);
      var first, rest := ps[0], ps[1..];
      assert forall i :: 0 <= i < |rest| ==> rest[i] == ps[i + 1];
      if p.name != first.name && !Less(p.name, first.name) {
        InsertPropSorted(rest, p);
        FrontProp(first, InsertProp(rest, p));
      } else {
        forall i | 0 <= i < |rest| && Less(p.name, first.name) ensures Less(p.name, rest[i].name) {
          LessTransitive(p.name, first.name, rest[i].name);
        }
      }
    }
  }

  lemma FrontProp(first: Prop, rest: seq<Prop>)
    requires SortedProps(rest) && forall q :: q in rest ==> Less(first.name, q.name)
    ensures SortedProps([first] + rest)
  {}

  lemma {:induction false} InsertChildSorted(cs: seq<Child>, c: Child)
    requires SortedChildren(cs)
    ensures SortedChildren(InsertChild(cs, c))
    ensures forall d :: d in InsertChild(cs, c) ==> d == c || d in cs
  {
    if cs != [] {
      LessTotal(c.name, cs[0].name);
      var first, rest := cs[0], cs[1..];
      assert forall i :: 0 <= i < |rest| ==> rest[i] == cs[i + 1];
      if c.name != first.name && !Less(c.name, first.name) {
        InsertChildSorted(rest, c);
        FrontChild(first, InsertChild(rest, c));
      } else {
        forall i | 0 <= i < |rest| && Less(c.name, first.name) ensures Less(c.name, rest[i].name) {
          LessTransitive(c.name, first.name, rest[i].name);
        }
      }
    }
  }

  lemma FrontChild(first: Child, rest: seq<Child>)
    requires SortedChildren(rest) && forall d :: d in rest ==> Less(first.name, d.name)
    ensures SortedChildren([first] + rest)
  {}

  // ----- Nodes -----

  lemma ReadU32Small(buf: seq<Byte>, i: nat)
    ensures var n := ReadU32(buf, i); n.Some? ==> n.value < U32_SIZE
  {}

  lemma NameRead(buf: seq<Byte>, off: nat)
    ensures var s := CStringAt(buf, off); s.Some? ==> IsName(s.value)
  {
    hide IsUtf8;
  }

  lemma PropRead(buf: seq<Byte>, strings: seq<Byte>, i: nat)
    ensures var p := PropAt(buf, strings, i); p.Some? ==> IsName(p.value.0.name) && |p.value.0.value| < U32_SIZE
  {
    hide CStringAt, FromBe32, IsUtf8;
    ReadU32Small(buf, i);
    ReadU32Small(buf, i + 4);
    hide ReadU32;
    var off := ReadU32(buf, i + 4);
    if off.Some? {
      NameRead(strings, off.value);
    }
  }

  lemma PutProp(ps: seq<Prop>, cs: seq<Child>, p: Prop)
    requires Writable(Node(ps, cs)) && IsName(p.name) && |p.value| < U32_SIZE
    ensures Writable(Node(InsertProp(ps, p), cs))
  {
    hide IsName;
    InsertPropSorted(ps, p);
  }

  lemma PutChild(ps: seq<Prop>, cs: seq<Child>, c: Child)
    requires Writable(Node(ps, cs)) && IsName(c.name) && Writable(c.node)
    ensures Writable(Node(ps, InsertChild(cs, c)))
  {
    hide IsName;
    InsertChildSorted(cs, c);
  }

  /** Whatever the token loop makes of the bytes is sorted and properly named. */
  lemma {:induction false} ReadNodeWritable(buf: seq<Byte>, strings: seq<Byte>, i: nat, ps: seq<Prop>, cs: seq<Child>)
    requires Writable(Node(ps, cs))
    ensures var r := ReadNode(buf, strings, i, ps, cs); r.Parsed? ==> Writable(r.node)
    decreases Remaining(buf, i)
  {
    hide ReadU32, PropAt, CStringAt, Writable, InsertProp, InsertChild, AlignUp4;
    var tok := ReadU32(buf, i);
    if tok == Some(TOK_NOP) {
      ReadNodeWritable(buf, strings, i + 4, ps, cs);
    } else if tok == Some(TOK_PROP) {
      var p := PropAt(buf, strings, i + 4);
      if p.Some? {
        PropRead(buf, strings, i + 4);
        PutProp(ps, cs, p.value.0);
        ReadNodeWritable(buf, strings, p.value.1, InsertProp(ps, p.value.0), cs);
      }
    } else if tok == Some(TOK_BEGIN_NODE) {
      var name := CStringAt(buf, i + 4);
      if name.Some? {
        var body := AlignUp4(i + 4 + |name.value| + 1);
        EmptyWritable();
        ReadNodeWritable(buf, strings, body, [], []);
        var child := ReadNode(buf, strings, body, [], []);
        if child.Parsed? {
          NameRead(buf, i + 4);
          PutChild(ps, cs, Child(name.value, child.node));
          ReadNodeWritable(buf, strings, child.next, ps, InsertChild(cs, Child(name.value, child.node)));
        }
      }
    }
  }

  lemma EmptyWritable()
    ensures Writable(Node([], []))
  {}

  // ----- The whole blob -----

  lemma {:induction false} ReserveWritable(buf: seq<Byte>, i: nat)
    ensures var r := ReadReserve(buf, i); r.Some? ==> WritableReserve(r.value)
    decreases Remaining(buf, i)
  {
    hide FromBe64;
    if i + 16 <= |buf| {
      ReserveWritable(buf, i + 16);
    }
  }

  /**
   Reading arbitrary bytes gives, if anything, a tree within what the format can carry; if its
   blob is not too large for the header's fields, it is read back from it unchanged.
   */
  lemma ReadIsStable(dtb: seq<Byte>)
    requires ReadBlob(dtb).Tree?
    ensures var dt := ReadBlob(dtb).dt;
      && Writable(dt.root) && WritableReserve(dt.rsvmap) && dt.bootCpu < U32_SIZE
      && (|Blob(dt)| < U32_SIZE ==> ReadBlob(Blob(dt)) == Tree(dt))
  {
    var dt := ReadBlob(dtb).dt;
    WordSmall(dtb, 7);
    hide Word, ReadNode, ReadReserve, Blob, Writable, ReadU32, CStringAt, WritableReserve;
    ReserveWritable(dtb[Word(dtb, 4)..], 0);
    EmptyWritable();
    var strings := dtb[Word(dtb, 3)..Word(dtb, 3) + Word(dtb, 8)];
    ReadNodeWritable(dtb[Word(dtb, 2)..Word(dtb, 2) + Word(dtb, 9)], strings, AlignUp4(5), [], []);
    if |Blob(dt)| < U32_SIZE {
      ReadInvertsWrite(dt);
    }
  }

  lemma WordSmall(dtb: seq<Byte>, k: nat)
    requires HEADER_SIZE <= |dtb| && k < 10
    ensures Word(dtb, k) < U32_SIZE
  {}
}
