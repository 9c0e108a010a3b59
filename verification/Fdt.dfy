/**
 Device tree blobs: what the writer produces and what the reader accepts, as functions on byte
 sequences (chapter 5 of the Devicetree Specification).

 A BTreeMap is a list of entries with strictly increasing names.  Names are the UTF-8 bytes of
 the source's strings.
 */
module Fdt {
  import opened Basics
  import opened Endian

  type Name = seq<Byte>

  datatype Prop = Prop(name: Name, value: seq<Byte>)
  datatype Node = Node(properties: seq<Prop>, children: seq<Child>)
  datatype Child = Child(name: Name, node: Node)
  datatype ReserveEntry = ReserveEntry(address: nat, size: nat)
  datatype DeviceTree = DeviceTree(rsvmap: seq<ReserveEntry>, root: Node, bootCpu: nat)

  const MAGIC: nat := 0xd00dfeed
  const VERSION: nat := 17
  const LAST_COMP_VERSION: nat := 16
  const TOK_BEGIN_NODE: nat := 1
  const TOK_END_NODE: nat := 2
  const TOK_PROP: nat := 3
  const TOK_NOP: nat := 4
  const TOK_END: nat := 9
  const HEADER_SIZE: nat := 40

  // ----- Ordered maps -----

  /** Byte-wise lexicographic order, that of Rust strings. */
  predicate Less(a: Name, b: Name) {
    if b == [] then false
    else if a == [] then true
    else a[0] < b[0] || (a[0] == b[0] && Less(a[1..], b[1..]))
  }

  lemma {:induction false} LessIsAsymmetric(a: Name, b: Name)
    requires Less(a, b)
    ensures a != b && !Less(b, a)
  {
    if a != [] && a[0] == b[0] { LessIsAsymmetric(a[1..], b[1..]); }
  }

  ghost predicate SortedProps(ps: seq<Prop>) {
    forall i, j :: 0 <= i < j < |ps| ==> Less(ps[i].name, ps[j].name)
  }

  ghost predicate SortedChildren(cs: seq<Child>) {
    forall i, j :: 0 <= i < j < |cs| ==> Less(cs[i].name, cs[j].name)
  }

  /** BTreeMap::insert */
  function InsertProp(ps: seq<Prop>, p: Prop): seq<Prop> {
    if ps == [] then [p]
    else if p.name == ps[0].name then [p] + ps[1..]
    else if Less(p.name, ps[0].name) then [p] + ps
    else [ps[0]] + InsertProp(ps[1..], p)
  }

  function InsertChild(cs: seq<Child>, c: Child): seq<Child> {
    if cs == [] then [c]
    else if c.name == cs[0].name then [c] + cs[1..]
    else if Less(c.name, cs[0].name) then [c] + cs
    else [cs[0]] + InsertChild(cs[1..], c)
  }

  /** Inserting in increasing order appends. */
  lemma {:induction false} InsertLastProp(ps: seq<Prop>, p: Prop)
    requires forall i :: 0 <= i < |ps| ==> Less(ps[i].name, p.name)
    ensures InsertProp(ps, p) == ps + [p]
  {
    if ps != [] {
      LessIsAsymmetric(ps[0].name, p.name);
      InsertLastProp(ps[1..], p);
    }
  }

  lemma {:induction false} InsertLastChild(cs: seq<Child>, c: Child)
    requires forall i :: 0 <= i < |cs| ==> Less(cs[i].name, c.name)
    ensures InsertChild(cs, c) == cs + [c]
  {
    if cs != [] {
      LessIsAsymmetric(cs[0].name, c.name);
      InsertLastChild(cs[1..], c);
    }
  }

  // ----- UTF-8 -----

  /** A name the reader gives back: text without the terminator in it. */
  ghost predicate IsName(s: Name) {
    IsUtf8(s) && forall i :: 0 <= i < |s| ==> s[i] != 0
  }

  // ----- Writing -----

  /** align_up(n, 4) */
  function AlignUp4(n: nat): (m: nat)
    ensures n <= m < n + 4 && m % 4 == 0
  {
    (n + 3) / 4 * 4
  }

  function Zeros(n: nat): (z: seq<Byte>)
    ensures |z| == n
  {
    if n == 0 then [] else [0] + Zeros(n - 1)
  }

  function Padded(b: seq<Byte>): (r: seq<Byte>)
    ensures |r| == AlignUp4(|b|)
  {
    b + Zeros(AlignUp4(|b|) - |b|)
  }

  /** The string table entries of a property list, in the order they are inserted. */
  function PropNames(ps: seq<Prop>): seq<Byte> {
    if ps == [] then [] else ps[0].name + [0] + PropNames(ps[1..])
  }

  /** The string table part of a node and of a list of children. */
  function NodeNames(n: Node): seq<Byte>
    decreases n, 1
  {
    PropNames(n.properties) + ChildNames(n.children)
  }

  function ChildNames(cs: seq<Child>): seq<Byte>
    decreases cs, 0
  {
    if cs == [] then [] else NodeNames(cs[0].node) + ChildNames(cs[1..])
  }

  /** One property; `off` is where its name starts in the string table. */
  function EncodeProp(p: Prop, off: nat): seq<Byte> {
    Be32(TOK_PROP) + (Be32(|p.value|) + (Be32(off) + Padded(p.value)))
  }

  function EncodeProps(ps: seq<Prop>, off: nat): seq<Byte>
    decreases |ps|
  {
    if ps == [] then [] else EncodeProp(ps[0], off) + EncodeProps(ps[1..], off + |ps[0].name| + 1)
  }

  /** A node after its name: properties, children, end token. */
  function EncodeBody(n: Node, off: nat): seq<Byte>
    decreases n, 2
  {
    EncodeProps(n.properties, off) + (EncodeChildren(n.children, off + |PropNames(n.properties)|) + Be32(TOK_END_NODE))
  }

  function EncodeNode(name: Name, n: Node, off: nat): seq<Byte>
    decreases n, 3
  {
    Be32(TOK_BEGIN_NODE) + (Padded(name + [0]) + EncodeBody(n, off))
  }

  function EncodeChildren(cs: seq<Child>, off: nat): seq<Byte>
    decreases cs, 0
  {
    if cs == [] then []
    else EncodeNode(cs[0].name, cs[0].node, off) + EncodeChildren(cs[1..], off + |NodeNames(cs[0].node)|)
  }

  // ----- Reading -----

  /** Cursor::read_be_u32 */
  function ReadU32(buf: seq<Byte>, i: nat): (r: Option<nat>)
    ensures r.Some? ==> i + 4 <= |buf|
  {
    if i + 4 <= |buf| then Some(FromBe32(buf[i..i + 4])) else None
  }

  function FirstZero(buf: seq<Byte>, i: nat): (r: Option<nat>)
    requires i <= |buf|
    ensures r.Some? ==> i <= r.value < |buf| && buf[r.value] == 0
    ensures forall k :: i <= k < (if r.Some? then r.value else |buf|) ==> buf[k] != 0
    decreases |buf| - i
  {
    if i == |buf| then None else if buf[i] == 0 then Some(i) else FirstZero(buf, i + 1)
  }

  /** cstring_at */
  function CStringAt(buf: seq<Byte>, off: nat): (r: Option<Name>)
    ensures r.Some? ==> IsUtf8(r.value) && off + |r.value| < |buf|
  {
    if off > |buf| then None else
    var z := FirstZero(buf, off);
    if z.None? || !IsUtf8(buf[off..z.value]) then None else Some(buf[off..z.value])
  }

  datatype Parsed = Malformed | Parsed(node: Node, next: nat)

  function Remaining(buf: seq<Byte>, i: nat): nat {
    if i <= |buf| then |buf| - i else 0
  }

  /** A property behind its token, and where the next token is. */
  function PropAt(buf: seq<Byte>, strings: seq<Byte>, i: nat): (r: Option<(Prop, nat)>)
    ensures r.Some? ==> i < r.value.1 && i < |buf|
  {
    var len, off := ReadU32(buf, i), ReadU32(buf, i + 4);
    if len.None? || off.None? then None else
    var name := CStringAt(strings, off.value);
    if name.None? || |buf| < i + 8 + len.value then None else
    Some((Prop(name.value, buf[i + 8..i + 8 + len.value]), AlignUp4(i + 8 + len.value)))
  }

  /** Cursor::read_node: the loop, with the maps filled so far; a nested call reads each child. */
  function ReadNode(buf: seq<Byte>, strings: seq<Byte>, i: nat, ps: seq<Prop>, cs: seq<Child>): (r: Parsed)
    ensures r.Parsed? ==> i < r.next
    decreases Remaining(buf, i)
  {
    var tok := ReadU32(buf, i);
    if tok.None? then Malformed
    else if tok.value == TOK_NOP then ReadNode(buf, strings, i + 4, ps, cs)
    else if tok.value == TOK_END_NODE then Parsed(Node(ps, cs), i + 4)
    else if tok.value == TOK_PROP then
      var p := PropAt(buf, strings, i + 4);
      if p.None? then Malformed else ReadNode(buf, strings, p.value.1, InsertProp(ps, p.value.0), cs)
    else if tok.value == TOK_BEGIN_NODE then
      var name := CStringAt(buf, i + 4);
      if name.None? then Malformed else
      var child := ReadNode(buf, strings, AlignUp4(i + 4 + |name.value| + 1), [], []);
      if child.Malformed? then Malformed else
      ReadNode(buf, strings, child.next, ps, InsertChild(cs, Child(name.value, child.node)))
    else Malformed
  }

  // ----- The whole blob -----

  function EncodeReserve(es: seq<ReserveEntry>): seq<Byte> {
    if es == [] then Be64(0) + Be64(0)
    else Be64(es[0].address) + (Be64(es[0].size) + EncodeReserve(es[1..]))
  }

  /** Structure block and string table. */
  function StructBlock(dt: DeviceTree): seq<Byte> {
    EncodeNode([], dt.root, 0) + Be32(TOK_END)
  }

  function StringBlock(dt: DeviceTree): seq<Byte> {
    NodeNames(dt.root)
  }

  function OffStruct(dt: DeviceTree): nat {
    HEADER_SIZE + |EncodeReserve(dt.rsvmap)|
  }

  function OffStrings(dt: DeviceTree): nat {
    OffStruct(dt) + |StructBlock(dt)|
  }

  /** The ten header words. */
  function HeaderWords(dt: DeviceTree): (w: seq<nat>)
    ensures |w| == 10
  {
    [MAGIC, OffStrings(dt) + |StringBlock(dt)|, OffStruct(dt), OffStrings(dt), HEADER_SIZE,
     VERSION, LAST_COMP_VERSION, dt.bootCpu, |StringBlock(dt)|, |StructBlock(dt)|]
  }

  function EncodeWords(w: seq<nat>): (b: seq<Byte>)
    ensures |b| == 4 * |w|
  {
    if w == [] then [] else Be32(w[0]) + EncodeWords(w[1..])
  }

  /** The bytes of a device tree: header, reservation block, structure block, string table. */
  function Blob(dt: DeviceTree): seq<Byte> {
    EncodeWords(HeaderWords(dt)) + (EncodeReserve(dt.rsvmap) + (StructBlock(dt) + StringBlock(dt)))
  }

  datatype ReadResult = Tree(dt: DeviceTree) | Refused | OutOfRange

  /** Cursor::read_mem_rsvmap */
  function ReadReserve(buf: seq<Byte>, i: nat): (r: Option<seq<ReserveEntry>>)
    decreases Remaining(buf, i)
  {
    if |buf| < i + 16 then None else
    var e := ReserveEntry(FromBe64(buf[i..i + 8]), FromBe64(buf[i + 8..i + 16]));
    if e.address == 0 && e.size == 0 then Some([]) else
    var rest := ReadReserve(buf, i + 16);
    if rest.None? then None else Some([e] + rest.value)
  }

  /** Header word `k`, present once the header has been read. */
  function Word(dtb: seq<Byte>, k: nat): nat
    requires HEADER_SIZE <= |dtb| && k < 10
  {
    FromBe32(dtb[4 * k..4 * k + 4])
  }

  /** The structure block: begin token, empty name, the root node, end token. */
  function ReadRoot(block: seq<Byte>, strings: seq<Byte>): (r: Option<Node>) {
    if ReadU32(block, 0) != Some(TOK_BEGIN_NODE) then None
    else if CStringAt(block, 4) != Some([]) then None else
    var root := ReadNode(block, strings, AlignUp4(5), [], []);
    if root.Malformed? || ReadU32(block, root.next) != Some(TOK_END) then None else Some(root.node)
  }

  /** DeviceTree::read; slicing outside the blob panics in the source. */
  function ReadBlob(dtb: seq<Byte>): (r: ReadResult) {
    if |dtb| < HEADER_SIZE then Refused
    else if Word(dtb, 0) != MAGIC || Word(dtb, 5) != VERSION || Word(dtb, 6) != LAST_COMP_VERSION then Refused
    else if |dtb| < Word(dtb, 4) then OutOfRange else
    var rsvmap := ReadReserve(dtb[Word(dtb, 4)..], 0);
    if rsvmap.None? then Refused else
    var strings0, strings1 := Word(dtb, 3), Word(dtb, 3) + Word(dtb, 8);
    var struct0, struct1 := Word(dtb, 2), Word(dtb, 2) + Word(dtb, 9);
    if |dtb| < strings1 || |dtb| < struct1 then OutOfRange else
    var root := ReadRoot(dtb[struct0..struct1], dtb[strings0..strings1]);
    if root.None? then Refused else Tree(DeviceTree(rsvmap.value, root.value, Word(dtb, 7)))
  }
}
