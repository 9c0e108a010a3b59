/**
 Reading a directory over 9P, a page at a time: the server keeps the entries it read at offset 0,
 each with the offset at which the next one starts, and fills a page with those that fit.
 */
module Readdir {
  import opened Basics
  import opened Endian
  import opened WireFormat

  const MIN_MESSAGE_SIZE: nat := 256
  const MAX_MESSAGE_SIZE: nat := 0xFFFF

  /** The size of an answer without any entries. */
  const HEADER: nat := 4 + 1 + 2 + 4

  datatype Qid = Qid(ty: nat, version: nat, path: nat)

  datatype Dirent = Dirent(qid: Qid, offset: nat, ty: nat, name: seq<Byte>)

  const QID: Type := Struct(Field(UInt(1), Field(UInt(4), Field(UInt(8), NoMore))))
  const DIRENT: Type := Struct(Field(QID, Field(UInt(8), Field(UInt(1), Field(Text, NoMore)))))

  function QidValue(q: Qid): Value {
    Many(Cons(Number(q.ty), Cons(Number(q.version), Cons(Number(q.path), Nil))))
  }

  function DirentValue(d: Dirent): Value {
    Many(Cons(QidValue(d.qid), Cons(Number(d.offset), Cons(Number(d.ty), Cons(Bytes(d.name), Nil)))))
  }

  predicate DirentFits(d: Dirent) {
    && d.qid.ty < Power(0x100, 1) && d.qid.version < Power(0x100, 4) && d.qid.path < Power(0x100, 8)
    && d.offset < Power(0x100, 8) && d.ty < Power(0x100, 1) && |d.name| < U16_SIZE && IsUtf8(d.name)
  }

  function Size(d: Dirent): (n: nat)
    ensures 0 < n
  {
    24 + |d.name|
  }

  lemma OneMoreField(v: Value, t: Type, vs: Values, ts: Types)
    requires Fits(v, t) && FieldsFit(vs, ts)
    ensures FieldsFit(Cons(v, vs), Field(t, ts))
    ensures SizeOfFields(Cons(v, vs), Field(t, ts)) == ByteSize(v, t) + SizeOfFields(vs, ts)
  {}

  lemma QidSize(q: Qid)
    requires q.ty < Power(0x100, 1) && q.version < Power(0x100, 4) && q.path < Power(0x100, 8)
    ensures Fits(QidValue(q), QID) && ByteSize(QidValue(q), QID) == 13
  {
    hide Power;
    assert FieldsFit(Nil, NoMore);
    var path := Cons(Number(q.path), Nil);
    OneMoreField(Number(q.path), UInt(8), Nil, NoMore);
    OneMoreField(Number(q.version), UInt(4), path, Field(UInt(8), NoMore));
    OneMoreField(Number(q.ty), UInt(1), Cons(Number(q.version), path), Field(UInt(4), Field(UInt(8), NoMore)));
  }

  lemma SizeIsByteSize(d: Dirent)
    requires DirentFits(d)
    ensures Fits(DirentValue(d), DIRENT) && ByteSize(DirentValue(d), DIRENT) == Size(d)
  {
    hide Power;
    QidSize(d.qid);
    hide QidValue;
    assert FieldsFit(Nil, NoMore);
    var name, tname := Cons(Bytes(d.name), Nil), Field(Text, NoMore);
    OneMoreField(Bytes(d.name), Text, Nil, NoMore);
    var ty, tty := Cons(Number(d.ty), name), Field(UInt(1), tname);
    OneMoreField(Number(d.ty), UInt(1), name, tname);
    var offset, toffset := Cons(Number(d.offset), ty), Field(UInt(8), tty);
    OneMoreField(Number(d.offset), UInt(8), ty, tty);
    OneMoreField(QidValue(d.qid), QID, offset, toffset);
  }

  // ----- Offsets -----

  function Total(ds: seq<Dirent>): nat {
    if ds == [] then 0 else Total(ds[..|ds| - 1]) + Size(ds[|ds| - 1])
  }

  /** Every entry says where the next one starts. */
  ghost predicate Cached(ds: seq<Dirent>) {
    forall i :: 0 <= i < |ds| ==> DirentFits(ds[i]) && ds[i].offset == Total(ds[..i + 1])
  }

  lemma TotalStep(ds: seq<Dirent>, i: nat)
    requires i < |ds|
    ensures Total(ds[..i + 1]) == Total(ds[..i]) + Size(ds[i])
  {
    assert ds[..i + 1][..i] == ds[..i];
  }

  lemma {:induction false} TotalGrows(ds: seq<Dirent>, i: nat, j: nat)
    requires i < j <= |ds|
    ensures Total(ds[..i]) < Total(ds[..j])
    decreases j
  {
    TotalStep(ds, j - 1);
    if i < j - 1 {
      TotalGrows(ds, i, j - 1);
    }
  }

  lemma OffsetsGrow(ds: seq<Dirent>, i: nat, j: nat)
    requires Cached(ds) && i < j < |ds|
    ensures ds[i].offset < ds[j].offset
  {
    TotalGrows(ds, i + 1, j + 1);
  }

  lemma SliceFits(ds: seq<Dirent>, n: nat, k: nat)
    requires Cached(ds) && n <= k <= |ds|
    ensures forall i :: 0 <= i < |ds[n..k]| ==> DirentFits(ds[n..k][i])
  {}

  /** The bytes of a page. */
  ghost function Page(ds: seq<Dirent>): seq<Byte>
    requires forall i :: 0 <= i < |ds| ==> DirentFits(ds[i])
  {
    if ds == [] then [] else
    var last := ds[|ds| - 1];
    SizeIsByteSize(last);
    Page(ds[..|ds| - 1]) + Encode(DirentValue(last), DIRENT)
  }

  /** A client that decodes entries from a page gets back the entries put there. */
  lemma {:induction false} PageDecodes(ds: seq<Dirent>, more: seq<Byte>)
    requires forall i :: 0 <= i < |ds| ==> DirentFits(ds[i])
    ensures Decoded(DIRENT, ds, Page(ds) + more, more)
  {
    hide *;
    if ds == [] {
      NothingDecoded(more);
    } else {
      var n := |ds| - 1;
      var last := PageSnoc(ds);
      PageDecodes(ds[..n], last + more);
      Associate(Page(ds[..n]), last, more);
      DecodeEncode(DirentValue(ds[n]), DIRENT, more);
      DecodedOneMore(DIRENT, ds[..n], ds[n], Page(ds) + more, last + more, more);
      assert ds[..n] + [ds[n]] == ds;
    }
  }

  lemma NothingDecoded(more: seq<Byte>)
    ensures Decoded(DIRENT, [], Page([]) + more, more)
  {
    assert [] + more == more;
  }

  lemma PageSnoc(ds: seq<Dirent>) returns (last: seq<Byte>)
    requires ds != [] && forall i :: 0 <= i < |ds| ==> DirentFits(ds[i])
    ensures var d := DirentValue(ds[|ds| - 1]);
      Fits(d, DIRENT) && last == Encode(d, DIRENT) && Page(ds) == Page(ds[..|ds| - 1]) + last
  {
    SizeIsByteSize(ds[|ds| - 1]);
    last := Encode(DirentValue(ds[|ds| - 1]), DIRENT);
  }

  /** Decoding |ds| values of type t from b yields ds and leaves left. */
  ghost predicate Decoded(t: Type, ds: seq<Dirent>, b: seq<Byte>, left: seq<Byte>) {
    if ds == [] then b == left else
    var d := Decode(t, b);
    d.Some? && d.value.result == DirentValue(ds[0]) && Decoded(t, ds[1..], d.value.left, left)
  }

  lemma {:induction false} DecodedOneMore(t: Type, ds: seq<Dirent>, d: Dirent, b: seq<Byte>, c: seq<Byte>,
                                          left: seq<Byte>)
    requires Decoded(t, ds, b, c) && Decode(t, c) == Some(Parsed(DirentValue(d), left))
    ensures Decoded(t, ds + [d], b, left)
  {
    hide Decode;
    if ds == [] {
      assert [d][1..] == [];
    } else {
      DecodedOneMore(t, ds[1..], d, Decode(t, b).value.left, c, left);
      assert (ds + [d])[1..] == ds[1..] + [d];
    }
  }

  const RREADDIR: Byte := 41
  const ANSWER: Type := Struct(Field(Data, NoMore))

  function Answer(tag: nat, page: seq<Byte>): Frame {
    Frame(RREADDIR, tag, Many(Cons(Bytes(page), Nil)))
  }

  /** The frame that carries a page is as long as the page and the header. */
  lemma AnswerSize(tag: nat, page: seq<Byte>)
    requires tag < U16_SIZE && |page| <= MAX_DATA_LENGTH
    ensures var schema := map[RREADDIR := ANSWER];
      FrameFits(schema, Answer(tag, page)) && |EncodeFrame(schema, Answer(tag, page))| == HEADER + |page|
  {
    var schema := map[RREADDIR := ANSWER];
    assert FieldsFit(Nil, NoMore);
    OneMoreField(Bytes(page), Data, Nil, NoMore);
    FrameLength(schema, Answer(tag, page));
  }

  // ----- The server -----

  /** How many entries from the first n on fit into cap bytes. */
  ghost predicate Fills(ds: seq<Dirent>, n: nat, k: nat, cap: nat) {
    && n <= k <= |ds|
    && Total(ds[..k]) - Total(ds[..n]) <= cap
    && (k < |ds| ==> cap < Total(ds[..k + 1]) - Total(ds[..n]))
  }

  class Server {
    var msize: nat
    var dirents: Option<seq<Dirent>>

    ghost predicate Valid()
      reads this
    {
      && MIN_MESSAGE_SIZE <= msize <= MAX_MESSAGE_SIZE
      && (dirents.Some? ==> Cached(dirents.value))
    }

    constructor ()
      ensures Valid() && dirents == None
    {
      msize, dirents := MAX_MESSAGE_SIZE, None;
    }

    /** Refuses messages too small for the protocol, and forgets every open file. */
    method Version(size: nat) returns (ok: bool)
      requires Valid()
      modifies this
      ensures Valid() && ok == (MIN_MESSAGE_SIZE <= size)
      ensures ok ==> msize == Min(size, MAX_MESSAGE_SIZE) && dirents == None
      ensures !ok ==> msize == old(msize) && dirents == old(dirents)
    {
      if size < MIN_MESSAGE_SIZE { return false; }
      dirents := None;
      msize := if size < MAX_MESSAGE_SIZE then size else MAX_MESSAGE_SIZE;
      return true;
    }

    /** Gives each entry of the listing the offset at which the next one starts. */
    method ReadDirectory(listing: seq<Dirent>)
      requires Valid() && Listable(listing)
      modifies this`dirents
      ensures Valid() && dirents.Some? && Relisted(listing, dirents.value)
    {
      hide DirentFits, Total, Cached, Relisted, Listable;
      var ds, offset := [], 0;
      ListingBegins(listing);
      for i := 0 to |listing|
        invariant |ds| == i && offset == Total(listing[..i]) == Total(ds)
        invariant Cached(ds) && Relisted(listing[..i], ds)
      {
        TotalStep(listing, i);
        offset := offset + Size(listing[i]);
        var d := listing[i].(offset := offset);
        ListableAt(listing, i);
        CachedNext(ds, d);
        RelistedNext(listing, i, ds, d);
        ds := ds + [d];
      }
      assert listing[..|listing|] == listing;
      dirents := Some(ds);
    }

    /** The room for entries in an answer. */
    function Capacity(count: nat): (cap: nat)
      requires Valid()
      reads this
      ensures cap <= count && cap + HEADER <= msize && (cap == count || cap + HEADER == msize)
    {
      if msize - HEADER < count then msize - HEADER else count
    }

    /** One page: the entries that start after offset, as many as there is room for. */
    method GetPage(offset: nat, count: nat) returns (page: Option<seq<Byte>>, ghost n: nat, ghost k: nat)
      requires Valid()
      ensures page.None? <==> dirents.None?
      ensures page.Some? ==>
        var ds := dirents.value;
        && n <= k <= |ds| && Fills(ds, n, k, Capacity(count))
        && (forall i :: 0 <= i < |ds| ==> (i < n <==> ds[i].offset <= offset))
        && Decoded(DIRENT, ds[n..k], page.value, [])
        && |page.value| <= count && HEADER + |page.value| <= msize
        && (k < |ds| ==> count < |page.value| + Size(ds[k]) || msize < HEADER + |page.value| + Size(ds[k]))
    {
      hide Total, DirentFits, Fills, Page, Cached;
      if dirents.None? { return None, 0, 0; }
      var ds, first := dirents.value, 0;
      while first < |ds| && ds[first].offset <= offset
        invariant 0 <= first <= |ds|
        invariant forall i :: 0 <= i < first ==> ds[i].offset <= offset
      {
        first := first + 1;
      }
      n := first;
      forall i | n <= i < |ds| ensures offset < ds[i].offset {
        if n < i { OffsetsGrow(ds, n, i); }
      }
      var bytes;
      k, bytes := FillPage(ds, first, Capacity(count));
      SliceFits(ds, n, k);
      PageDecodes(ds[n..k], []);
      assert bytes + [] == bytes;
      return Some(bytes), n, k;
    }

    /** A request: the directory is read at offset 0 only, so later pages come from the same entries. */
    method Readdir(listing: seq<Dirent>, offset: nat, count: nat)
      returns (page: Option<seq<Byte>>, ghost n: nat, ghost k: nat)
      requires Valid() && (offset == 0 ==> Listable(listing))
      modifies this`dirents
      ensures Valid()
      ensures if offset == 0 then dirents.Some? && Relisted(listing, dirents.value) else dirents == old(dirents)
      ensures page.None? <==> dirents.None?
      ensures page.Some? ==>
        var ds := dirents.value;
        && n <= k <= |ds| && Fills(ds, n, k, Capacity(count))
        && (forall i :: 0 <= i < |ds| ==> (i < n <==> ds[i].offset <= offset))
        && Decoded(DIRENT, ds[n..k], page.value, [])
        && |page.value| <= count && HEADER + |page.value| <= msize
        && (k < |ds| ==> count < |page.value| + Size(ds[k]) || msize < HEADER + |page.value| + Size(ds[k]))
    {
      hide *;
      if offset == 0 {
        ReadDirectory(listing);
      }
      page, n, k := GetPage(offset, count);
    }

    method FillPage(ds: seq<Dirent>, n: nat, cap: nat) returns (ghost last: nat, page: seq<Byte>)
      requires Cached(ds) && n <= |ds|
      ensures Fills(ds, n, last, cap) && n <= last <= |ds| && page == Page(ds[n..last]) && |page| <= cap
      ensures last < |ds| ==> cap < |page| + Size(ds[last])
    {
      hide Total, DirentFits;
      var k := n;
      page := [];
      while k < |ds| && Size(ds[k]) <= cap - |page|
        invariant n <= k <= |ds| && page == Page(ds[n..k])
        invariant |page| == Total(ds[..k]) - Total(ds[..n]) <= cap
      {
        hide Page, Cached;
        page := PutEntry(ds, n, k, page);
        TotalStep(ds, k);
        k := k + 1;
      }
      if k < |ds| { TotalStep(ds, k); }
      last := k;
    }

    method PutEntry(ds: seq<Dirent>, ghost n: nat, k: nat, page: seq<Byte>) returns (longer: seq<Byte>)
      requires Cached(ds) && n <= k < |ds| && page == Page(ds[n..k])
      ensures longer == Page(ds[n..k + 1]) && |longer| == |page| + Size(ds[k])
    {
      SizeIsByteSize(ds[k]);
      EncodedLength(DirentValue(ds[k]), DIRENT);
      assert ds[n..k + 1][..k - n] == ds[n..k];
      longer := page + Encode(DirentValue(ds[k]), DIRENT);
    }
  }

  /** The same entries, apart from their offsets. */
  ghost predicate Relisted(listing: seq<Dirent>, ds: seq<Dirent>) {
    |ds| == |listing| && forall i :: 0 <= i < |ds| ==> ds[i] == listing[i].(offset := ds[i].offset)
  }

  /** Offsets and names fit their fields. */
  ghost predicate Listable(listing: seq<Dirent>) {
    forall i :: 0 <= i < |listing| ==> DirentFits(listing[i].(offset := Total(listing[..i + 1])))
  }

  lemma ListableAt(listing: seq<Dirent>, i: nat)
    requires Listable(listing) && i < |listing|
    ensures DirentFits(listing[i].(offset := Total(listing[..i + 1])))
  {}

  lemma ListingBegins(listing: seq<Dirent>)
    ensures Total(listing[..0]) == Total([]) == 0 && Cached([]) && Relisted(listing[..0], [])
  {}

  lemma RelistedNext(listing: seq<Dirent>, i: nat, ds: seq<Dirent>, d: Dirent)
    requires i < |listing| && Relisted(listing[..i], ds) && d == listing[i].(offset := d.offset)
    ensures Relisted(listing[..i + 1], ds + [d])
  {}

  lemma CachedNext(ds: seq<Dirent>, d: Dirent)
    requires Cached(ds) && DirentFits(d) && d.offset == Total(ds) + Size(d)
    ensures Cached(ds + [d]) && Total(ds + [d]) == Total(ds) + Size(d)
  {
    assert (ds + [d])[..|ds|] == ds;
    forall i | 0 <= i < |ds + [d]| ensures (ds + [d])[i].offset == Total((ds + [d])[..i + 1]) {
      if i < |ds| {
        assert (ds + [d])[..i + 1] == ds[..i + 1];
      } else {
        assert (ds + [d])[..i + 1] == ds + [d];
      }
    }
  }

  // ----- The client -----

  /** How far entries go that each fit a page. */
  ghost function FirstTooLarge(ds: seq<Dirent>, cap: nat): (k: nat)
    ensures k <= |ds| && (forall i :: 0 <= i < k ==> Size(ds[i]) <= cap) && (k < |ds| ==> cap < Size(ds[k]))
  {
    if ds == [] || cap < Size(ds[0]) then 0 else 1 + FirstTooLarge(ds[1..], cap)
  }

  /** An entry as a client reads it from a decoded value. */
  function DirentOf(v: Value): Option<Dirent> {
    match v
    case Many(Cons(Many(Cons(Number(ty), Cons(Number(version), Cons(Number(path), Nil)))),
              Cons(Number(offset), Cons(Number(kind), Cons(Bytes(name), Nil))))) =>
      Some(Dirent(Qid(ty, version, path), offset, kind, name))
    case _ => None
  }

  /** A page that decodes to some entries starts with the first, and is empty exactly if there are none. */
  lemma FirstDecoded(ds: seq<Dirent>, page: seq<Byte>)
    requires Decoded(DIRENT, ds, page, [])
    ensures page == [] <==> ds == []
    ensures ds != [] ==>
      var d := Decode(DIRENT, page);
      d.Some? && DirentOf(d.value.result) == Some(ds[0]) && Decoded(DIRENT, ds[1..], d.value.left, [])
  {
    if ds != [] && page == [] {
      assert ReadUInt(1, page).None?;
      assert DecodeFields(QID.fields, page).None?;
      assert Decode(QID, page).None?;
    }
  }

  /** The client's side: entry after entry, to the end of the page. */
  method DecodePage(page: seq<Byte>, ghost ds: seq<Dirent>) returns (entries: seq<Dirent>)
    requires Decoded(DIRENT, ds, page, [])
    ensures entries == ds
  {
    hide *;
    entries := [];
    var left := page;
    assert ds[0..] == ds;
    while left != []
      invariant |entries| <= |ds| && entries == ds[..|entries|]
      invariant Decoded(DIRENT, ds[|entries|..], left, [])
      decreases |ds| - |entries|
    {
      FirstDecoded(ds[|entries|..], left);
      var d := Decode(DIRENT, left).value;
      assert ds[|entries|..][1..] == ds[|entries| + 1..];
      entries, left := entries + [DirentOf(d.result).value], d.left;
    }
    FirstDecoded(ds[|entries|..], left);
  }

  /**
   Asks for pages from offset 0, each time after the last entry received, until one is empty.
   However the directory changes meanwhile, the client gets every entry of the first listing once
   and in order, up to the first that is too large for a page: all of them exactly when none is.
   */
  method ReadAll(server: Server, listing: seq<Dirent>, later: seq<Dirent>, count: nat) returns (got: seq<Dirent>)
    requires server.Valid() && Listable(listing)
    modifies server`dirents
    ensures server.Valid() && server.dirents.Some? && Relisted(listing, server.dirents.value)
    ensures |got| <= |listing| && got == server.dirents.value[..|got|]
    ensures forall i :: 0 <= i < |got| ==> Size(listing[i]) <= count && HEADER + Size(listing[i]) <= server.msize
    ensures |got| < |listing| ==> count < Size(listing[|got|]) || server.msize < HEADER + Size(listing[|got|])
  {
    hide *;
    ghost var n, k: nat;
    var page;
    page, n, k := server.Readdir(listing, 0, count);
    ghost var ds, cap := server.dirents.value, server.Capacity(count);
    ListingBegins(ds);
    ValidCached(server);
    NextPage(ds, 0, 0, n, k, cap);
    var entries := DecodePage(page.value, ds[n..k]);
    got := entries;
    while entries != []
      invariant server.Valid() && server.dirents == Some(ds) && server.Capacity(count) == cap
      invariant 0 <= n <= k <= |ds| && got == ds[..k] && entries == ds[n..k]
      invariant n < k ==> ds[k - 1].offset == Total(ds[..k])
      invariant forall i :: 0 <= i < k ==> Size(ds[i]) <= cap
      invariant n == k ==> k == FirstTooLarge(ds, cap)
      decreases |ds| - n
    {
      var offset := entries[|entries| - 1].offset;
      ghost var at := k;
      SomethingBefore(ds, at);
      page, n, k := server.Readdir(later, offset, count);
      ValidCached(server);
      NextPage(ds, at, offset, n, k, cap);
      assert ds[..at] + ds[at..k] == ds[..k];
      entries := DecodePage(page.value, ds[n..k]);
      got := got + entries;
    }
    FirstTooLargeIs(listing, ds, server.msize, count, cap);
  }

  /** A file whose name is as long as a file system allows. */
  function LongName(): (d: Dirent)
    ensures |d.name| == 255
  {
    Dirent(Qid(0, 0, 1), 0, 8, seq(255, _ => 0x61))
  }

  lemma {:induction false} AsciiIsUtf8(s: seq<Byte>)
    requires forall i :: 0 <= i < |s| ==> s[i] < 0x80
    ensures IsUtf8(s)
  {
    if s != [] { AsciiIsUtf8(s[1..]); }
  }

  /**
   With the smallest message size a server accepts, a directory with one such file reads as empty
   through ReadAll: the entry is larger than any page.
   */
  lemma LongNameUnread(server: Server, count: nat, ds: seq<Dirent>)
    requires server.Valid() && server.msize == MIN_MESSAGE_SIZE && Relisted([LongName()], ds)
    ensures Listable([LongName()])
    ensures ds[..FirstTooLarge(ds, server.Capacity(count))] == []
  {
    var d := LongName();
    AsciiIsUtf8(d.name);
    hide IsUtf8;
    TotalStep([d], 0);
    assert Power(0x100, 1) == 0x100 && 0x100 <= Power(0x100, 4) by { Powers(); }
    PowerGrows(0x100, 4, 8);
    assert DirentFits(d.(offset := Total([d][..1])));
  }

  lemma SomethingBefore(ds: seq<Dirent>, at: nat)
    requires 0 < at <= |ds|
    ensures 0 < Total(ds[..at])
  {
    TotalGrows(ds, 0, at);
  }

  lemma ValidCached(server: Server)
    requires server.Valid() && server.dirents.Some?
    ensures Cached(server.dirents.value)
  {}

  lemma FirstTooLargeIs(listing: seq<Dirent>, ds: seq<Dirent>, msize: nat, count: nat, cap: nat)
    requires Relisted(listing, ds)
    requires cap <= count && cap + HEADER <= msize && (cap == count || cap + HEADER == msize)
    ensures var k := FirstTooLarge(ds, cap);
      && k <= |listing| && |ds[..k]| == k
      && (forall i :: 0 <= i < k ==> Size(listing[i]) <= count && HEADER + Size(listing[i]) <= msize)
      && (k < |listing| ==> count < Size(listing[k]) || msize < HEADER + Size(listing[k]))
  {
    assert forall i :: 0 <= i < |ds| ==> Size(ds[i]) == Size(listing[i]);
  }

  /** A page starts where the last one ended, and is empty only if the next entry is too large or there is none. */
  lemma NextPage(ds: seq<Dirent>, at: nat, offset: nat, n: nat, k: nat, cap: nat)
    requires Cached(ds) && at <= |ds| && offset == Total(ds[..at]) && n <= |ds|
    requires forall i :: 0 <= i < |ds| ==> (i < n <==> ds[i].offset <= offset)
    requires Fills(ds, n, k, cap)
    requires forall i :: 0 <= i < at ==> Size(ds[i]) <= cap
    ensures n == at
    ensures forall i :: 0 <= i < k ==> Size(ds[i]) <= cap
    ensures k == at ==> at == FirstTooLarge(ds, cap)
    ensures at < k ==> ds[k - 1].offset == Total(ds[..k])
  {
    SamePlace(ds, at, offset, n);
    hide Total;
    forall i | at <= i < k ensures Size(ds[i]) <= cap {
      PartOfPage(ds, at, i, k);
    }
    if k < |ds| { TotalStep(ds, k); }
  }

  lemma SamePlace(ds: seq<Dirent>, at: nat, offset: nat, n: nat)
    requires Cached(ds) && at <= |ds| && offset == Total(ds[..at]) && n <= |ds|
    requires forall i :: 0 <= i < |ds| ==> (i < n <==> ds[i].offset <= offset)
    ensures n == at
  {
    hide Total, DirentFits;
    if n < at {
      assert offset < ds[n].offset;
      if n + 1 < at { TotalGrows(ds, n + 1, at); }
    } else if at < n {
      assert ds[at].offset <= offset;
      TotalGrows(ds, at, at + 1);
    }
  }

  lemma PartOfPage(ds: seq<Dirent>, at: nat, i: nat, k: nat)
    requires at <= i < k <= |ds|
    ensures Size(ds[i]) <= Total(ds[..k]) - Total(ds[..at])
  {
    hide Total;
    TotalStep(ds, i);
    if at < i { TotalGrows(ds, at, i); }
    if i + 1 < k { TotalGrows(ds, i + 1, k); }
  }
}
