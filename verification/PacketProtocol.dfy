/**
 Packets over a ring, byte by byte: a four-byte little-endian length before every payload.

 The writer and the reader of RingProtocol each run the code of a packet ring, and every access
 to shared memory is still a step of its own.  So a packet may be taken while the next one is
 half written.
 */
module PacketProtocol {
  import opened Basics
  import opened Endian
  import opened RingProtocol

  /** A payload shorter than any ring the header can describe. */
  type Packet = p: seq<Byte> | |p| < U32_SIZE

  function Encode(p: Packet): (b: seq<Byte>)
    ensures |b| == 4 + |p|
  {
    Le32(|p|) + p
  }

  function EncodeAll(ps: seq<Packet>): (b: seq<Byte>) {
    if ps == [] then [] else Encode(ps[0]) + EncodeAll(ps[1..])
  }

  lemma {:induction false} EncodeAllSplits(a: seq<Packet>, b: seq<Packet>)
    ensures EncodeAll(a + b) == EncodeAll(a) + EncodeAll(b)
  {
    if a == [] {
      assert a + b == b;
    } else {
      var rest := a[1..];
      EncodeAllSplits(rest, b);
      assert (a + b)[0] == a[0] && (a + b)[1..] == rest + b;
      assert EncodeAll(a + b) == Encode(a[0]) + EncodeAll(rest + b);
      Associate(Encode(a[0]), EncodeAll(rest), EncodeAll(b));
    }
  }

  lemma EncodeOne(p: Packet)
    ensures EncodeAll([p]) == Encode(p)
  {
    assert [p][1..] == [];
    assert EncodeAll([p]) == Encode(p) + EncodeAll([]);
  }

  lemma AppendPacket(written: seq<Packet>, announced: nat, p: Packet)
    requires announced <= |written|
    ensures EncodeAll(written + [p]) == EncodeAll(written) + Encode(p)
    ensures (written + [p])[..announced] == written[..announced]
  {
    hide Encode, EncodeAll;
    EncodeAllSplits(written, [p]);
    EncodeOne(p);
  }

  /** What the published part holds behind the receiver. */
  lemma NextPacket(written: seq<Packet>, announced: nat, n: nat)
    requires n <= announced <= |written|
    ensures |EncodeAll(written[..n])| <= |EncodeAll(written[..announced])| <= |EncodeAll(written)|
    ensures n == announced ==> |EncodeAll(written[..n])| == |EncodeAll(written[..announced])|
    ensures n < announced ==>
      var p, at := written[n], |EncodeAll(written[..n])|;
      && |EncodeAll(written[..n + 1])| == at + 4 + |p| <= |EncodeAll(written[..announced])|
      && EncodeAll(written)[at..at + 4] == Le32(|p|) && EncodeAll(written)[at + 4..at + 4 + |p|] == p
  {
    hide EncodeAll, Le32;
    Longer(written, n, announced);
    Longer(written, announced, |written|);
    assert written[..|written|] == written;
    if n < announced {
      Longer(written, n + 1, announced);
      assert written[..n + 1] == written[..n] + [written[n]];
      AppendPacket(written[..n], 0, written[n]);
      PacketBytes(written, n);
    }
  }

  lemma Longer(written: seq<Packet>, a: nat, b: nat)
    requires a <= b <= |written|
    ensures |EncodeAll(written[..a])| <= |EncodeAll(written[..b])|
  {
    assert written[..b] == written[..a] + written[a..b];
    EncodeAllSplits(written[..a], written[a..b]);
  }

  lemma PacketBytes(written: seq<Packet>, n: nat)
    requires n < |written|
    ensures var p, at, all := written[n], |EncodeAll(written[..n])|, EncodeAll(written);
      && at + 4 + |p| <= |all| && all[at..at + 4] == Le32(|p|) && all[at + 4..at + 4 + |p|] == p
  {
    var before, p, after := written[..n], written[n], written[n + 1..];
    hide Le32;
    assert written == before + [p] + after;
    EncodeAllSplits(before + [p], after);
    EncodeAllSplits(before, [p]);
    EncodeOne(p);
    hide EncodeAll;
    Slices(EncodeAll(before), Le32(|p|), p, EncodeAll(after));
  }

  lemma Slices(a: seq<Byte>, l: seq<Byte>, p: seq<Byte>, b: seq<Byte>)
    requires |l| == 4
    ensures var all := a + (l + p) + b;
      |all| >= |a| + 4 + |p| && all[|a|..|a| + 4] == l && all[|a| + 4..|a| + 4 + |p|] == p
  {}

  // ----- Both sides -----

  /** Where the writer is in PacketRingBuffer::write. */
  datatype Sending = NoPacket | Heading(p: Packet) | Between(p: Packet) | Filling(p: Packet)

  /** Where the reader is in poll and read_into: `n` is the length the header says. */
  datatype Receiving = Away | Peeking | Known(n: nat) | Past(n: nat) | Taking(n: nat)

  datatype Link = Link(
    ring: State,
    sending: Sending,
    written: seq<Packet>,       // packets written whole
    announced: nat,             // how many of them are published
    seen: nat,                  // how many of those the reader's last poll covers
    receiving: Receiving,
    received: seq<seq<Byte>>)

  datatype Act =
    | PollRoom | StartHeader(p: Packet) | StoreNext | EndHeader | StartPayload | EndPayload | Announce
    | PollBytes | StartPeek | LoadNext | Decode | Forget | SkipHeader | StartTake | EndTake | GiveBack

  /** What the code of the two sides checks before an act, and where it stands then. */
  ghost predicate Ready(l: Link, act: Act) {
    match act
    case PollRoom => l.sending.NoPacket?
    case StartHeader(p) => l.sending.NoPacket? && 4 + |p| <= Room(l.ring)
    case StoreNext => l.ring.writing.Writing? && l.ring.writing.stored < |l.ring.writing.data|
    case EndHeader => l.sending.Heading? && WriteComplete(l.ring)
    case StartPayload => l.sending.Between?
    case EndPayload => l.sending.Filling? && WriteComplete(l.ring)
    case Announce => l.sending.NoPacket?
    case PollBytes => l.receiving.Away? || l.receiving.Known?
    case StartPeek => l.receiving.Away? && 4 <= l.ring.seenW - l.ring.privR
    case LoadNext => l.ring.reading.Reading? && |l.ring.reading.got| < l.ring.reading.n
    case Decode => l.receiving.Peeking? && ReadComplete(l.ring)
    case Forget => l.receiving.Known?
    case SkipHeader => l.receiving.Known? && l.receiving.n <= l.ring.seenW - l.ring.privR - 4
    case StartTake => l.receiving.Past?
    case EndTake => l.receiving.Taking? && ReadComplete(l.ring)
    case GiveBack => l.ring.reading.NotReading?
  }

  predicate WriteComplete(s: State) {
    s.writing.Writing? && s.writing.stored == |s.writing.data|
  }

  predicate ReadComplete(s: State) {
    s.reading.Reading? && |s.reading.got| == s.reading.n
  }

  /** The access to the ring that an act is; giving up on a header is none. */
  ghost function StepOf(l: Link, act: Act): Option<Step>
    requires Ready(l, act)
  {
    match act
    case PollRoom => Some(PollWrite)
    case StartHeader(p) => Some(BeginWrite(Le32(|p|)))
    case StoreNext => Some(StoreByte)
    case EndHeader => Some(EndWrite)
    case StartPayload => Some(BeginWrite(l.sending.p))
    case EndPayload => Some(EndWrite)
    case Announce => Some(PublishWrite)
    case PollBytes => Some(PollRead)
    case StartPeek => Some(BeginRead(4))
    case LoadNext => Some(LoadByte)
    case Decode => Some(EndPeek)
    case Forget => None
    case SkipHeader => Some(Skip(4))
    case StartTake => Some(BeginRead(l.receiving.n))
    case EndTake => Some(EndRead)
    case GiveBack => Some(PublishRead)
  }

  /** What an act does to the places of the two sides and to the packets. */
  ghost function Moved(l: Link, act: Act): Link
    requires Ready(l, act)
  {
    match act
    case StartHeader(p) => l.(sending := Heading(p))
    case EndHeader => l.(sending := Between(l.sending.p))
    case StartPayload => l.(sending := Filling(l.sending.p))
    case EndPayload => l.(sending := NoPacket, written := l.written + [l.sending.p])
    case Announce => l.(announced := |l.written|)
    case PollBytes => l.(seen := l.announced)
    case StartPeek => l.(receiving := Peeking)
    case Decode => l.(receiving := Known(FromHeader(l.ring.reading.got)))
    case Forget => l.(receiving := Away)
    case SkipHeader => l.(receiving := Past(l.receiving.n))
    case StartTake => l.(receiving := Taking(l.receiving.n))
    case EndTake => l.(receiving := Away, received := l.received + [l.ring.reading.got])
    case _ => l
  }

  function FromHeader(b: seq<Byte>): nat {
    if |b| == 4 then FromLe32(b) else 0
  }

  // ----- What holds between any two accesses -----

  /** What the stream holds behind the packets written whole. */
  function Extra(s: Sending): seq<Byte> {
    if s.Between? || s.Filling? then Le32(|s.p|) else []
  }

  ghost predicate WriterOk(l: Link) {
    match l.sending
    case NoPacket => l.ring.writing.NotWriting?
    case Heading(p) => l.ring.writing.Writing? && l.ring.writing.data == Le32(|p|) && 4 + |p| <= Room(l.ring)
    case Between(p) => l.ring.writing.NotWriting? && |p| <= Room(l.ring)
    case Filling(p) => l.ring.writing.Writing? && l.ring.writing.data == p
  }

  ghost predicate Next(l: Link, n: nat) {
    |l.received| < l.seen <= |l.written| && n == |l.written[|l.received|]|
  }

  ghost predicate ReaderOk(l: Link)
    requires |l.received| <= |l.written|
  {
    var at := |EncodeAll(l.written[..|l.received|])|;
    match l.receiving
    case Away => l.ring.reading.NotReading? && l.ring.privR == at
    case Peeking => l.ring.reading.Reading? && l.ring.reading.n == 4 && l.ring.privR == at && |l.received| < l.seen
    case Known(n) => l.ring.reading.NotReading? && l.ring.privR == at && Next(l, n)
    case Past(n) => l.ring.reading.NotReading? && l.ring.privR == at + 4 && Next(l, n)
    case Taking(n) =>
      l.ring.reading.Reading? && l.ring.reading.n == n && l.ring.privR == at + 4 && Next(l, n)
  }

  /**
   The stream is whole packets, and the header of the next one once that is written.  Published and
   polled offsets lie between packets.  The reader has taken the first packets and stands right
   behind, or behind the next one's header.
   */
  ghost predicate Framed(l: Link) {
    && Inv(l.ring) && l.ring.size <= U32_SIZE
    && l.ring.stream == EncodeAll(l.written) + Extra(l.sending)
    && |l.received| <= l.seen <= l.announced <= |l.written|
    && l.ring.pubW == |EncodeAll(l.written[..l.announced])|
    && l.ring.seenW == |EncodeAll(l.written[..l.seen])|
    && l.received == l.written[..|l.received|]
    && WriterOk(l) && ReaderOk(l)
  }

  lemma SliceOfStream(l: Link, a: nat, b: nat)
    requires Framed(l) && a <= b <= |EncodeAll(l.written)|
    ensures b <= |l.ring.stream| && l.ring.stream[a..b] == EncodeAll(l.written)[a..b]
  {
    hide EncodeAll, Extra;
  }

  /** The next packet is in the stream whole, within what the reader has polled. */
  lemma NextIsThere(l: Link)
    requires Framed(l) && |l.received| < l.seen
    ensures var p, at := l.written[|l.received|], |EncodeAll(l.written[..|l.received|])|;
      && at + 4 + |p| <= l.ring.seenW <= |l.ring.stream|
      && l.ring.stream[at..at + 4] == Le32(|p|) && l.ring.stream[at + 4..at + 4 + |p|] == p
      && |EncodeAll(l.written[..|l.received| + 1])| == at + 4 + |p|
  {
    hide EncodeAll, Inv, WriterOk, ReaderOk, Extra, Le32;
    var p, at := l.written[|l.received|], |EncodeAll(l.written[..|l.received|])|;
    NextPacket(l.written, l.seen, |l.received|);
    SliceOfStream(l, at, at + 4);
    SliceOfStream(l, at + 4, at + 4 + |p|);
  }

  /** Four bytes polled are a header, and the whole packet is behind it. */
  lemma BytesArePackets(l: Link)
    requires Framed(l) && l.receiving.Away? && 4 <= l.ring.seenW - l.ring.privR
    ensures |l.received| < l.seen
  {
    hide EncodeAll, Inv, WriterOk;
    NextPacket(l.written, l.seen, |l.received|);
  }

  /** The comparison with the length in a header never fails: only whole packets are published. */
  lemma KnownIsThere(l: Link)
    requires Framed(l) && l.receiving.Known?
    ensures l.receiving.n <= l.ring.seenW - l.ring.privR - 4
  {
    NextIsThere(l);
  }

  /** No access is one the ring forbids: there is room for the payload, and the payload to be read is there. */
  lemma ReadyEnabled(l: Link, act: Act)
    requires Framed(l) && Ready(l, act)
    ensures 0 < l.ring.size == |l.ring.buf|
    ensures var step := StepOf(l, act); step.Some? ==> Enabled(l.ring, step.value)
  {
    hide EncodeAll, Extra, InPlace, WriteInProgress, ReadInProgress, Le32;
    if act.StartTake? { PayloadIsThere(l); }
  }

  lemma PayloadIsThere(l: Link)
    requires Framed(l) && l.receiving.Past?
    ensures l.receiving.n <= l.ring.seenW - l.ring.privR
  {
    NextIsThere(l);
  }

  /** An act with its access to the ring.  One that the ring forbids would not be made; there is none. */
  ghost function Perform(l: Link, act: Act): Link
    requires Ready(l, act)
  {
    var step := StepOf(l, act);
    if step.None? then Moved(l, act)
    else if 0 < l.ring.size == |l.ring.buf| && Enabled(l.ring, step.value) then
      Moved(l, act).(ring := Apply(l.ring, step.value))
    else l
  }

  lemma RingKeeps(l: Link, act: Act)
    requires Framed(l) && Ready(l, act)
    ensures Inv(Perform(l, act).ring)
  {
    ReadyEnabled(l, act);
    hide Inv, EncodeAll, WriterOk, ReaderOk, Ready, Enabled;
    var step := StepOf(l, act);
    if step.Some? { StepKeepsInv(l.ring, step.value); }
  }

  /** The reader's view of the packets does not change when one more is written. */
  lemma GrowKeepsReader(l: Link, p: Packet)
    requires Framed(l)
    ensures (l.written + [p])[..l.announced] == l.written[..l.announced]
    ensures (l.written + [p])[..l.seen] == l.written[..l.seen]
    ensures (l.written + [p])[..|l.received|] == l.written[..|l.received|]
    ensures ReaderOk(l.(written := l.written + [p]))
  {
    hide EncodeAll, Inv, WriterOk, Extra;
    assert (l.written + [p])[..|l.received|] == l.written[..|l.received|];
  }

  lemma EndPayloadKeeps(l: Link)
    requires Framed(l) && Ready(l, EndPayload)
    ensures Framed(Perform(l, EndPayload))
  {
    var p := l.sending.p;
    RingKeeps(l, EndPayload);
    GrowKeepsReader(l, p);
    hide EncodeAll, Inv, Le32;
    AppendPacket(l.written, 0, p);
    Associate(EncodeAll(l.written), Le32(|p|), p);
    assert EncodeAll(l.written + [p]) + [] == EncodeAll(l.written + [p]);
  }

  lemma EndHeaderKeeps(l: Link)
    requires Framed(l) && Ready(l, EndHeader)
    ensures Framed(Perform(l, EndHeader))
  {
    RingKeeps(l, EndHeader);
    hide EncodeAll, Inv;
    assert EncodeAll(l.written) + [] == EncodeAll(l.written);
  }

  lemma AnnounceKeeps(l: Link)
    requires Framed(l) && Ready(l, Announce)
    ensures Framed(Perform(l, Announce))
  {
    RingKeeps(l, Announce);
    hide EncodeAll;
    assert l.written[..|l.written|] == l.written;
    assert EncodeAll(l.written) + [] == EncodeAll(l.written);
  }

  lemma WriterKeeps(l: Link, act: Act)
    requires Framed(l) && Ready(l, act)
    requires act.PollRoom? || act.StartHeader? || act.StoreNext? || act.StartPayload?
    ensures Framed(Perform(l, act))
  {
    RingKeeps(l, act);
    hide EncodeAll, InPlace, ReadInProgress, Le32;
  }

  /** What has been loaded is the stream's. */
  lemma GotStream(l: Link)
    requires Framed(l) && ReadComplete(l.ring)
    ensures l.ring.privR + l.ring.reading.n <= |l.ring.stream|
    ensures l.ring.reading.got == l.ring.stream[l.ring.privR..l.ring.privR + l.ring.reading.n]
  {
    hide EncodeAll, InPlace, WriteInProgress, Extra, WriterOk, ReaderOk;
  }

  lemma GotHeader(l: Link)
    requires Framed(l) && Ready(l, Decode)
    ensures |l.received| < l.seen && FromHeader(l.ring.reading.got) == |l.written[|l.received|]|
  {
    hide EncodeAll, Inv, FromLe32, Le32, WriterOk, Extra;
    NextIsThere(l);
    GotStream(l);
    Le32RoundTrip(|l.written[|l.received|]|);
  }

  lemma GotPayload(l: Link)
    requires Framed(l) && Ready(l, EndTake)
    ensures |l.received| < l.seen && l.ring.reading.got == l.written[|l.received|]
    ensures l.ring.privR + l.ring.reading.n == |EncodeAll(l.written[..|l.received| + 1])|
  {
    hide EncodeAll, Inv, Le32, WriterOk, Extra;
    NextIsThere(l);
    GotStream(l);
  }

  lemma DecodeKeeps(l: Link)
    requires Framed(l) && Ready(l, Decode)
    ensures Framed(Perform(l, Decode))
  {
    hide EncodeAll, Inv, Le32, FromHeader, WriterOk, Extra;
    RingKeeps(l, Decode);
    ReadyEnabled(l, Decode);
    GotHeader(l);
    WriterUntouched(l, Perform(l, Decode));
  }

  lemma EndTakeKeeps(l: Link)
    requires Framed(l) && Ready(l, EndTake)
    ensures Framed(Perform(l, EndTake))
  {
    hide EncodeAll, Inv, Le32, WriterOk, Extra;
    RingKeeps(l, EndTake);
    ReadyEnabled(l, EndTake);
    GotPayload(l);
    WriterUntouched(l, Perform(l, EndTake));
    assert l.written[..|l.received| + 1] == l.written[..|l.received|] + [l.written[|l.received|]];
  }

  lemma WriterUntouched(l: Link, m: Link)
    requires WriterOk(l) && m.sending == l.sending && m.ring.writing == l.ring.writing
    requires Room(m.ring) == Room(l.ring)
    ensures WriterOk(m)
  {}

  lemma PollBytesKeeps(l: Link)
    requires Framed(l) && Ready(l, PollBytes)
    ensures Framed(Perform(l, PollBytes))
  {
    hide EncodeAll, Inv, Le32, WriterOk, Extra;
    RingKeeps(l, PollBytes);
    ReadyEnabled(l, PollBytes);
    WriterUntouched(l, Perform(l, PollBytes));
  }

  lemma StartTakeKeeps(l: Link)
    requires Framed(l) && Ready(l, StartTake)
    ensures Framed(Perform(l, StartTake))
  {
    hide EncodeAll, Inv, Le32, Enabled, WriterOk, Extra;
    RingKeeps(l, StartTake);
    ReadyEnabled(l, StartTake);
    WriterUntouched(l, Perform(l, StartTake));
  }

  lemma ReaderKeeps(l: Link, act: Act)
    requires Framed(l) && Ready(l, act)
    requires act.LoadNext? || act.Forget? || act.SkipHeader? || act.GiveBack?
    ensures Framed(Perform(l, act))
  {
    hide EncodeAll, Inv, Le32, Enabled, WriterOk, Extra, ReaderOk;
    RingKeeps(l, act);
    ReadyEnabled(l, act);
    WriterUntouched(l, Perform(l, act));
    ReaderMoves(l, act);
  }

  lemma ReaderMoves(l: Link, act: Act)
    requires Framed(l) && Ready(l, act)
    requires act.LoadNext? || act.Forget? || act.SkipHeader? || act.GiveBack?
    ensures ReaderOk(Perform(l, act))
  {
    hide EncodeAll, Inv, Le32, Enabled, WriterOk, Extra;
    ReadyEnabled(l, act);
  }

  lemma StartPeekKeeps(l: Link)
    requires Framed(l) && Ready(l, StartPeek)
    ensures Framed(Perform(l, StartPeek))
  {
    hide EncodeAll, Inv, Le32, WriterOk, Extra;
    RingKeeps(l, StartPeek);
    ReadyEnabled(l, StartPeek);
    BytesArePackets(l);
    WriterUntouched(l, Perform(l, StartPeek));
  }

  /** Every access of either side, at any moment of what the other one does, keeps the packets framed. */
  lemma ActKeeps(l: Link, act: Act)
    requires Framed(l) && Ready(l, act)
    ensures Framed(Perform(l, act))
  {
    hide Framed, Ready, Perform;
    match act
    case EndHeader => EndHeaderKeeps(l);
    case EndPayload => EndPayloadKeeps(l);
    case Announce => AnnounceKeeps(l);
    case Decode => DecodeKeeps(l);
    case EndTake => EndTakeKeeps(l);
    case StartPeek => StartPeekKeeps(l);
    case PollBytes => PollBytesKeeps(l);
    case StartTake => StartTakeKeeps(l);
    case PollRoom => WriterKeeps(l, act);
    case StartHeader(p) => WriterKeeps(l, act);
    case StoreNext => WriterKeeps(l, act);
    case StartPayload => WriterKeeps(l, act);
    case _ => ReaderKeeps(l, act);
  }

  // ----- Runs -----

  ghost predicate Begins(l: Link) {
    && Init(l.ring) && l.ring.size <= U32_SIZE && l.sending.NoPacket? && l.receiving.Away?
    && l.written == [] && l.received == [] && l.announced == l.seen == 0
  }

  /** Accesses of both sides in any order their own code allows. */
  ghost predicate IsRun(links: seq<Link>, acts: seq<Act>) {
    && |links| == |acts| + 1 && Begins(links[0])
    && forall i :: 0 <= i < |acts| ==> Ready(links[i], acts[i]) && links[i + 1] == Perform(links[i], acts[i])
  }

  /** The packets that writing has begun for. */
  function Started(acts: seq<Act>): seq<Packet> {
    if acts == [] then []
    else Started(acts[..|acts| - 1]) + if acts[|acts| - 1].StartHeader? then [acts[|acts| - 1].p] else []
  }

  /** Those written whole and the one in progress. */
  ghost function Begun(l: Link): seq<Packet> {
    l.written + if l.sending.NoPacket? then [] else [l.sending.p]
  }

  lemma ActBegins(l: Link, act: Act)
    requires Framed(l) && Ready(l, act)
    ensures Begun(Perform(l, act)) == Begun(l) + if act.StartHeader? then [act.p] else []
    ensures l.received <= Perform(l, act).received
  {
    ReadyEnabled(l, act);
    hide Inv, EncodeAll, Enabled;
  }

  lemma BeginsFramed(l: Link)
    requires Begins(l)
    ensures Framed(l) && Begun(l) == []
  {}

  /**
   However the two sides are interleaved: no access is one the ring forbids, and the packets taken
   are, whole and in order, the first of those that writing has begun for, all of them published.
   */
  lemma {:induction false} PacketsArrive(links: seq<Link>, acts: seq<Act>, i: nat)
    requires IsRun(links, acts) && i < |links|
    ensures Framed(links[i]) && Begun(links[i]) == Started(acts[..i])
    ensures var l := links[i];
      && |l.received| <= l.announced <= |Started(acts[..i])| && l.received == Started(acts[..i])[..|l.received|]
    ensures forall act :: Ready(links[i], act) ==>
      var step := StepOf(links[i], act); step.Some? ==> Enabled(links[i].ring, step.value)
  {
    hide Framed, Ready, Perform, Begun, Enabled, StepOf;
    if i == 0 {
      BeginsFramed(links[0]);
    } else {
      PacketsArrive(links, acts, i - 1);
      ActKeeps(links[i - 1], acts[i - 1]);
      ActBegins(links[i - 1], acts[i - 1]);
      assert acts[..i][..i - 1] == acts[..i - 1];
    }
    FirstOfBegun(links[i]);
    forall act | Ready(links[i], act)
      ensures var step := StepOf(links[i], act); step.Some? ==> Enabled(links[i].ring, step.value)
    {
      ReadyEnabled(links[i], act);
    }
  }

  lemma FirstOfBegun(l: Link)
    requires Framed(l)
    ensures |l.received| <= l.announced <= |Begun(l)| && l.received == Begun(l)[..|l.received|]
  {
    hide Inv, EncodeAll, WriterOk, ReaderOk;
  }
}
