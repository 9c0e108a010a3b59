/**
 Packets over a ring: a four-byte little-endian length before every payload, and a queue in
 front of the ring for packets that do not fit yet.

 Sender and receiver share the ring's memory and the two published offsets; each has a private
 offset and sees the other's only as it last polled it.  PacketProtocol.Framed holds between any
 two of their calls.
 */
module PacketRing {
  import opened Basics
  import opened Endian
  import opened RingProtocol
  import opened RingMemory
  import opened PacketProtocol

  // ----- Whole calls -----

  /** The state after a whole write call. */
  ghost function Written(st: State, data: seq<Byte>): State
    requires 0 < |st.buf|
  {
    st.(buf := Stored(st.buf, st.privW, data), privW := st.privW + |data|, stream := st.stream + data)
  }

  /** Storing the rest of a write call, byte by byte. */
  lemma StoreAll(l: Link) returns (m: Link)
    requires Framed(l) && l.ring.writing.Writing? && l.ring.writing.stored == 0
    ensures Framed(m) && 0 < |l.ring.buf|
    ensures var data := l.ring.writing.data;
      m == l.(ring := l.ring.(buf := Stored(l.ring.buf, l.ring.privW, data), writing := Writing(data, |data|)))
  {
    var data := l.ring.writing.data;
    var t := StoreSteps(l.ring, |data|);
    assert data[0..] == data;
    hide EncodeAll, Inv, Stored, Extra, Le32;
    m := l.(ring := t);
  }

  lemma HeaderWritten(l: Link, p: Packet)
    requires Framed(l) && l.sending.NoPacket? && 4 + |p| <= Room(l.ring)
    ensures 0 < |l.ring.buf| && Framed(l.(ring := Written(l.ring, Le32(|p|)), sending := Between(p)))
  {
    hide Framed, Stored, Inv, Le32;
    var heading := Perform(l, StartHeader(p));
    ActKeeps(l, StartHeader(p));
    ActIs(l, StartHeader(p));
    var headed := StoreAll(heading);
    ActKeeps(headed, EndHeader);
    ActIs(headed, EndHeader);
    WriterIdle(l);
    assert Perform(headed, EndHeader) == l.(ring := Written(l.ring, Le32(|p|)), sending := Between(p));
  }

  lemma PayloadWritten(l: Link)
    requires Framed(l) && l.sending.Between?
    ensures 0 < |l.ring.buf|
    ensures Framed(l.(ring := Written(l.ring, l.sending.p), sending := NoPacket, written := l.written + [l.sending.p]))
  {
    hide Framed, Stored, Inv;
    var filling := Perform(l, StartPayload);
    ActKeeps(l, StartPayload);
    ActIs(l, StartPayload);
    var filled := StoreAll(filling);
    ActKeeps(filled, EndPayload);
    ActIs(filled, EndPayload);
    WriterIdle(l);
    assert Perform(filled, EndPayload) ==
      l.(ring := Written(l.ring, l.sending.p), sending := NoPacket, written := l.written + [l.sending.p]);
  }

  lemma WriterIdle(l: Link)
    requires Framed(l)
    ensures l.sending.NoPacket? || l.sending.Between? ==> l.ring.writing.NotWriting?
  {}

  /** A packet written whole: its header and its payload are stored and counted one after the other. */
  lemma WriteKeeps(l: Link, p: Packet)
    requires Framed(l) && l.sending.NoPacket? && 4 + |p| <= Room(l.ring)
    ensures 4 + |p| < |l.ring.buf| && l.ring.privR <= |l.ring.stream|
    ensures Framed(l.(ring := Written(Written(l.ring, Le32(|p|)), p), written := l.written + [p]))
  {
    RoomIsBelowSize(l);
    hide Framed, Stored, Le32, Room;
    HeaderWritten(l, p);
    var between := l.(ring := Written(l.ring, Le32(|p|)), sending := Between(p));
    PayloadWritten(between);
    assert between.(ring := Written(between.ring, p), sending := NoPacket, written := l.written + [p]) ==
      l.(ring := Written(Written(l.ring, Le32(|p|)), p), written := l.written + [p]);
  }

  lemma RoomIsBelowSize(l: Link)
    requires Framed(l)
    ensures Room(l.ring) < |l.ring.buf| && l.ring.privR <= |l.ring.stream|
  {}

  /** An act of a framed link is its step on the ring. */
  lemma ActIs(l: Link, act: Act)
    requires Framed(l) && Ready(l, act) && !act.Forget?
    ensures 0 < l.ring.size == |l.ring.buf| && Enabled(l.ring, StepOf(l, act).value)
    ensures Perform(l, act) == Moved(l, act).(ring := Apply(l.ring, StepOf(l, act).value))
  {
    hide Framed, Enabled;
    ReadyEnabled(l, act);
  }

  /** Looking at the header: four bytes are there exactly when a packet is, and they say its length. */
  lemma PeekIsHeader(l: Link)
    requires Framed(l) && l.receiving.Away?
    ensures 4 <= l.ring.seenW - l.ring.privR <==> |l.received| < l.seen
    ensures |l.received| < l.seen ==>
      var n := |l.written[|l.received|]|;
      && 4 < |l.ring.buf| && FromLe32(Loaded(l.ring.buf, l.ring.privR, 4)) == n
      && Framed(l.(receiving := Known(n)))
  {
    if 4 <= l.ring.seenW - l.ring.privR { BytesArePackets(l); }
    if |l.received| < l.seen {
      NextIsThere(l);
      ReadIsStream(l.ring, 4);
      Le32RoundTrip(|l.written[|l.received|]|);
      hide EncodeAll, Le32, FromLe32, Loaded, InPlace;
    }
  }

  lemma PayloadLoaded(l: Link)
    requires Framed(l) && l.receiving.Known?
    ensures var n := l.receiving.n;
      && |l.received| < l.seen <= |l.written| && 4 + n <= l.ring.seenW - l.ring.privR < |l.ring.buf|
      && Loaded(l.ring.buf, l.ring.privR + 4, n) == l.written[|l.received|]
  {
    hide EncodeAll, Loaded, InPlace, ReadInProgress, WriteInProgress, Le32, Extra, WriterOk;
    NextIsThere(l);
    KnownIsThere(l);
    LoadedBehind(l.ring, 4, l.receiving.n);
  }

  lemma LoadedBehind(st: State, k: nat, n: nat)
    requires Inv(st) && st.reading.NotReading? && k + n <= st.seenW - st.privR
    ensures Loaded(st.buf, st.privR + k, n) == st.stream[st.privR + k..st.privR + k + n]
  {
    hide Loaded, Inv;
    RingShaped(st);
    StepKeepsInv(st, Skip(k));
    ReadIsStream(Apply(st, Skip(k)), n);
  }

  /** Taking the packet whose header was looked at: it is there, and comes out whole. */
  lemma TakeIsPacket(l: Link)
    requires Framed(l) && l.receiving.Known?
    ensures var n, p := l.receiving.n, l.written[|l.received|];
      && |l.received| < l.announced && 4 + n <= l.ring.seenW - l.ring.privR < |l.ring.buf|
      && Loaded(l.ring.buf, l.ring.privR + 4, n) == p
      && Framed(l.(ring := Skipped(l.ring, 4 + n), receiving := Away, received := l.received + [p]))
  {
    hide EncodeAll, Loaded, Inv, Le32, Extra, WriterOk;
    PayloadLoaded(l);
    NextIsThere(l);
    RingShaped(l.ring);
    StepKeepsInv(l.ring, Skip(4 + l.receiving.n));
    assert l.written[..|l.received| + 1] == l.written[..|l.received|] + [l.written[|l.received|]];
    var m := l.(ring := Skipped(l.ring, 4 + l.receiving.n), receiving := Away,
                received := l.received + [l.written[|l.received|]]);
    WriterUntouched(l, m);
    assert Inv(m.ring);
  }

  lemma RingShaped(st: State)
    requires Inv(st)
    ensures 0 < st.size == |st.buf| && st.seenW <= |st.stream|
  {
    hide InPlace, WriteInProgress, ReadInProgress;
  }

  lemma InOrder(l: Link)
    requires Framed(l)
    ensures |l.received| <= l.seen <= l.announced <= |l.written|
  {}

  ghost function Skipped(st: State, n: nat): State {
    st.(privR := st.privR + n, received := Truncated(st.stream, st.privR + n))
  }

  // ----- What the calls do, on packets alone -----

  /** Both ends as one: the queue, the packets written and how many are published, and the reader's side. */
  datatype Pipe = Pipe(size: nat, q: seq<Packet>, written: seq<Packet>, announced: nat,
                       received: seq<seq<Byte>>, header: Option<nat>, givenBack: nat)

  ghost predicate Fits(c: Pipe, p: Packet) {
    4 + |p| <= c.size - (|EncodeAll(c.written)| - c.givenBack) - 1
  }

  /** Queued packets move into the ring, oldest first, until one does not fit. */
  ghost function Flushed(c: Pipe): Pipe
    decreases |c.q|
  {
    if c.q == [] || !Fits(c, c.q[0]) then c
    else Flushed(c.(q := c.q[1..], written := c.written + [c.q[0]]))
  }

  lemma FlushedStep(c: Pipe)
    ensures Flushed(c) == if c.q == [] || !Fits(c, c.q[0]) then c
      else Flushed(c.(q := c.q[1..], written := c.written + [c.q[0]]))
  {}

  ghost function Offering(c: Pipe, p: Packet): Pipe {
    if c.q == [] && Fits(c, p) then c.(written := c.written + [p]) else c.(q := c.q + [p])
  }

  ghost function Published(c: Pipe): Pipe {
    c.(announced := |c.written|)
  }

  ghost function LookedAhead(c: Pipe): Pipe {
    c.(header := if |c.received| < c.announced <= |c.written| then Some(|c.written[|c.received|]|) else None)
  }

  ghost function TakenNext(c: Pipe): Pipe {
    if c.header.None? || |c.written| <= |c.received| then c
    else c.(header := None, received := c.received + [c.written[|c.received|]])
  }

  ghost function GivenBack(c: Pipe): Pipe {
    c.(givenBack := |EncodeAll(c.written[..if |c.received| <= |c.written| then |c.received| else 0])|)
  }

  // ----- The endpoints -----

  /** The memory both sides share: the ring and the two published offsets. */
  class Ring {
    const size: nat
    const buf: array<Byte>
    var pubR: nat
    var pubW: nat

    constructor (size: nat)
      requires 0 < size <= U32_SIZE
      ensures this.size == size == buf.Length && fresh(buf) && pubR == pubW == 0
    {
      this.size, pubR, pubW := size, 0, 0;
      buf := new Byte[size](_ => 0);
    }
  }

  /** BufferedPacketRingBuffer, as its owner uses it for sending. */
  class Sender {
    const ring: Ring
    var q: seq<Packet>
    var privW: nat

    /** The reader's offset as last polled, the packets written, and how many of them are published. */
    ghost var seenR: nat
    ghost var written: seq<Packet>
    ghost var announced: nat

    constructor (ring: Ring)
      ensures this.ring == ring && q == written == [] && privW == seenR == announced == 0
    {
      this.ring := ring;
      q, privW, seenR, written, announced := [], 0, 0, [], 0;
    }

    method PollWrite(ghost r: Receiver) returns (room: nat)
      requires Valid(this, r)
      modifies this`seenR
      ensures Valid(this, r) && seenR == ring.pubR && room == Room(StateOf(this, r))
    {
      ActKeeps(LinkOf(this, r), PollRoom);
      ActIs(LinkOf(this, r), PollRoom);
      hide Framed, Inv;
      seenR := ring.pubR;
      room := ring.size - (privW - ring.pubR) - 1;
    }

    /** PacketRingBuffer::write: header and payload, or nothing when there is not room for both. */
    method WritePacket(p: Packet, ghost r: Receiver) returns (ok: bool)
      requires Valid(this, r)
      modifies this`privW, this`written, this`seenR, ring.buf
      ensures Valid(this, r)
      ensures ok <==> 4 + |p| <= ring.size - (old(privW) - ring.pubR) - 1
      ensures ok <==> Fits(old(View(this, r)), p)
      ensures View(this, r) == if ok then old(View(this, r)).(written := old(written) + [p]) else old(View(this, r))
      ensures !ok ==> privW == old(privW) && ring.buf[..] == old(ring.buf[..])
    {
      hide Framed, Stored, Inv;
      WrittenBytes(this, r);
      var room := PollWrite(r);
      if room < 4 + |p| { return false; }
      ghost var st, l := StateOf(this, r), LinkOf(this, r);
      WriteKeeps(l, p);
      WriteBytes(ring.buf, privW, Le32(|p|));
      privW := privW + 4;
      WriteBytes(ring.buf, privW, p);
      privW := privW + |p|;
      StreamGrows(written, p);
      TruncatedGrows(EncodeAll(written), Le32(|p|) + p, r.privR);
      Associate(EncodeAll(written), Le32(|p|), p);
      written := written + [p];
      assert LinkOf(this, r) == l.(ring := Written(Written(st, Le32(|p|)), p), written := l.written + [p]);
      ok := true;
    }

    /** Send queued packets, oldest first, until one does not fit. */
    method FlushTx(ghost r: Receiver) returns (notify: bool)
      requires Valid(this, r)
      modifies this`q, this`privW, this`written, this`seenR, ring.buf
      ensures Valid(this, r)
      ensures written + q == old(written + q) && old(written) <= written
      ensures notify <==> |old(written)| < |written|
      ensures notify <==> old(q) != [] && 4 + |old(q)[0]| <= ring.size - (old(privW) - ring.pubR) - 1
      ensures !notify ==> q == old(q) && privW == old(privW)
      ensures q != [] ==> ring.size - (privW - ring.pubR) - 1 < 4 + |q[0]|
      ensures View(this, r) == Flushed(old(View(this, r)))
    {
      hide Framed, Flushed, Fits, EncodeAll;
      notify := false;
      while q != []
        invariant !notify ==> q == old(q) && privW == old(privW)
        invariant notify ==> old(q) != [] && 4 + |old(q)[0]| <= ring.size - (old(privW) - ring.pubR) - 1
        invariant Valid(this, r)
        invariant written + q == old(written + q) && old(written) <= written
        invariant notify <==> |old(written)| < |written|
        invariant Flushed(View(this, r)) == Flushed(old(View(this, r)))
        decreases |q|
      {
        ghost var c := View(this, r);
        FlushedStep(c);
        var ok := WritePacket(q[0], r);
        if !ok { return; }
        MoveHead(written[..|written| - 1], q);
        q := q[1..];
        notify := true;
        assert View(this, r) == c.(q := c.q[1..], written := c.written + [c.q[0]]);
      }
      FlushedStep(View(this, r));
    }

    /** Publish what has been written. */
    method NotifyWrite(ghost r: Receiver)
      requires Valid(this, r)
      modifies this`announced, ring`pubW
      ensures Valid(this, r) && ring.pubW == privW && announced == |written|
      ensures View(this, r) == Published(old(View(this, r)))
    {
      hide Framed, Inv, EncodeAll;
      ActKeeps(LinkOf(this, r), Announce);
      ActIs(LinkOf(this, r), Announce);
      ring.pubW := privW;
      announced := |written|;
    }

    /** Into the ring if nothing is queued and there is room, and else behind the queue. */
    method Offer(p: Packet, ghost r: Receiver) returns (sent: bool)
      requires Valid(this, r)
      modifies this`q, this`privW, this`written, this`seenR, ring.buf
      ensures Valid(this, r)
      ensures written + q == old(written + q) + [p] && old(written) <= written
      ensures sent <==> |old(written)| < |written|
      ensures sent <==> old(q) == [] && 4 + |p| <= ring.size - (old(privW) - ring.pubR) - 1
      ensures q == (if sent then [] else old(q) + [p]) && (!sent ==> privW == old(privW))
      ensures View(this, r) == Offering(old(View(this, r)), p)
    {
      hide Framed, EncodeAll;
      sent := false;
      if q == [] {
        sent := WritePacket(p, r);
      }
      if !sent {
        Associate(written, q, [p]);
        q := q + [p];
      }
    }

    /** Send a packet behind everything queued. */
    method Tx(p: Packet, ghost r: Receiver) returns (notify: bool)
      requires Valid(this, r)
      modifies this, ring.buf, ring`pubW
      ensures Valid(this, r)
      ensures written + q == old(written + q) + [p] && old(written) <= written
      ensures notify <==> |old(written)| < |written|
      ensures q != [] ==> ring.size - (privW - ring.pubR) - 1 < 4 + |q[0]|
      ensures old(q) == [] && 4 + |p| <= ring.size - (old(privW) - ring.pubR) - 1 ==> q == [] && notify
      ensures if notify then announced == |written| && ring.pubW == privW
        else announced == old(announced) && ring.pubW == old(ring.pubW)
      ensures var c := Offering(Flushed(old(View(this, r))), p);
        View(this, r) == if notify then Published(c) else c
    {
      hide Valid, Flushed, Offering;
      notify := FlushTx(r);
      var sent := Offer(p, r);
      notify := notify || sent;
      if notify {
        NotifyWrite(r);
      }
    }

    /** Room has become available: send what fits and publish it. */
    method TxCallback(ghost r: Receiver) returns (notify: bool)
      requires Valid(this, r)
      modifies this, ring.buf, ring`pubW
      ensures Valid(this, r)
      ensures written + q == old(written + q) && old(written) <= written
      ensures notify <==> |old(written)| < |written|
      ensures notify <==> old(q) != [] && 4 + |old(q)[0]| <= ring.size - (old(privW) - ring.pubR) - 1
      ensures q != [] ==> ring.size - (privW - ring.pubR) - 1 < 4 + |q[0]|
      ensures if notify then announced == |written| && ring.pubW == privW
        else announced == old(announced) && ring.pubW == old(ring.pubW)
      ensures var c := Flushed(old(View(this, r))); View(this, r) == if notify then Published(c) else c
    {
      hide Valid, Flushed;
      notify := FlushTx(r);
      if notify {
        NotifyWrite(r);
      }
    }
  }

  /** BufferedPacketRingBuffer, as the other side uses it for receiving. */
  class Receiver {
    const ring: Ring
    var privR: nat
    var received: seq<seq<Byte>>
    var header: Option<nat>        // the length read by poll, until the packet is taken

    /** The writer's offset as last polled, and the packets published by then. */
    ghost var seenW: nat
    ghost var seen: nat

    constructor (ring: Ring)
      ensures this.ring == ring && privR == seenW == seen == 0 && received == [] && header == None
    {
      this.ring := ring;
      privR, received, header, seenW, seen := 0, [], None, 0, 0;
    }

    /**
     PacketRingBuffer::poll: looks at the header of the next packet, if one has been published, and
     polls again for the rest of it.
     */
    method Poll(ghost s: Sender)
      requires Valid(s, this)
      modifies this`header, this`seenW, this`seen
      ensures Valid(s, this)
      ensures header == if |received| < s.announced then Some(|s.written[|received|]|) else None
      ensures View(s, this) == LookedAhead(old(View(s, this)))
    {
      hide Framed, Inv, Loaded, FromLe32;
      if header.Some? { ActKeeps(LinkOf(s, this), Forget); }
      header := None;
      ActKeeps(LinkOf(s, this), PollBytes);
      ActIs(LinkOf(s, this), PollBytes);
      seenW, seen := ring.pubW, s.announced;
      InOrder(LinkOf(s, this));
      PeekIsHeader(LinkOf(s, this));
      if 4 <= ring.pubW - privR {
        var bytes := PeekBytes(ring.buf, privR, 4);
        var n := FromLe32(bytes);
        ghost var known := LinkOf(s, this).(receiving := Known(n));
        KnownIsThere(known);
        if n > ring.pubW - privR - 4 {
          assert false;
        }
        header := Some(n);
      }
    }

    /** The rest of read, after a poll: skip the header, read and skip the payload. */
    method Take(ghost s: Sender) returns (p: Option<seq<Byte>>)
      requires Valid(s, this)
      modifies this`privR, this`received, this`header
      ensures Valid(s, this) && header == None
      ensures if old(header).None? then p == None && received == old(received) && privR == old(privR)
        else |old(received)| < s.announced && p.Some? && p.value == s.written[|old(received)|] &&
             received == old(received) + [p.value]
      ensures View(s, this) == TakenNext(old(View(s, this)))
    {
      hide Framed, Inv, Loaded;
      if header.None? { return None; }
      ghost var l, n := LinkOf(s, this), header.value;
      InOrder(l);
      TakeIsPacket(l);
      privR := privR + 4;
      var bytes := PeekBytes(ring.buf, privR, header.value);
      privR := privR + header.value;
      received := received + [bytes];
      header := None;
      assert LinkOf(s, this) ==
        l.(ring := Skipped(l.ring, 4 + n), receiving := Away, received := l.received + [bytes]);
      p := Some(bytes);
    }

    /** Give the space of what has been read back to the writer. */
    method NotifyRead(ghost s: Sender)
      requires Valid(s, this)
      modifies ring`pubR
      ensures Valid(s, this) && ring.pubR == privR && View(s, this) == GivenBack(old(View(s, this)))
    {
      hide Framed, Inv, EncodeAll;
      ActKeeps(LinkOf(s, this), PacketProtocol.GiveBack);
      ActIs(LinkOf(s, this), PacketProtocol.GiveBack);
      ReaderAt(s, this);
      ring.pubR := privR;
    }

    /** rx: the next published packet, whole, or none. */
    method Rx(ghost s: Sender) returns (p: Option<seq<Byte>>)
      requires Valid(s, this)
      modifies this, ring`pubR
      ensures Valid(s, this)
      ensures if |old(received)| < s.announced
        then p.Some? && p.value == s.written[|old(received)|] && received == old(received) + [p.value] &&
             ring.pubR == privR
        else p == None && received == old(received) && ring.pubR == old(ring.pubR) && privR == old(privR)
      ensures var c := TakenNext(LookedAhead(old(View(s, this))));
        View(s, this) == if p.Some? then GivenBack(c) else c
    {
      hide Valid;
      Poll(s);
      p := Take(s);
      if p.Some? {
        NotifyRead(s);
      }
    }
  }

  /** The protocol's state, between actions of the two sides. */
  ghost function StateOf(s: Sender, r: Receiver): State
    reads s, r, s.ring, s.ring.buf
  {
    var stream := EncodeAll(s.written);
    State(s.ring.size, s.ring.buf[..], s.ring.pubR, s.ring.pubW, s.privW, s.seenR, NotWriting,
          r.privR, r.seenW, NotReading, stream, Truncated(stream, r.privR))
  }

  /** What the two ends and the ring come to. */
  ghost function View(s: Sender, r: Receiver): Pipe
    reads s, r, s.ring
  {
    Pipe(s.ring.size, s.q, s.written, s.announced, r.received, r.header, s.ring.pubR)
  }

  /** Between calls nothing is half written or half read. */
  ghost function LinkOf(s: Sender, r: Receiver): Link
    reads s, r, s.ring, s.ring.buf
  {
    Link(StateOf(s, r), NoPacket, s.written, s.announced, r.seen,
         if r.header.Some? then Known(r.header.value) else Away, r.received)
  }

  lemma WrittenBytes(s: Sender, r: Receiver)
    requires Valid(s, r)
    ensures s.privW == |EncodeAll(s.written)|
  {}

  lemma ReaderAt(s: Sender, r: Receiver)
    requires Valid(s, r)
    ensures |r.received| <= |s.written| && r.privR == |EncodeAll(s.written[..|r.received|])|
  {}

  ghost predicate Valid(s: Sender, r: Receiver)
    reads s, r, s.ring, s.ring.buf
  {
    && s.ring == r.ring && s.ring.buf.Length == s.ring.size
    && Framed(LinkOf(s, r))
  }

  lemma TruncatedGrows(bytes: seq<Byte>, more: seq<Byte>, n: nat)
    requires n <= |bytes|
    ensures Truncated(bytes + more, n) == Truncated(bytes, n)
  {}

  lemma StreamGrows(written: seq<Packet>, p: Packet)
    ensures EncodeAll(written + [p]) == EncodeAll(written) + Le32(|p|) + p
  {
    hide Le32;
    AppendPacket(written, 0, p);
    Associate(EncodeAll(written), Le32(|p|), p);
  }

  lemma MoveHead(w: seq<Packet>, q: seq<Packet>)
    requires q != []
    ensures w + [q[0]] + q[1..] == w + q
  {}

  // ----- Runs -----

  /** What either side can do next, in any order: the publishing is apart from the writing and reading. */
  datatype Op =
    | Flush | Offered(p: Packet) | Publish | Transmit(p: Packet) | Callback
    | LookAhead | TakeNext | GiveBack | Fetch

  function PacketOf(op: Op): seq<Packet> {
    if op.Offered? || op.Transmit? then [op.p] else []
  }

  /** Operations that begin by sending what is queued. */
  predicate Flushes(op: Op) {
    op.Flush? || op.Transmit? || op.Callback?
  }

  function Sent(ops: seq<Op>): seq<Packet> {
    if ops == [] then [] else PacketOf(ops[0]) + Sent(ops[1..])
  }

  /** Received, then in the ring, then queued. */
  ghost function Carried(s: Sender, r: Receiver): seq<seq<Byte>>
    reads s, r, s.ring, s.ring.buf
    requires Valid(s, r)
  {
    r.received + s.written[|r.received|..] + s.q
  }

  /** Received, then in the ring, then queued: always the packets passed to tx, in order. */
  lemma NothingLost(s: Sender, r: Receiver)
    requires Valid(s, r)
    ensures Carried(s, r) == s.written + s.q
  {
    assert r.received + s.written[|r.received|..] == s.written;
  }

  /** What an operation does to the packets. */
  ghost function Performed(c: Pipe, op: Op): Pipe {
    match op
    case Flush => Flushed(c)
    case Offered(p) => Offering(c, p)
    case Publish => Published(c)
    case Transmit(p) => Notified(c, Offering(Flushed(c), p))
    case Callback => Notified(c, Flushed(c))
    case LookAhead => LookedAhead(c)
    case TakeNext => TakenNext(c)
    case GiveBack => GivenBack(c)
    case Fetch =>
      var d := TakenNext(LookedAhead(c));
      if |c.received| < |d.received| then GivenBack(d) else d
  }

  /** What was written is published. */
  ghost function Notified(c: Pipe, d: Pipe): Pipe {
    if |c.written| < |d.written| then Published(d) else d
  }

  ghost function PerformedAll(c: Pipe, ops: seq<Op>): Pipe {
    if ops == [] then c else Performed(PerformedAll(c, ops[..|ops| - 1]), ops[|ops| - 1])
  }

  method Act(s: Sender, r: Receiver, op: Op)
    requires Valid(s, r)
    modifies s, r, s.ring, s.ring.buf
    ensures Valid(s, r) && old(r.received) <= r.received
    ensures View(s, r) == Performed(old(View(s, r)), op)
    ensures s.written + s.q == old(s.written + s.q) + PacketOf(op)
    ensures Flushes(op) && s.q != [] ==> s.ring.size - (s.privW - s.ring.pubR) - 1 < 4 + |s.q[0]|
  {
    SharedRing(s, r);
    hide Valid, Flushed, Offering, Published, LookedAhead, TakenNext, GivenBack, EncodeAll;
    match op
    case Flush => var notify := s.FlushTx(r);
    case Offered(p) => var sent := s.Offer(p, r);
    case Publish => s.NotifyWrite(r);
    case Transmit(p) => var notify := s.Tx(p, r);
    case Callback => var notify := s.TxCallback(r);
    case _ => Collect(s, r, op);
  }

  /** The receiver's operations. */
  method Collect(s: Sender, r: Receiver, op: Op)
    requires Valid(s, r) && (op.LookAhead? || op.TakeNext? || op.GiveBack? || op.Fetch?)
    modifies r, r.ring`pubR
    ensures Valid(s, r) && old(r.received) <= r.received
    ensures View(s, r) == Performed(old(View(s, r)), op)
  {
    SharedRing(s, r);
    hide Valid, LookedAhead, TakenNext, GivenBack, EncodeAll;
    match op
    case LookAhead => r.Poll(s);
    case TakeNext => var packet := r.Take(s);
    case GiveBack => r.NotifyRead(s);
    case Fetch => var packet := r.Rx(s);
  }

  lemma SentNothing()
    ensures Sent([]) == []
  {}

  lemma SentOne(op: Op)
    ensures Sent([op]) == PacketOf(op)
  {
    assert [op][1..] == [];
    assert Sent([op]) == PacketOf(op) + Sent([]);
  }

  lemma {:induction false} SentSplits(a: seq<Op>, b: seq<Op>)
    ensures Sent(a + b) == Sent(a) + Sent(b)
  {
    if a == [] {
      assert a + b == b;
    } else {
      assert (a + b)[1..] == a[1..] + b;
      SentSplits(a[1..], b);
    }
  }

  /**
   Every interleaving of the two sides carries the packets sent, whole and in order; packets stay
   queued after a flush only if the first of them does not fit.
   */
  method Run(s: Sender, r: Receiver, ops: seq<Op>)
    requires Valid(s, r)
    modifies s, r, s.ring, s.ring.buf
    ensures Valid(s, r) && old(r.received) <= r.received
    ensures View(s, r) == PerformedAll(old(View(s, r)), ops)
    ensures Carried(s, r) == old(s.written + s.q) + Sent(ops)
    ensures ops != [] && Flushes(ops[|ops| - 1]) && s.q != [] ==>
      s.ring.size - (s.privW - s.ring.pubR) - 1 < 4 + |s.q[0]|
  {
    hide Sent, Framed, Valid, Performed;
    assert ops[..0] == [];
    SentNothing();
    for i := 0 to |ops|
      invariant Valid(s, r) && old(r.received) <= r.received
      invariant View(s, r) == PerformedAll(old(View(s, r)), ops[..i])
      invariant s.written + s.q == old(s.written + s.q) + Sent(ops[..i])
      invariant 0 < i && Flushes(ops[i - 1]) && s.q != [] ==>
        s.ring.size - (s.privW - s.ring.pubR) - 1 < 4 + |s.q[0]|
    {
      Act(s, r, ops[i]);
      SentOne(ops[i]);
      assert ops[..i + 1] == ops[..i] + [ops[i]];
      SentSplits(ops[..i], [ops[i]]);
      assert ops[..i + 1][..i] == ops[..i];
    }
    assert ops[..|ops|] == ops;
    NothingLost(s, r);
  }

  /**
   Receiving until nothing comes, then sending what fits, again and again: if every packet queued
   is smaller than the ring, all of them arrive.
   */
  method Drain(s: Sender, r: Receiver)
    requires Valid(s, r) && s.announced == |s.written|
    requires forall i :: 0 <= i < |s.q| ==> 4 + |s.q[i]| < s.ring.size
    modifies s, r, s.ring, s.ring.buf
    ensures Valid(s, r) && s.q == [] && s.written == old(s.written + s.q) && r.received == s.written
  {
    SharedRing(s, r);
    hide *;
    ghost var all := s.written + s.q;
    r.NotifyRead(s);
    var done := false;
    while !done
      invariant Valid(s, r) && s.ring == r.ring && s.announced == |s.written| && |r.received| <= |s.written|
      invariant s.written + s.q == all && s.ring.pubR == r.privR
      invariant forall i :: 0 <= i < |s.q| ==> 4 + |s.q[i]| < s.ring.size
      invariant done ==> s.q == [] && |r.received| == |s.written|
      decreases |all| - |r.received|, |s.q|, if done then 0 else 1
    {
      var p := r.Rx(s);
      if p.None? {
        var notify := Refill(s, r);
        done := !notify;
      }
    }
    SharedRing(s, r);
  }

  /** With nothing left to receive the ring is empty, and takes at least one packet. */
  method Refill(s: Sender, r: Receiver) returns (notify: bool)
    requires Valid(s, r) && s.announced == |s.written| == |r.received| && s.ring.pubR == r.privR
    requires forall i :: 0 <= i < |s.q| ==> 4 + |s.q[i]| < s.ring.size
    modifies s, s.ring.buf, s.ring`pubW
    ensures Valid(s, r) && s.announced == |s.written| && s.written + s.q == old(s.written + s.q)
    ensures notify <==> old(s.q) != []
    ensures |s.written| + |s.q| == |old(s.written)| + |old(s.q)| && |old(s.written)| <= |s.written|
    ensures if notify then |s.q| < |old(s.q)| else s.q == [] && s.written == old(s.written)
    ensures forall i :: 0 <= i < |s.q| ==> 4 + |s.q[i]| < s.ring.size
  {
    SharedRing(s, r);
    hide Valid, View, Flushed, Published;
    notify := s.TxCallback(r);
    LaterQueue(old(s.written), old(s.q), s.written, s.q);
  }

  lemma SharedRing(s: Sender, r: Receiver)
    requires Valid(s, r)
    ensures s.ring == r.ring && |r.received| <= |s.written| && r.received == s.written[..|r.received|]
    ensures |r.received| == |s.written| ==> r.privR == s.privW && r.received == s.written
  {
    assert s.written[..|s.written|] == s.written;
  }

  lemma LaterQueue(w: seq<Packet>, q: seq<Packet>, w': seq<Packet>, q': seq<Packet>)
    requires w + q == w' + q' && w <= w'
    ensures |w'| + |q'| == |w| + |q| && q' == q[|q| - |q'|..]
  {
    assert q == (w + q)[|w|..] && q' == (w' + q')[|w'|..];
  }

  /** Two new endpoints of a new ring. */
  method Connect(size: nat) returns (s: Sender, r: Receiver)
    requires 0 < size <= U32_SIZE
    ensures Valid(s, r) && s.written == s.q == [] && r.received == []
  {
    var ring := new Ring(size);
    s := new Sender(ring);
    r := new Receiver(ring);
  }
}
