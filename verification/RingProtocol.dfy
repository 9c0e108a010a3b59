/**
 One direction of the shared-memory ring: a writer and a reader that run concurrently.

 Every access to shared memory is a step of its own: reading or publishing an offset, storing
 or loading one byte.  Offsets count bytes since the start; a byte with offset k lives at
 index k % size.
 */
module RingProtocol {
  import opened Endian

  /** A write call in progress: its data and how many bytes are stored already. */
  datatype Writing = NotWriting | Writing(data: seq<Byte>, stored: nat)

  /** A read call in progress: how many bytes were asked for and those loaded so far. */
  datatype Reading = NotReading | Reading(n: nat, got: seq<Byte>)

  datatype State = State(
    size: nat,
    buf: seq<Byte>,
    pubR: nat,            // offset_r in the control block
    pubW: nat,            // offset_w in the control block
    privW: nat,           // the writer's private_offset_w
    seenR: nat,           // the offset_r the writer last polled
    writing: Writing,
    privR: nat,           // the reader's private_offset_r
    seenW: nat,           // the offset_w the reader last polled
    reading: Reading,
    stream: seq<Byte>,    // what the writer has written, by offset
    received: seq<Byte>)  // what the reader has read, by offset

  datatype Step =
    | PollWrite
    | BeginWrite(data: seq<Byte>)
    | StoreByte
    | EndWrite
    | PublishWrite
    | ResumeWriter
    | PollRead
    | BeginRead(n: nat)
    | LoadByte
    | EndRead
    | EndPeek
    | Skip(n: nat)
    | PublishRead
    | ResumeReader

  ghost predicate Init(s: State) {
    && 0 < s.size == |s.buf|
    && s.pubR == s.pubW == s.privW == s.seenR == s.privR == s.seenW == 0
    && s.writing.NotWriting? && s.reading.NotReading? && s.stream == s.received == []
  }

  /** What poll_write returns for a polled offset. */
  function Room(s: State): int {
    s.size - (s.privW - s.seenR) - 1
  }

  /** When a step can be taken: what the two sides check, and the order of their own calls. */
  ghost predicate Enabled(s: State, step: Step) {
    match step
    case PollWrite => s.writing.NotWriting?
    case BeginWrite(data) => s.writing.NotWriting? && |data| <= Room(s)
    case StoreByte => s.writing.Writing? && s.writing.stored < |s.writing.data|
    case EndWrite => s.writing.Writing? && s.writing.stored == |s.writing.data|
    case PublishWrite => s.writing.NotWriting?
    case ResumeWriter => true
    case PollRead => s.reading.NotReading?
    case BeginRead(n) => s.reading.NotReading? && n <= s.seenW - s.privR
    case LoadByte => s.reading.Reading? && |s.reading.got| < s.reading.n
    case EndRead => s.reading.Reading? && |s.reading.got| == s.reading.n
    case EndPeek => s.reading.Reading? && |s.reading.got| == s.reading.n
    case Skip(n) => s.reading.NotReading? && n <= s.seenW - s.privR
    case PublishRead => s.reading.NotReading?
    case ResumeReader => true
  }

  function Truncated(bytes: seq<Byte>, n: nat): seq<Byte> {
    if n <= |bytes| then bytes[..n] else bytes
  }

  ghost function Apply(s: State, step: Step): State
    requires 0 < s.size == |s.buf| && Enabled(s, step)
  {
    match step
    case PollWrite => s.(seenR := s.pubR)
    case BeginWrite(data) => s.(writing := Writing(data, 0))
    case StoreByte =>
      s.(buf := s.buf[(s.privW + s.writing.stored) % s.size := s.writing.data[s.writing.stored]],
         writing := Writing(s.writing.data, s.writing.stored + 1))
    case EndWrite =>
      s.(privW := s.privW + |s.writing.data|, stream := s.stream + s.writing.data, writing := NotWriting)
    case PublishWrite => s.(pubW := s.privW)
    case ResumeWriter => s.(privW := s.pubW, stream := Truncated(s.stream, s.pubW), writing := NotWriting)
    case PollRead => s.(seenW := s.pubW)
    case BeginRead(n) => s.(reading := Reading(n, []))
    case LoadByte =>
      s.(reading := Reading(s.reading.n, s.reading.got + [s.buf[(s.privR + |s.reading.got|) % s.size]]))
    case EndRead =>
      s.(privR := s.privR + s.reading.n, received := s.received + s.reading.got, reading := NotReading)
    case EndPeek => s.(reading := NotReading)
    case Skip(n) => s.(privR := s.privR + n, received := Truncated(s.stream, s.privR + n))
    case PublishRead => s.(pubR := s.privR)
    case ResumeReader =>
      s.(privR := s.pubR, received := Truncated(s.received, s.pubR), reading := NotReading)
  }

  /** The order of the offsets, seen from either side and in the control block. */
  ghost predicate Ordered(s: State) {
    && 0 < s.size == |s.buf|
    && s.seenR <= s.pubR <= s.privR <= s.seenW <= s.pubW <= s.privW <= s.seenR + s.size - 1
    && |s.stream| == s.privW && |s.received| == s.privR
  }

  /** The bytes not yet given back by the reader are in place. */
  ghost predicate InPlace(s: State)
    requires Ordered(s)
  {
    forall k :: s.pubR <= k < s.privW ==> s.buf[k % s.size] == s.stream[k]
  }

  ghost predicate WriteInProgress(s: State)
    requires Ordered(s)
  {
    s.writing.Writing? ==>
      && s.writing.stored <= |s.writing.data|
      && s.privW + |s.writing.data| <= s.seenR + s.size - 1
      && forall i :: s.privW <= i < s.privW + s.writing.stored ==>
           s.buf[i % s.size] == s.writing.data[i - s.privW]
  }

  ghost predicate ReadInProgress(s: State)
    requires Ordered(s)
  {
    s.reading.Reading? ==>
      && |s.reading.got| <= s.reading.n <= s.seenW - s.privR
      && s.reading.got == s.stream[s.privR..s.privR + |s.reading.got|]
  }

  ghost predicate Inv(s: State) {
    && Ordered(s) && InPlace(s) && WriteInProgress(s) && ReadInProgress(s)
    && s.received == s.stream[..s.privR]
  }

  lemma SmallMultiple(d: int, size: int)
    requires -size < d * size < size
    ensures d == 0
  {}

  lemma Subtract(q: int, r: int, size: int)
    ensures r * size - q * size == (r - q) * size
  {}

  /** Offsets less than a ring apart have different places. */
  lemma DifferentPlaces(j: nat, k: nat, size: nat)
    requires j < k < j + size
    ensures j % size != k % size
  {
    if j % size == k % size {
      Subtract(j / size, k / size, size);
      SmallMultiple(k / size - j / size, size);
    }
  }

  lemma StoreKeeps(s: State)
    requires Inv(s) && Enabled(s, StoreByte)
    ensures Inv(Apply(s, StoreByte))
  {
    var t, w := Apply(s, StoreByte), s.privW + s.writing.stored;
    forall k | s.pubR <= k < w ensures t.buf[k % s.size] == s.buf[k % s.size] {
      DifferentPlaces(k, w, s.size);
    }
  }

  lemma LoadKeeps(s: State)
    requires Inv(s) && Enabled(s, LoadByte)
    ensures Inv(Apply(s, LoadByte))
  {
    var k := s.privR + |s.reading.got|;
    assert s.buf[k % s.size] == s.stream[k];
    assert s.stream[s.privR..k + 1] == s.stream[s.privR..k] + [s.stream[k]];
  }

  lemma EndWriteKeeps(s: State)
    requires Inv(s) && Enabled(s, EndWrite)
    ensures Inv(Apply(s, EndWrite))
  {
    var t := Apply(s, EndWrite);
    assert t.stream[..s.privW] == s.stream;
    assert t.stream[..s.privR] == s.stream[..s.privR];
    if s.reading.Reading? {
      assert t.stream[s.privR..s.privR + |s.reading.got|] == s.stream[s.privR..s.privR + |s.reading.got|];
    }
  }

  lemma EndReadKeeps(s: State)
    requires Inv(s) && Enabled(s, EndRead)
    ensures Inv(Apply(s, EndRead))
  {
    assert s.stream[..s.privR] + s.stream[s.privR..s.privR + s.reading.n] == s.stream[..s.privR + s.reading.n];
  }

  lemma ResumeKeeps(s: State, step: Step)
    requires Inv(s) && (step.ResumeWriter? || step.ResumeReader?)
    ensures Inv(Apply(s, step))
  {
    var t := Apply(s, step);
    assert t.stream[..t.privR] == s.stream[..s.privR][..t.privR];
    if t.reading.Reading? {
      assert t.stream[s.privR..s.privR + |s.reading.got|] == s.stream[s.privR..s.privR + |s.reading.got|];
    }
  }

  lemma StepKeepsInv(s: State, step: Step)
    requires Inv(s) && Enabled(s, step)
    ensures Inv(Apply(s, step))
  {
    match step
    case StoreByte => StoreKeeps(s);
    case LoadByte => LoadKeeps(s);
    case EndWrite => EndWriteKeeps(s);
    case EndRead => EndReadKeeps(s);
    case ResumeWriter => ResumeKeeps(s, step);
    case ResumeReader => ResumeKeeps(s, step);
    case _ =>
  }

  /** A run: the steps of both sides interleaved in any order. */
  ghost predicate IsRun(states: seq<State>, steps: seq<Step>) {
    && |states| == |steps| + 1 && Init(states[0])
    && forall i :: 0 <= i < |steps| ==>
         && 0 < states[i].size == |states[i].buf|
         && Enabled(states[i], steps[i])
         && states[i + 1] == Apply(states[i], steps[i])
  }

  /**
   In every state of every run: the offsets are ordered, the polls' assertions and subtractions
   are in range, and what has been read is the beginning of what has been written.
   */
  lemma {:induction false} RunsAreSafe(states: seq<State>, steps: seq<Step>, i: nat)
    requires IsRun(states, steps) && i < |states|
    ensures Inv(states[i])
    ensures var s := states[i];
      && s.pubR <= s.privW && s.privW - s.pubR <= s.size && 0 <= s.size - (s.privW - s.pubR) - 1
      && s.privR <= s.pubW && s.pubW - s.privR <= s.size
      && s.received <= s.stream
  {
    if 0 < i {
      RunsAreSafe(states, steps, i - 1);
      StepKeepsInv(states[i - 1], steps[i - 1]);
    }
  }
}
