/**
 The copies between a caller's buffer and the ring: at most two contiguous pieces, the second
 one from the start of the ring.
 */
module RingMemory {
  import opened Endian
  import opened RingProtocol

  /** The ring after bytes have been stored one at a time from offset `w` on. */
  function Stored(ring: seq<Byte>, w: nat, data: seq<Byte>): (r: seq<Byte>)
    requires 0 < |ring|
    ensures |r| == |ring|
    decreases |data|
  {
    if data == [] then ring else Stored(ring[w % |ring| := data[0]], w + 1, data[1..])
  }

  /** The bytes loaded one at a time from offset `r` on. */
  function Loaded(ring: seq<Byte>, r: nat, n: nat): (data: seq<Byte>)
    requires 0 < |ring|
    ensures |data| == n
    decreases n
  {
    if n == 0 then [] else [ring[r % |ring|]] + Loaded(ring, r + 1, n - 1)
  }

  /** How many places index `j` comes after index `off`, going round the ring. */
  function Around(off: nat, j: nat, size: nat): nat
    requires off < size && j < size
  {
    if off <= j then j - off else j + size - off
  }

  lemma NextPlace(w: nat, size: nat)
    requires 0 < size
    ensures (w + 1) % size == if w % size + 1 == size then 0 else w % size + 1
  {
    var q, r := w / size, w % size;
    if r + 1 == size {
      Subtract(-1, q, size);
      RemainderIs(w + 1, q + 1, 0, size);
    } else {
      RemainderIs(w + 1, q, r + 1, size);
    }
  }

  lemma RemainderIs(x: nat, q: nat, r: nat, size: nat)
    requires x == q * size + r && r < size
    ensures x % size == r
  {
    Subtract(x / size, q, size);
    SmallMultiple(q - x / size, size);
  }

  lemma {:induction false} StoredAt(ring: seq<Byte>, w: nat, data: seq<Byte>, j: nat)
    requires 0 < |ring| && |data| <= |ring| && j < |ring|
    ensures var d := Around(w % |ring|, j, |ring|);
      Stored(ring, w, data)[j] == if d < |data| then data[d] else ring[j]
    decreases |data|
  {
    if data != [] {
      NextPlace(w, |ring|);
      StoredAt(ring[w % |ring| := data[0]], w + 1, data[1..], j);
    }
  }

  lemma {:induction false} LoadedAt(ring: seq<Byte>, r: nat, n: nat, i: nat)
    requires 0 < |ring| && n <= |ring| && i < n
    ensures var off := r % |ring|;
      Loaded(ring, r, n)[i] == ring[if off + i < |ring| then off + i else off + i - |ring|]
    decreases n
  {
    if 0 < i {
      NextPlace(r, |ring|);
      LoadedAt(ring, r + 1, n - 1, i - 1);
    }
  }

  /** A contiguous copy into the ring. */
  method CopyTo(ring: array<Byte>, at: nat, src: seq<Byte>)
    requires at + |src| <= ring.Length
    modifies ring
    ensures ring[..] == old(ring[..at]) + src + old(ring[at + |src|..])
  {
    for i := 0 to |src|
      invariant ring[..] == old(ring[..at]) + src[..i] + old(ring[at + i..])
    {
      ring[at + i] := src[i];
    }
  }

  /** RingBuffer::write without the offset update. */
  method WriteBytes(ring: array<Byte>, privW: nat, data: seq<Byte>)
    requires 0 < ring.Length && |data| <= ring.Length
    modifies ring
    ensures ring[..] == Stored(old(ring[..]), privW, data)
  {
    ghost var before := ring[..];
    var offset := privW % ring.Length;
    var n1 := ring.Length - offset;
    if |data| <= n1 {
      CopyTo(ring, offset, data);
    } else {
      CopyTo(ring, offset, data[..n1]);
      CopyTo(ring, 0, data[n1..]);
    }
    forall j | 0 <= j < ring.Length ensures ring[..][j] == Stored(before, privW, data)[j] {
      StoredAt(before, privW, data, j);
    }
  }

  /** RingBuffer::peek. */
  method PeekBytes(ring: array<Byte>, privR: nat, n: nat) returns (data: seq<Byte>)
    requires 0 < ring.Length && n <= ring.Length
    ensures data == Loaded(ring[..], privR, n)
  {
    var offset := privR % ring.Length;
    var n1 := ring.Length - offset;
    if n <= n1 {
      data := ring[offset..offset + n];
    } else {
      data := ring[offset..] + ring[..n - n1];
    }
    forall i | 0 <= i < n ensures data[i] == Loaded(ring[..], privR, n)[i] {
      LoadedAt(ring[..], privR, n, i);
    }
  }

  /** Storing all bytes of a write call is the protocol's StoreByte step, once per byte. */
  lemma {:induction false} StoreSteps(s: State, n: nat) returns (t: State)
    requires Inv(s) && s.writing.Writing? && n + s.writing.stored == |s.writing.data|
    ensures Inv(t) && t.buf == Stored(s.buf, s.privW + s.writing.stored, s.writing.data[s.writing.stored..])
    ensures t == s.(buf := t.buf, writing := Writing(s.writing.data, |s.writing.data|))
    decreases n
  {
    if n == 0 {
      t := s;
      assert s.writing.data[s.writing.stored..] == [];
    } else {
      StepKeepsInv(s, StoreByte);
      var u := Apply(s, StoreByte);
      t := StoreSteps(u, n - 1);
      var rest := s.writing.data[s.writing.stored..];
      assert rest[0] == s.writing.data[s.writing.stored] && rest[1..] == s.writing.data[s.writing.stored + 1..];
    }
  }

  lemma {:induction false} LoadedByOffset(ring: seq<Byte>, r: nat, n: nat, i: nat)
    requires 0 < |ring| && i < n
    ensures Loaded(ring, r, n)[i] == ring[(r + i) % |ring|]
    decreases n
  {
    if 0 < i { LoadedByOffset(ring, r + 1, n - 1, i - 1); }
  }

  /** A read call within what the reader has polled returns the writer's stream, wherever the ring wraps. */
  lemma ReadIsStream(s: State, n: nat)
    requires Inv(s) && n <= s.seenW - s.privR
    ensures Loaded(s.buf, s.privR, n) == s.stream[s.privR..s.privR + n]
  {
    forall i | 0 <= i < n ensures Loaded(s.buf, s.privR, n)[i] == s.stream[s.privR + i] {
      LoadedByOffset(s.buf, s.privR, n, i);
      assert s.buf[(s.privR + i) % s.size] == s.stream[s.privR + i];
    }
  }
}
