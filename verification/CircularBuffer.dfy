/** mem/circularbuffer.cpp: a byte queue of capacity size - 1 in a ring of bytes. */
module CircularBuffers {
  import opened Basics

  /** findDistance. */
  function Distance(a: int, b: int, size: nat): (d: int)
    requires size > 0 && -1 <= a < size && -1 <= b < size
    ensures 0 <= d < size
  {
    var a', b' := if a < 0 then a + size else a, if b < 0 then b + size else b;
    var c := b' - a';
    if c < 0 then c + size else c
  }

  /** readAvailableCut and writeAvailableCut: how much can be done without wrapping. */
  function ReadCut(size: nat, readPos: nat, writePos: nat): (n: nat)
    requires readPos < size && writePos < size
    ensures n <= size - readPos && n <= Distance(readPos, writePos, size)
    ensures n == 0 <==> Distance(readPos, writePos, size) == 0
    ensures n == Min(size - readPos, Distance(readPos, writePos, size))
  {
    Min(Min(size, size - readPos), Distance(readPos, writePos, size))
  }

  function WriteCut(size: nat, readPos: nat, writePos: nat): (n: nat)
    requires readPos < size && writePos < size
    ensures n <= size - writePos && n + Distance(readPos, writePos, size) <= size - 1
    ensures n == 0 <==> Distance(readPos, writePos, size) == size - 1
    ensures n == Min(size - writePos, size - 1 - Distance(readPos, writePos, size))
  {
    Min(Min(size, size - writePos), Distance(writePos, readPos - 1, size))
  }

  /** The position n bytes on, where n stays before the end of the ring. */
  function Advanced(pos: nat, n: nat, size: nat): (p: nat)
    requires pos < size && pos + n <= size
    ensures p < size
  {
    if pos + n == size then 0 else pos + n
  }

  /** What is stored between the two positions. */
  function Stored(ring: seq<Byte>, readPos: nat, writePos: nat): (s: seq<Byte>)
    requires readPos < |ring| && writePos < |ring|
    ensures |s| == Distance(readPos, writePos, |ring|)
  {
    if readPos <= writePos then ring[readPos..writePos] else ring[readPos..] + ring[..writePos]
  }

  lemma ReadStored(ring: seq<Byte>, readPos: nat, writePos: nat, n: nat)
    requires readPos < |ring| && writePos < |ring| && n <= ReadCut(|ring|, readPos, writePos)
    ensures var s := Stored(ring, readPos, writePos);
            && n <= |s| && ring[readPos..readPos + n] == s[..n]
            && Stored(ring, Advanced(readPos, n, |ring|), writePos) == s[n..]
  {
  }

  lemma WriteStored(ring: seq<Byte>, readPos: nat, writePos: nat, data: seq<Byte>)
    requires readPos < |ring| && writePos < |ring| && |data| <= WriteCut(|ring|, readPos, writePos)
    ensures var n := |data|;
            var ring' := ring[..writePos] + data + ring[writePos + n..];
            && |ring'| == |ring|
            && Stored(ring', readPos, Advanced(writePos, n, |ring|)) == Stored(ring, readPos, writePos) + data
  {
    var n := |data|;
    var ring' := ring[..writePos] + data + ring[writePos + n..];
    if readPos <= writePos {
      assert ring'[readPos..writePos] == ring[readPos..writePos];
    } else {
      assert ring'[readPos..] == ring[readPos..] && ring'[..writePos] == ring[..writePos];
    }
  }

  /** The memory of a buffer and its two positions. */
  datatype Ring = Ring(bytes: seq<Byte>, readPos: nat, writePos: nat)

  predicate RingOk(b: Ring) {
    b.readPos < |b.bytes| && b.writePos < |b.bytes|
  }

  /** The bytes in the queue, oldest first. */
  function Queued(b: Ring): (s: seq<Byte>)
    requires RingOk(b)
  {
    Stored(b.bytes, b.readPos, b.writePos)
  }

  /** n bytes copied out at the read position, which moves on. */
  function TakenOut(b: Ring, n: nat): (r: (seq<Byte>, Ring))
    requires RingOk(b) && n <= ReadCut(|b.bytes|, b.readPos, b.writePos)
  {
    (b.bytes[b.readPos..b.readPos + n], b.(readPos := Advanced(b.readPos, n, |b.bytes|)))
  }

  /** Bytes copied in at the write position, which moves on. */
  function PutIn(b: Ring, data: seq<Byte>): (r: Ring)
    requires RingOk(b) && |data| <= WriteCut(|b.bytes|, b.readPos, b.writePos)
  {
    Ring(b.bytes[..b.writePos] + data + b.bytes[b.writePos + |data|..], b.readPos,
         Advanced(b.writePos, |data|, |b.bytes|))
  }

  class CircularBuffer {
    const size: nat
    const ring: array<Byte>
    var readPos: nat
    var writePos: nat

    predicate Valid()
      reads this
    {
      ring.Length == size && readPos < size && writePos < size
    }

    function Contents(): (s: seq<Byte>)
      requires Valid()
      reads this, ring
    {
      Stored(ring[..], readPos, writePos)
    }

    function Value(): (b: Ring)
      reads this, ring
    {
      Ring(ring[..], readPos, writePos)
    }

    constructor (size: nat)
      requires size > 0
      ensures Valid() && this.size == size && Contents() == [] && fresh(ring)
    {
      this.size, ring, readPos, writePos := size, new Byte[size], 0, 0;
    }

    function ReadAvailable(): (n: int)
      requires Valid()
      reads this, ring
      ensures n == |Contents()|
    {
      Min(size, Distance(readPos, writePos, size))
    }

    function WriteAvailable(): (n: int)
      requires Valid()
      reads this, ring
      ensures n + ReadAvailable() == size - 1
    {
      Min(size, Distance(writePos, readPos - 1, size))
    }

    /** One round of read: what is there, up to the end of the ring; nothing exactly when nothing is stored. */
    method ReadChunk(len: nat) returns (data: seq<Byte>)
      requires Valid()
      modifies this`readPos
      ensures Valid() && old(Contents()) == data + Contents() && |data| <= len
      ensures data == [] <==> len == 0 || old(Contents()) == []
      ensures |data| == Min(len, Min(size - old(readPos), |old(Contents())|))
      ensures (data, Value()) == TakenOut(old(Value()), |data|)
    {
      hide Stored, Distance, ReadCut;
      var n := Min(len, ReadCut(size, readPos, writePos));
      ReadStored(ring[..], readPos, writePos, n);
      data := ring[readPos..readPos + n];
      readPos := readPos + n;
      if readPos == size { readPos := 0; }
    }

    /** One round of write: as much as fits before the end of the ring; nothing exactly when the buffer is full. */
    method WriteChunk(data: seq<Byte>) returns (n: nat)
      requires Valid()
      modifies ring, this`writePos
      ensures Valid() && n <= |data| && Contents() == old(Contents()) + data[..n]
      ensures n == 0 <==> data == [] || old(WriteAvailable()) == 0
      ensures n == Min(|data|, Min(size - old(writePos), size - 1 - |old(Contents())|))
      ensures n <= WriteCut(size, readPos, old(writePos)) && Value() == PutIn(old(Value()), data[..n])
    {
      hide Stored, WriteCut;
      n := Min(|data|, WriteCut(size, readPos, writePos));
      WriteStored(ring[..], readPos, writePos, data[..n]);
      CopyIn(data[..n]);
      writePos := writePos + n;
      if writePos == size { writePos := 0; }
    }

    /** memcpy to the write position. */
    method CopyIn(data: seq<Byte>)
      requires Valid() && writePos + |data| <= size
      modifies ring
      ensures ring[..] == old(ring[..writePos] + data + ring[writePos + |data|..])
    {
      for i := 0 to |data|
        invariant forall j :: 0 <= j < size ==>
                    ring[j] == if writePos <= j < writePos + i then data[j - writePos] else old(ring[j])
      {
        ring[writePos + i] := data[i];
      }
    }

    /** One round of writeAtomic: all of the data in one piece, or nothing. */
    method WriteAtomicChunk(data: seq<Byte>) returns (done: bool)
      requires Valid()
      modifies ring, this`writePos
      ensures Valid() && Contents() == if done then old(Contents()) + data else old(Contents())
      ensures done <==> |data| <= Min(size - old(writePos), size - 1 - |old(Contents())|)
      ensures done ==> |data| <= WriteCut(size, readPos, old(writePos))
      ensures Value() == if done then PutIn(old(Value()), data) else old(Value())
    {
      hide Stored, WriteCut;
      done := |data| <= WriteCut(size, readPos, writePos);
      if done {
        var n := WriteChunk(data);
        assert data[..n] == data;
      }
    }

    /**
     read, as far as it gets by itself: all that is asked for, or all that is there. It comes to the
     branch that waits exactly when less is stored than asked for.
     */
    method Read(len: nat) returns (data: seq<Byte>, waits: bool)
      requires Valid()
      modifies this`readPos
      ensures Valid() && |data| == Min(len, |old(Contents())|) && old(Contents()) == data + Contents()
      ensures waits <==> len > |old(Contents())|
    {
      hide Stored, ReadCut, Distance, TakenOut;
      data := [];
      while |data| < len
        invariant Valid() && |data| <= len && old(Contents()) == data + Contents()
        decreases len - |data|
      {
        var chunk := ReadChunk(len - |data|);
        if chunk == [] { return data, true; }
        data := data + chunk;
      }
      waits := false;
    }

    /** write, as far as it gets by itself. It comes to the branch that waits exactly when not all fits. */
    method Write(data: seq<Byte>) returns (offset: nat, waits: bool)
      requires Valid()
      modifies ring, this`writePos
      ensures Valid() && offset == Min(|data|, size - 1 - |old(Contents())|)
      ensures Contents() == old(Contents()) + data[..offset]
      ensures waits <==> |data| > size - 1 - |old(Contents())|
    {
      hide Stored, WriteCut, PutIn;
      offset := 0;
      while offset < |data|
        invariant Valid() && offset <= |data| && Contents() == old(Contents()) + data[..offset]
        decreases |data| - offset
      {
        var n := WriteChunk(data[offset..]);
        if n == 0 { return offset, true; }
        assert data[..offset + n] == data[..offset] + data[offset..][..n];
        offset := offset + n;
      }
      waits := false;
    }
  }

  /**
   writeAtomic into an empty buffer goes through exactly when the data fits before the end of the
   ring: with the write position further on it waits, although the buffer has room.
   */
  lemma AtomicNeedsRoomBeforeWrap(size: nat, pos: nat, len: nat)
    requires pos < size && len <= size - 1
    ensures len <= WriteCut(size, pos, pos) <==> len <= size - pos
  {
  }
}
