/** ipc/messagequeue.cpp: messages in a circular buffer, each behind a header of 8 bytes. */
module MessageQueues {
  import opened Basics
  import opened CircularBuffers

  const MAX_WAITING := 65535
  const HEADER := 8

  type Int32 = n: nat | n < 0x8000_0000

  datatype Message = Message(pid: Int32, data: seq<Byte>)

  /** An int in memory, lowest byte first. */
  function Encode32(n: Int32): (b: seq<Byte>)
    ensures |b| == 4
  {
    [n % 256, n / 256 % 256, n / 256 / 256 % 256, n / 256 / 256 / 256]
  }

  function Decode32(b: seq<Byte>): (n: nat)
    requires |b| == 4
  {
    b[0] as int + 256 * (b[1] as int + 256 * (b[2] as int + 256 * (b[3] as int)))
  }

  lemma DecodeEncode(n: Int32)
    ensures Decode32(Encode32(n)) == n
  {
    var q := n / 256;
    var r := q / 256;
    assert n == n % 256 + 256 * q && q == q % 256 + 256 * r && r == r % 256 + 256 * (r / 256);
  }

  function Frame(m: Message): (b: seq<Byte>)
    requires |m.data| < 0x8000_0000
    ensures |b| == HEADER + |m.data|
  {
    Encode32(m.pid) + Encode32(|m.data|) + m.data
  }

  /** The layout: sender and length, lowest byte first, and then the data. */
  lemma FrameLayout(m: Message)
    requires |m.data| < 0x8000_0000
    ensures var f := Frame(m);
            && f[0] as int + 256 * (f[1] as int) + 0x1_0000 * (f[2] as int) + 0x100_0000 * (f[3] as int) == m.pid
            && f[4] as int + 256 * (f[5] as int) + 0x1_0000 * (f[6] as int) + 0x100_0000 * (f[7] as int) == |m.data|
            && f[8..] == m.data
  {
    var f := Frame(m);
    DecodeEncode(m.pid);
    DecodeEncode(|m.data|);
    assert f[..4] == Encode32(m.pid) && f[4..8] == Encode32(|m.data|);
    hide Encode32, Frame;
  }

  predicate AllShort(ms: seq<Message>) {
    forall i :: 0 <= i < |ms| ==> HEADER + |ms[i].data| <= MAX_WAITING
  }

  /** The bytes of a sequence of messages. */
  function Frames(ms: seq<Message>): seq<Byte>
    requires AllShort(ms)
  {
    if ms == [] then [] else Frame(ms[0]) + Frames(ms[1..])
  }

  lemma {:induction false} FramesAppend(ms: seq<Message>, m: Message)
    requires AllShort(ms) && HEADER + |m.data| <= MAX_WAITING
    ensures AllShort(ms + [m]) && Frames(ms + [m]) == Frames(ms) + Frame(m)
  {
    if ms == [] {
      assert ms + [m] == [m] && [m][1..] == [];
    } else {
      assert (ms + [m])[1..] == ms[1..] + [m];
      FramesAppend(ms[1..], m);
    }
  }

  class MessageQueue {
    const buffer: CircularBuffer
    var free: int
    ghost var messages: seq<Message>

    /** The buffer holds the messages and nothing else, and `free` counts what is left of it. */
    ghost predicate Valid()
      reads this, buffer, buffer.ring
    {
      && buffer.Valid() && buffer.size == MAX_WAITING + 1 && AllShort(messages)
      && buffer.Contents() == Frames(messages)
      && free == MAX_WAITING - |buffer.Contents()|
    }

    constructor ()
      ensures Valid() && messages == [] && fresh(buffer) && fresh(buffer.ring)
    {
      buffer := new CircularBuffer(MAX_WAITING + 1);
      free, messages := MAX_WAITING, [];
    }

    /**
     writeMessage. A message that could never fit is dropped (`Dropped`), one that does not fit now
     makes the caller wait (`MustWait`); otherwise it goes to the end, and the writes into the
     circular buffer do not wait.
     */
    method WriteMessage(pid: Int32, data: seq<Byte>) returns (r: Outcome)
      requires Valid()
      modifies this, buffer, buffer.ring
      ensures Valid()
      ensures r == if HEADER + |data| > MAX_WAITING then Dropped
                   else if old(free) < HEADER + |data| then MustWait else Done
      ensures messages == if r == Done then old(messages) + [Message(pid, data)] else old(messages)
    {
      hide Frames, Stored, Distance, Encode32;
      var total := |data| + HEADER;
      if total > MAX_WAITING { return Dropped; }
      if free < total { return MustWait; }
      free := free - total;
      ghost var m := Message(pid, data);
      FramesAppend(messages, m);
      var header := Encode32(pid) + Encode32(|data|);
      var n, waits := buffer.Write(header);
      assert !waits && header[..n] == header;
      n, waits := buffer.Write(data);
      assert !waits && data[..n] == data;
      messages := messages + [m];
      r := Done;
    }

    /**
     readMessage. The caller gets the `len` bytes behind the next header; what is left of that
     message is thrown away. None of the reads from the circular buffer waits. The queue stays sound
     exactly when the caller asked for the length that was written.
     */
    method ReadMessage(len: nat) returns (r: Outcome, data: seq<Byte>)
      requires Valid()
      modifies this, buffer
      ensures r == if HEADER + len > MAX_WAITING then Dropped
                   else if |old(buffer.Contents())| < HEADER + len then MustWait else Done
      ensures r != Done ==> Valid() && messages == old(messages) && data == []
      ensures r == Done ==> old(messages) != [] && messages == old(messages)[1..]
      ensures r == Done ==> (Valid() <==> len == |old(messages)[0].data|)
      ensures r == Done && Valid() ==> data == old(messages)[0].data
      ensures r == Done ==> buffer.Valid() && |data| == len && free == old(free) + HEADER + len
      ensures r == Done ==> var n := HEADER + Max(len, |old(messages)[0].data|);
                            n <= |old(buffer.Contents())| && buffer.Contents() == old(buffer.Contents())[n..]
      ensures r == Done ==> data == old(buffer.Contents())[HEADER..HEADER + len]
    {
      hide Stored, Distance, Encode32, Decode32, Frames, AllShort;
      data := [];
      var total := len + HEADER;
      if total > MAX_WAITING { return Dropped, data; }
      if MAX_WAITING - free < total { return MustWait, data; }
      ghost var was := buffer.Contents();
      NotEmpty(messages);
      data := TakeFirst(len);
      SoundAfter(messages, was, buffer.Contents(), len, free);
      free := free + total;
      messages := messages[1..];
      r := Done;
    }

    /** The header, the bytes asked for, and the rest of the message leave the buffer. */
    method TakeFirst(len: nat) returns (data: seq<Byte>)
      requires buffer.Valid() && AllShort(messages) && messages != [] && buffer.Contents() == Frames(messages)
      requires HEADER + len <= |buffer.Contents()|
      modifies buffer
      ensures buffer.Valid() && |data| == len && data == old(buffer.Contents())[HEADER..HEADER + len]
      ensures var n := HEADER + Max(len, |messages[0].data|);
              n <= |old(buffer.Contents())| && buffer.Contents() == old(buffer.Contents())[n..]
    {
      hide Stored, Distance, Encode32, Decode32, Frames, AllShort;
      ghost var was := buffer.Contents();
      var header;
      header, data := TakeFront(len);
      HeaderOf(messages, was, header);
      Pieces(was, header, data, buffer.Contents(), |messages[0].data|);
      Discard(Decode32(header[4..]) - len);
    }

    /** The header and the bytes asked for. */
    method TakeFront(len: nat) returns (header: seq<Byte>, data: seq<Byte>)
      requires buffer.Valid() && HEADER + len <= |buffer.Contents()|
      modifies buffer
      ensures buffer.Valid() && |header| == HEADER && |data| == len
      ensures old(buffer.Contents()) == header + (data + buffer.Contents()) && header <= old(buffer.Contents())
    {
      hide Stored, Distance;
      var waits;
      header, waits := buffer.Read(HEADER);
      assert !waits;
      data, waits := buffer.Read(len);
      assert !waits;
    }

    /** The loop that throws away the rest of a message, 32 bytes at a time. */
    method Discard(count: int)
      requires buffer.Valid() && count <= |buffer.Contents()|
      modifies buffer
      ensures buffer.Valid()
      ensures buffer.Contents() == if count <= 0 then old(buffer.Contents()) else old(buffer.Contents())[count..]
    {
      hide Stored, Distance;
      var left := count;
      while left > 0
        invariant buffer.Valid() && left <= count
        invariant left >= 0 || left == count
        invariant buffer.Contents() == if count <= 0 then old(buffer.Contents())
                    else old(buffer.Contents())[count - left..]
        decreases left
      {
        var chunk, waits := buffer.Read(Min(left, 32));
        assert !waits;
        if |chunk| == 0 { break; }
        left := left - Min(left, 32);
      }
    }
  }

  /** What three reads in a row have taken. */
  lemma Pieces(was: seq<Byte>, header: seq<Byte>, data: seq<Byte>, rest: seq<Byte>, m: nat)
    requires was == header + (data + rest) && |header| == HEADER && m - |data| <= |rest|
    ensures was[HEADER..HEADER + |data|] == data
    ensures var n, count := HEADER + Max(|data|, m), m - |data|;
            n <= |was| && (if count <= 0 then rest else rest[count..]) == was[n..]
  {
  }

  lemma NotEmpty(ms: seq<Message>)
    requires AllShort(ms)
    ensures Frames(ms) != [] ==> ms != []
  {
  }

  /** What is left after one message, and when it is the frames of the others. */
  lemma SoundAfter(ms: seq<Message>, was: seq<Byte>, now: seq<Byte>, len: nat, free: int)
    requires AllShort(ms) && ms != [] && was == Frames(ms) && free == MAX_WAITING - |was|
    requires var n := HEADER + Max(len, |ms[0].data|); n <= |was| && now == was[n..]
    ensures AllShort(ms[1..])
    ensures (now == Frames(ms[1..]) && free + HEADER + len == MAX_WAITING - |now|) <==> len == |ms[0].data|
    ensures len == |ms[0].data| ==> was[HEADER..HEADER + len] == ms[0].data
  {
    hide Encode32, Decode32;
    HeaderOf(ms, was, was[..HEADER]);
  }

  /** The header of the first message tells its length. */
  lemma HeaderOf(ms: seq<Message>, bytes: seq<Byte>, header: seq<Byte>)
    requires AllShort(ms) && ms != [] && bytes == Frames(ms) && |header| == HEADER && header <= bytes
    ensures Decode32(header[4..]) == |ms[0].data|
    ensures |bytes| == HEADER + |ms[0].data| + |Frames(ms[1..])|
    ensures bytes[HEADER..HEADER + |ms[0].data|] == ms[0].data && bytes[HEADER + |ms[0].data|..] == Frames(ms[1..])
  {
    hide Encode32, Decode32;
    var m := ms[0];
    assert header[4..] == Encode32(|m.data|) by { assert header == bytes[..8]; }
    DecodeEncode(|m.data|);
  }

  datatype Outcome = Done | MustWait | Dropped
}
