/**
 Block-wise transfers: what a device or an inode holds, as a function from byte offsets to bytes,
 and the coalescing loop of dev/blockhandle.cpp.
 */
module Blocks {
  import opened Basics

  /** A medium with blocks of `bs` bytes. */
  datatype Medium = Medium(bs: nat, byte: nat -> Byte)

  predicate Perfect(start: nat, len: nat, bs: nat)
    requires bs > 0
  {
    start % bs == 0 && len % bs == 0
  }

  /** A chunk ends at the end of its block at the latest, so it is perfect only as a whole block. */
  lemma PerfectIsWhole(start: nat, len: nat, bs: nat)
    requires bs > 0 && 0 < len <= bs - start % bs
    ensures Perfect(start, len, bs) <==> start % bs == 0 && len == bs
    ensures start / bs >= 0 && start == start / bs * bs + start % bs
  {
    if len < bs { assert len % bs == len; }
  }

  /** Bytes lo to hi of the buffer, counted from `at`, are those of the medium from `start` on. */
  ghost predicate Holds(b: seq<Byte>, at: nat, d: Medium, start: nat, lo: nat, hi: nat) {
    at + hi <= |b| && forall i: nat :: at + lo <= i < at + hi ==> b[i] == d.byte(start + (i - at))
  }

  /** Only bytes lo to hi, counted from `at`, may differ. */
  ghost predicate SameOutside(b: seq<Byte>, b': seq<Byte>, at: nat, lo: nat, hi: nat) {
    |b'| == |b| && forall j: nat :: j < |b| && !(at + lo <= j < at + hi) ==> b'[j] == b[j]
  }

  lemma HoldsMore(b: seq<Byte>, b': seq<Byte>, at: nat, d: Medium, start: nat, lo: nat, mid: nat, hi: nat)
    requires lo <= mid <= hi && Holds(b, at, d, start, lo, mid) && Holds(b', at, d, start, mid, hi)
    requires SameOutside(b, b', at, mid, hi)
    ensures Holds(b', at, d, start, lo, hi)
  {
  }

  lemma SameMore(b: seq<Byte>, b': seq<Byte>, b'': seq<Byte>, at: nat, lo: nat, mid: nat, hi: nat)
    requires lo <= mid <= hi && SameOutside(b, b', at, lo, mid) && SameOutside(b', b'', at, mid, hi)
    ensures SameOutside(b, b'', at, lo, hi)
  {
  }

  /** Copies `len` bytes of the medium from `from` on to the buffer at `at + pos`. */
  method Transfer(d: Medium, buffer: array<Byte>, at: nat, pos: nat, from: nat, len: nat, ghost start: nat)
    requires at + pos + len <= buffer.Length && from == start + pos
    modifies buffer
    ensures Holds(buffer[..], at, d, start, pos, pos + len)
    ensures SameOutside(old(buffer[..]), buffer[..], at, pos, pos + len)
  {
    for i := 0 to len
      invariant Holds(buffer[..], at, d, start, pos, pos + i)
      invariant SameOutside(old(buffer[..]), buffer[..], at, pos, pos + i)
    {
      buffer[at + pos + i] := d.byte(from + i);
    }
  }

  /** Reads one block into a buffer of its own and copies `len` bytes of it, from `offset` on. */
  method ReadPart(d: Medium, buffer: array<Byte>, at: nat, pos: nat, block: nat, offset: nat, len: nat,
                  ghost start: nat)
    requires at + pos + len <= buffer.Length && offset + len <= d.bs && block * d.bs + offset == start + pos
    modifies buffer
    ensures Holds(buffer[..], at, d, start, pos, pos + len)
    ensures SameOutside(old(buffer[..]), buffer[..], at, pos, pos + len)
  {
    var sector := new Byte[d.bs];
    Transfer(d, sector, 0, 0, block * d.bs, d.bs, block * d.bs);
    ghost var read := sector[..];
    for i := 0 to len
      invariant sector[..] == read
      invariant Holds(buffer[..], at, d, start, pos, pos + i)
      invariant SameOutside(old(buffer[..]), buffer[..], at, pos, pos + i)
    {
      assert sector[offset + i] == read[offset + i] == d.byte(start + pos + i);
      buffer[at + pos + i] := sector[offset + i];
    }
  }

  /** What a read of blocks has put in the buffer, and what it has read so far but not asked for yet. */
  ghost predicate Reading(d: Medium, b0: seq<Byte>, b: seq<Byte>, at: nat, start0: nat, pos: nat, done: nat,
                          combo: bool, comboStart: nat, comboCount: nat)
    requires d.bs > 0
  {
    && Holds(b, at, d, start0, 0, pos) && SameOutside(b0, b, at, 0, pos)
    && (combo ==> comboCount > 0 && comboStart * d.bs == start0 + pos && done == pos + comboCount * d.bs
                  && (start0 + done) % d.bs == 0)
    && (!combo ==> done == pos)
  }

  /** The pending blocks are transferred. */
  lemma Flushed(d: Medium, b0: seq<Byte>, b: seq<Byte>, b': seq<Byte>, at: nat, start0: nat, pos: nat, done: nat,
                comboStart: nat, comboCount: nat)
    requires d.bs > 0 && Reading(d, b0, b, at, start0, pos, done, true, comboStart, comboCount)
    requires Holds(b', at, d, start0, pos, done) && SameOutside(b, b', at, pos, done)
    ensures Reading(d, b0, b', at, start0, done, done, false, 0, 0)
  {
    hide Holds, SameOutside;
    HoldsMore(b, b', at, d, start0, 0, pos, done);
    SameMore(b0, b, b', at, 0, pos, done);
  }

  /** A chunk inside one block is transferred. */
  lemma ChunkRead(d: Medium, b0: seq<Byte>, b: seq<Byte>, b': seq<Byte>, at: nat, start0: nat, pos: nat, n: nat)
    requires d.bs > 0 && Reading(d, b0, b, at, start0, pos, pos, false, 0, 0)
    requires Holds(b', at, d, start0, pos, pos + n) && SameOutside(b, b', at, pos, pos + n)
    ensures Reading(d, b0, b', at, start0, pos + n, pos + n, false, 0, 0)
  {
    hide Holds, SameOutside;
    HoldsMore(b, b', at, d, start0, 0, pos, pos + n);
    SameMore(b0, b, b', at, 0, pos, pos + n);
  }

  /** A whole block joins the pending ones. */
  lemma BlockJoins(d: Medium, b0: seq<Byte>, b: seq<Byte>, at: nat, start0: nat, pos: nat, done: nat,
                   combo: bool, comboStart: nat, comboCount: nat)
    requires d.bs > 0 && Reading(d, b0, b, at, start0, pos, done, combo, comboStart, comboCount)
    requires (start0 + done) % d.bs == 0
    ensures var s, c := if combo then comboStart else (start0 + done) / d.bs, if combo then comboCount else 0;
            Reading(d, b0, b, at, start0, pos, done + d.bs, true, s, c + 1)
  {
    hide Holds, SameOutside;
    var x, bs := start0 + done, d.bs;
    assert x == x / bs * bs;
    assert (x + bs) % bs == 0 by { NextAligned(x, bs); }
    var c := if combo then comboCount else 0;
    assert (c + 1) * bs == c * bs + bs;
  }

  lemma NextAligned(x: nat, bs: nat)
    requires bs > 0 && x % bs == 0
    ensures (x + bs) % bs == 0
  {
    var q := x / bs;
    assert x + bs == (q + 1) * bs;
    MultipleAligned(q + 1, bs);
  }

  lemma {:induction false} MultipleAligned(q: nat, bs: nat)
    requires bs > 0
    ensures (q * bs) % bs == 0 && q * bs / bs == q
  {
    var x := q * bs;
    var a, r := x / bs, x % bs;
    assert x == a * bs + r;
    assert (q - a) * bs == r;
    var diff: int := q - a;
    assert diff >= 1 ==> diff * bs >= bs;
    assert diff <= -1 ==> diff * bs <= 0 - bs;
  }

  /**
   The loop of BlockHandle::read: the buffer gets the bytes asked for and nothing else changes.
   `requests` are the sector counts it asked the device for.
   */
  method ReadAligned(d: Medium, maxCombo: nat, buffer: array<Byte>, at: nat, start0: nat, len0: nat)
    returns (ghost requests: seq<nat>)
    requires d.bs > 0 && maxCombo > 0 && at + len0 <= buffer.Length
    modifies buffer
    ensures Holds(buffer[..], at, d, start0, 0, len0)
    ensures SameOutside(old(buffer[..]), buffer[..], at, 0, len0)
    ensures forall r :: r in requests ==> 0 < r <= maxCombo
  {
    hide Holds, SameOutside, Reading, Perfect;
    ghost var b0 := buffer[..];
    requests := [];
    var start: nat, len: nat, pos: nat := start0, len0, 0;
    var combo, comboStart: nat, comboCount: nat := false, 0, 0;
    ReadingNone(d, b0, at, start0);
    while len > 0
      invariant len <= len0 && start == start0 + (len0 - len) && 0 <= pos <= len0 - len
      invariant Reading(d, b0, buffer[..], at, start0, pos, len0 - len, combo, comboStart, comboCount)
      invariant combo ==> comboCount <= maxCombo
      invariant forall r :: r in requests ==> 0 < r <= maxCombo
    {
      var offset := start % d.bs;
      var llen := Min(d.bs - offset, len);
      if combo && comboCount == maxCombo {
        pos, requests := Flush(d, buffer, at, pos, comboStart, comboCount, b0, start0, len0 - len, requests);
        combo, comboStart, comboCount := false, 0, 0;
      }
      PerfectIsWhole(start, llen, d.bs);
      if !Perfect(start, llen, d.bs) {
        if combo {
          pos, requests := Flush(d, buffer, at, pos, comboStart, comboCount, b0, start0, len0 - len, requests);
          combo, comboStart, comboCount := false, 0, 0;
        }
        ghost var b := buffer[..];
        Idle(d, b0, b, at, start0, pos, len0 - len, comboStart, comboCount);
        ReadPart(d, buffer, at, pos, start / d.bs, offset, llen, start0);
        requests := requests + [1];
        ChunkRead(d, b0, b, buffer[..], at, start0, pos, llen);
        pos := pos + llen;
        comboStart, comboCount := 0, 0;
      } else {
        BlockJoins(d, b0, buffer[..], at, start0, pos, len0 - len, combo, comboStart, comboCount);
        if !combo { combo, comboStart, comboCount := true, start / d.bs, 0; }
        comboCount := comboCount + 1;
      }
      start := start + llen;
      len := len - llen;
    }
    if combo {
      pos, requests := Flush(d, buffer, at, pos, comboStart, comboCount, b0, start0, len0, requests);
      comboStart, comboCount := 0, 0;
    }
    Complete(d, b0, buffer[..], at, start0, pos, len0, comboStart, comboCount);
  }

  lemma ReadingNone(d: Medium, b0: seq<Byte>, at: nat, start0: nat)
    requires d.bs > 0 && at <= |b0|
    ensures Reading(d, b0, b0, at, start0, 0, 0, false, 0, 0)
  {
  }

  lemma Idle(d: Medium, b0: seq<Byte>, b: seq<Byte>, at: nat, start0: nat, pos: nat, done: nat, s: nat, c: nat)
    requires d.bs > 0 && Reading(d, b0, b, at, start0, pos, done, false, s, c)
    ensures done == pos && Reading(d, b0, b, at, start0, pos, pos, false, 0, 0)
  {
  }

  lemma Complete(d: Medium, b0: seq<Byte>, b: seq<Byte>, at: nat, start0: nat, pos: nat, done: nat, s: nat, c: nat)
    requires d.bs > 0 && Reading(d, b0, b, at, start0, pos, done, false, s, c)
    ensures Holds(b, at, d, start0, 0, done) && SameOutside(b0, b, at, 0, done)
  {
  }

  /** readBlock of the pending sectors. */
  method Flush(d: Medium, buffer: array<Byte>, at: nat, pos: nat, comboStart: nat, comboCount: nat,
               ghost b0: seq<Byte>, ghost start0: nat, ghost done: nat, ghost requests: seq<nat>)
    returns (pos': nat, ghost requests': seq<nat>)
    requires d.bs > 0 && Reading(d, b0, buffer[..], at, start0, pos, done, true, comboStart, comboCount)
    requires at + done <= buffer.Length
    modifies buffer
    ensures pos' == done && Reading(d, b0, buffer[..], at, start0, done, done, false, 0, 0)
    ensures requests' == requests + [comboCount] && comboCount > 0
  {
    hide Holds, SameOutside;
    ghost var b := buffer[..];
    Transfer(d, buffer, at, pos, comboStart * d.bs, comboCount * d.bs, start0);
    Flushed(d, b0, b, buffer[..], at, start0, pos, done, comboStart, comboCount);
    pos' := pos + comboCount * d.bs;
    requests' := requests + [comboCount];
  }

  // Buffers at odd addresses

  const U16 := 0x1_0000

  /** What is behind the last whole block. */
  function Rest(x: nat, bs: nat): (r: nat)
    requires bs > 0
    ensures r < bs && (x < bs ==> r == x)
  {
    x % bs
  }

  lemma RestAt(q: nat, r: nat, bs: nat)
    requires r < bs
    ensures Rest(q * bs + r, bs) == r
  {
    var x := q * bs + r;
    var a, b := x / bs, x % bs;
    assert x == a * bs + b;
    var diff: int := q - a;
    assert diff * bs == b - r;
    assert diff >= 1 ==> diff * bs >= bs;
    assert diff <= -1 ==> diff * bs <= 0 - bs;
  }

  lemma RestAdds(x: nat, y: nat, bs: nat)
    requires bs > 0 && Rest(x, bs) == 0
    ensures Rest(x + y, bs) == Rest(y, bs)
  {
    var q, c, r := x / bs, y / bs, y % bs;
    assert x + y == (q + c) * bs + r;
    RestAt(q + c, r, bs);
  }

  /** Cutting a length to 16 bits keeps what is behind its last whole block. */
  lemma RestCut(len: nat, bs: nat)
    requires bs > 0 && U16 % bs == 0
    ensures Rest(len % U16, bs) == Rest(len, bs)
  {
    var k, q := U16 / bs, len / U16;
    assert U16 == k * bs && U16 * q == (k * q) * bs;
    MultipleAligned(k * q, bs);
    RestAdds(U16 * q, len % U16, bs);
  }

  lemma RestParity(x: nat, bs: nat)
    requires bs > 0 && bs % 2 == 0
    ensures Rest(x, bs) % 2 == x % 2
  {
    var h, q := bs / 2, x / bs;
    assert q * bs == 2 * (q * h);
    assert x == 2 * (q * h) + x % bs;
  }

  /** How many bytes the loop for odd addresses copies at once; the length is cut to 16 bits. */
  function OddChunk(start: nat, len: nat, bs: nat): (n: nat)
    requires bs > 0
    ensures n <= len && n <= bs
  {
    var n := Min(Rest(start, bs), len);
    if n != 0 then n else Min(len % U16, bs)
  }

  /** What is read at an odd address arrives exactly in these cases. */
  predicate OddWorks(start: nat, len: nat, bs: nat)
    requires bs > 0
  {
    len == 0 || (Rest(start, bs) == 0 && (len < U16 || Rest(len, bs) % 2 == 1))
  }

  /** How far the loop for odd addresses has come while all its bytes are right. */
  predicate OddSoFar(start: nat, len: nat, bs: nat, pos: nat)
    requires bs > 0
  {
    pos == 0 || (Rest(start, bs) == 0 && pos <= len % U16 && (Rest(pos, bs) == 0 || pos == len % U16))
  }

  /**
   What the round at byte `pos` does, at an odd address: bytes from a wrong place or none at all only
   where the read cannot work, and an even address only where it does.
   */
  predicate OddNext(start: nat, len: nat, bs: nat, pos: nat)
    requires bs > 0 && pos <= len
  {
    var n, o := OddChunk(start + pos, len - pos, bs), Rest(start + pos, bs);
    && (o > 0 ==> n > 0 && !OddWorks(start, len, bs))
    && (o == 0 ==> OddSoFar(start, len, bs, pos + n))
    && (n == 0 ==> !OddWorks(start, len, bs))
    && (o == 0 && n % 2 == 1 && pos + n < len ==> OddWorks(start, len, bs))
  }

  lemma OddFirst(start: nat, len: nat, bs: nat)
    requires bs > 0 && bs % 2 == 0 && U16 % bs == 0 && 0 < len
    ensures OddNext(start, len, bs, 0)
  {
    RestCut(len, bs);
    RestAt(1, 0, bs);
    hide Rest;
  }

  lemma OddLater(start: nat, len: nat, bs: nat, pos: nat)
    requires bs > 0 && bs % 2 == 0 && U16 % bs == 0 && 0 < pos < len && pos % 2 == 0 && OddSoFar(start, len, bs, pos)
    ensures OddNext(start, len, bs, pos)
  {
    var cut := len % U16;
    assert (len - pos) % U16 == cut - pos;
    RestCut(len, bs);
    RestParity(cut, bs);
    RestAt(1, 0, bs);
    RestAdds(start, pos, bs);
    if Rest(pos, bs) == 0 {
      RestAdds(pos, cut - pos, bs);
      RestAdds(pos, bs, bs);
    }
    hide Rest;
  }

  /** The same bytes, counted from `pos` on. */
  lemma Shifted(d: Medium, b: seq<Byte>, b': seq<Byte>, at: nat, pos: nat, start: nat, n: nat)
    ensures Holds(b', at + pos, d, start + pos, 0, n) <==> Holds(b', at, d, start, pos, pos + n)
    ensures SameOutside(b, b', at + pos, 0, n) <==> SameOutside(b, b', at, pos, pos + n)
  {
    assert Holds(b', at, d, start, pos, pos + n) ==> Holds(b', at + pos, d, start + pos, 0, n);
  }

  /** What the loop for odd addresses has put in the buffer: right so far, or a byte from a wrong place. */
  ghost predicate OddState(d: Medium, b0: seq<Byte>, b: seq<Byte>, at: nat, start: nat, len: nat, pos: nat,
                           bad: bool, wrong: nat, from: nat)
    requires d.bs > 0
  {
    && pos <= len && at + len <= |b| && SameOutside(b0, b, at, 0, pos)
    && if bad then !OddWorks(start, len, d.bs) && wrong < pos && from != start + wrong && b[at + wrong] == d.byte(from)
       else Holds(b, at, d, start, 0, pos) && OddSoFar(start, len, d.bs, pos)
  }

  lemma OddStep(d: Medium, b0: seq<Byte>, b: seq<Byte>, b': seq<Byte>, at: nat, start: nat, len: nat, pos: nat,
                bad: bool, wrong: nat, from: nat)
    requires d.bs > 0 && OddState(d, b0, b, at, start, len, pos, bad, wrong, from)
    requires pos < len && (!bad ==> OddNext(start, len, d.bs, pos))
    requires var n, o := OddChunk(start + pos, len - pos, d.bs), Rest(start + pos, d.bs);
             && o <= start + pos && n > 0
             && Holds(b', at + pos, d, start + pos - o, 0, n) && SameOutside(b, b', at + pos, 0, n)
    ensures var n, o := OddChunk(start + pos, len - pos, d.bs), Rest(start + pos, d.bs);
            if bad || o == 0 then OddState(d, b0, b', at, start, len, pos + n, bad, wrong, from)
            else OddState(d, b0, b', at, start, len, pos + n, true, pos, start + pos - o)
  {
    hide Rest, OddWorks, OddSoFar, OddChunk;
    var n, o := OddChunk(start + pos, len - pos, d.bs), Rest(start + pos, d.bs);
    Shifted(d, b, b', at, pos, start, n);
    SameMore(b0, b, b', at, 0, pos, pos + n);
    if !bad && o == 0 { HoldsMore(b, b', at, d, start, 0, pos, pos + n); }
  }

  lemma OddNone(d: Medium, b: seq<Byte>, at: nat, start: nat, len: nat)
    requires d.bs > 0 && at + len <= |b|
    ensures OddState(d, b, b, at, start, len, 0, false, 0, 0)
  {
  }

  /** What a state says about whether the read can work. */
  lemma OddFacts(d: Medium, b0: seq<Byte>, b: seq<Byte>, at: nat, start: nat, len: nat, pos: nat,
                 bad: bool, wrong: nat, from: nat)
    requires d.bs > 0 && OddState(d, b0, b, at, start, len, pos, bad, wrong, from)
    ensures if bad then !OddWorks(start, len, d.bs) else OddSoFar(start, len, d.bs, pos)
    ensures !bad && pos == len ==> OddWorks(start, len, d.bs)
  {
    hide Rest, Holds, SameOutside;
  }

  lemma RestBlock(x: nat, bs: nat)
    requires bs > 0
    ensures Rest(x, bs) <= x && x / bs >= 0 && x / bs * bs == x - Rest(x, bs)
  {
  }

  /** The first n bytes of the sector that byte x is in. */
  method ReadSectorStart(d: Medium, buffer: array<Byte>, at: nat, x: nat, n: nat)
    requires d.bs > 0 && n <= d.bs && at + n <= buffer.Length
    modifies buffer
    ensures Rest(x, d.bs) <= x && Holds(buffer[..], at, d, x - Rest(x, d.bs), 0, n)
    ensures SameOutside(old(buffer[..]), buffer[..], at, 0, n)
  {
    hide Rest, Holds, SameOutside;
    RestBlock(x, d.bs);
    ReadPart(d, buffer, at, 0, x / d.bs, 0, n, x - Rest(x, d.bs));
  }

  /** One round at byte `pos`; no bytes mean that it goes round for ever. */
  method OddRound(d: Medium, buffer: array<Byte>, at: nat, start: nat, len: nat, pos: nat,
                  ghost b0: seq<Byte>, ghost bad: bool, ghost wrong: nat, ghost from: nat)
    returns (n: nat, ghost bad': bool, ghost wrong': nat, ghost from': nat)
    requires d.bs > 0 && d.bs % 2 == 0 && U16 % d.bs == 0 && pos < len && pos % 2 == 0 && at + len <= buffer.Length
    requires OddState(d, b0, buffer[..], at, start, len, pos, bad, wrong, from)
    modifies buffer
    ensures pos + n <= len && OddState(d, b0, buffer[..], at, start, len, pos + n, bad', wrong', from')
    ensures n == 0 ==> !OddWorks(start, len, d.bs)
    ensures !bad' && n % 2 == 1 && pos + n < len ==> OddWorks(start, len, d.bs)
  {
    hide Rest, OddChunk, OddState, Holds, SameOutside, OddWorks, OddSoFar;
    OddFacts(d, b0, buffer[..], at, start, len, pos, bad, wrong, from);
    if !bad {
      if pos == 0 { OddFirst(start, len, d.bs); } else { OddLater(start, len, d.bs, pos); }
    }
    n := OddChunk(start + pos, len - pos, d.bs);
    bad', wrong', from' := bad, wrong, from;
    if n == 0 { return; }
    ghost var b, o := buffer[..], Rest(start + pos, d.bs);
    ReadSectorStart(d, buffer, at + pos, start + pos, n);
    OddStep(d, b0, b, buffer[..], at, start, len, pos, bad, wrong, from);
    if !bad && o > 0 { bad', wrong', from' := true, pos, start + pos - o; }
  }

  /**
   The loop of BlockHandle::read for odd addresses. It copies sectors from their start on, and goes round
   for ever (`hangs`) when the 16-bit length is 0. Where it can work all bytes are right; elsewhere it
   hangs or the byte `wrong` of the buffer is the one at `from`.
   */
  method ReadOdd(d: Medium, buffer: array<Byte>, at: nat, address: nat, start: nat, len: nat)
    returns (pos: nat, hangs: bool, ghost bad: bool, ghost wrong: nat, ghost from: nat, ghost requests: seq<nat>)
    requires d.bs > 0 && d.bs % 2 == 0 && U16 % d.bs == 0 && at + len <= buffer.Length && address % 2 == 1
    modifies buffer
    ensures OddState(d, old(buffer[..]), buffer[..], at, start, len, pos, bad, wrong, from)
    ensures if OddWorks(start, len, d.bs) then !bad && !hangs else bad || hangs
    ensures !hangs ==> pos == len || (address + pos) % 2 == 0
    ensures forall r :: r in requests ==> r == 1
  {
    hide OddState, OddWorks;
    ghost var b0 := buffer[..];
    pos, hangs, bad, wrong, from, requests := 0, false, false, 0, 0, [];
    OddNone(d, b0, at, start, len);
    while (address + pos) % 2 == 1
      invariant pos < len || (pos == len == 0)
      invariant OddState(d, b0, buffer[..], at, start, len, pos, bad, wrong, from)
      invariant !bad && (address + pos) % 2 == 0 ==> OddWorks(start, len, d.bs)
      invariant forall r :: r in requests ==> r == 1
      decreases len - pos
    {
      requests := requests + [1];
      if len == 0 { break; }
      var n;
      n, bad, wrong, from := OddRound(d, buffer, at, start, len, pos, b0, bad, wrong, from);
      if n == 0 { return pos, true, bad, wrong, from, requests; }
      pos := pos + n;
      if pos == len { break; }
    }
    OddFacts(d, b0, buffer[..], at, start, len, pos, bad, wrong, from);
  }

  lemma OddHolds(d: Medium, b0: seq<Byte>, b: seq<Byte>, b': seq<Byte>, at: nat, start: nat, len: nat, pos: nat,
                 bad: bool, wrong: nat, from: nat)
    requires d.bs > 0 && OddState(d, b0, b, at, start, len, pos, bad, wrong, from)
    requires Holds(b', at + pos, d, start + pos, 0, len - pos) && SameOutside(b, b', at + pos, 0, len - pos)
    ensures SameOutside(b0, b', at, 0, len)
    ensures if bad then wrong < len && from != start + wrong && b'[at + wrong] == d.byte(from)
            else Holds(b', at, d, start, 0, len)
  {
    hide Rest, OddSoFar, OddWorks;
    Shifted(d, b, b', at, pos, start, len - pos);
    SameMore(b0, b, b', at, 0, pos, len);
    if !bad { HoldsMore(b, b', at, d, start, 0, pos, len); }
  }

  /**
   BlockHandle::read. At an even address, and at an odd one where that can work, the buffer gets the bytes
   asked for. Otherwise it hangs, or the byte `wrong` of the buffer is the one at `from` instead.
   */
  method ReadHandle(d: Medium, maxCombo: nat, buffer: array<Byte>, at: nat, address: nat, start: nat, len: nat)
    returns (hangs: bool, ghost wrong: nat, ghost from: nat, ghost requests: seq<nat>)
    requires d.bs > 0 && d.bs % 2 == 0 && U16 % d.bs == 0 && maxCombo > 0 && at + len <= buffer.Length
    modifies buffer
    ensures SameOutside(old(buffer[..]), buffer[..], at, 0, len)
    ensures address % 2 == 0 || OddWorks(start, len, d.bs) ==> !hangs && Holds(buffer[..], at, d, start, 0, len)
    ensures address % 2 == 1 && !OddWorks(start, len, d.bs) ==>
              hangs || (wrong < len && from != start + wrong && buffer[at + wrong] == d.byte(from))
    ensures forall r :: r in requests ==> 0 < r <= maxCombo
  {
    hide Rest, Holds, SameOutside, OddState, OddWorks;
    ghost var b0 := buffer[..];
    var pos := 0;
    ghost var bad;
    hangs, bad, wrong, from, requests := false, false, 0, 0, [];
    OddNone(d, b0, at, start, len);
    if address % 2 == 1 {
      pos, hangs, bad, wrong, from, requests := ReadOdd(d, buffer, at, address, start, len);
      OddBounds(d, b0, buffer[..], at, start, len, pos, bad, wrong, from);
      if hangs { return; }
    }
    ghost var b, more := buffer[..], requests;
    more := ReadAligned(d, maxCombo, buffer, at + pos, start + pos, len - pos);
    requests := requests + more;
    OddHolds(d, b0, b, buffer[..], at, start, len, pos, bad, wrong, from);
  }

  lemma OddBounds(d: Medium, b0: seq<Byte>, b: seq<Byte>, at: nat, start: nat, len: nat, pos: nat,
                  bad: bool, wrong: nat, from: nat)
    requires d.bs > 0 && OddState(d, b0, b, at, start, len, pos, bad, wrong, from)
    ensures pos <= len && SameOutside(b0, b, at, 0, len)
  {
  }
}
