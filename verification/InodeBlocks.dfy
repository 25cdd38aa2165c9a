/** fs/inodefile.hpp: the coalescing loop of INodeFile, whose block counts are cut to 16 bits. */
module InodeBlocks {
  import opened Basics
  import opened Blocks

  const COUNT_LIMIT := 0x1_0000      // INode::readBlocks takes a uint16_t count

  /** The blocks that lie completely within the range. */
  function WholeBlocks(start: nat, len: nat, bs: nat): (n: nat)
    requires bs > 0
  {
    var first, last := (start + bs - 1) / bs, (start + len) / bs;
    if last > first then last - first else 0
  }

  /** The bytes of n blocks that a count cut to 16 bits leaves out; none exactly below 65536 blocks. */
  function Lost(n: nat, bs: nat): (b: nat)
    ensures bs > 0 ==> (b == 0 <==> n < COUNT_LIMIT)
    ensures n % COUNT_LIMIT * bs + b == n * bs
  {
    (n - n % COUNT_LIMIT) * bs
  }

  lemma Quotient(q: nat, x: nat, bs: nat)
    requires bs > 0 && q * bs <= x < q * bs + bs
    ensures x / bs == q
  {
    var a, r := x / bs, x % bs;
    assert x == a * bs + r;
    var diff: int := q - a;
    assert diff * bs == q * bs - a * bs;
    assert diff >= 1 ==> diff * bs >= bs;
    assert diff <= -1 ==> diff * bs <= 0 - bs;
  }

  /** c whole blocks from block `first` on, and less than a block before and behind them. */
  lemma WholeIs(start: nat, len: nat, bs: nat, first: nat, c: nat)
    requires bs > 0 && start <= first * bs < start + bs
    requires start + len < (first + c) * bs + bs && (c > 0 ==> (first + c) * bs <= start + len)
    ensures WholeBlocks(start, len, bs) == c
  {
    Quotient(first, start + bs - 1, bs);
    var x := start + len;
    if c > 0 {
      Quotient(first + c, x, bs);
    } else {
      assert x == x / bs * bs + x % bs;
      var diff: int := x / bs - first;
      assert diff * bs == x / bs * bs - first * bs;
      assert diff >= 1 ==> diff * bs >= bs;
    }
  }

  /** The range is read, except that the bytes of a gap keep what was in the buffer. */
  ghost predicate ReadWithGap(d: Medium, b0: seq<Byte>, b: seq<Byte>, at: nat, start0: nat, len: nat, gapAt: nat,
                              gapLen: nat)
  {
    && gapAt + gapLen <= len
    && Holds(b, at, d, start0, 0, gapAt) && Holds(b, at, d, start0, gapAt + gapLen, len)
    && SameOutside(b0, b, at, 0, len)
    && forall i: nat :: at + gapAt <= i < at + gapAt + gapLen && i < |b| && i < |b0| ==> b[i] == b0[i]
  }

  lemma GapNone(d: Medium, b0: seq<Byte>, b: seq<Byte>, at: nat, start0: nat, pos: nat, s: nat, c: nat)
    requires d.bs > 0 && Reading(d, b0, b, at, start0, pos, pos, false, s, c)
    ensures ReadWithGap(d, b0, b, at, start0, pos, pos, 0)
  {
  }

  /** The pending blocks are asked for with a count cut to 16 bits; the rest of them is the gap. */
  lemma GapFlush(d: Medium, b0: seq<Byte>, b: seq<Byte>, b': seq<Byte>, at: nat, start0: nat, pos: nat, done: nat,
                 comboStart: nat, comboCount: nat, filled: nat)
    requires d.bs > 0 && Reading(d, b0, b, at, start0, pos, done, true, comboStart, comboCount)
    requires pos <= filled <= done && at + done <= |b| && Holds(b', at, d, start0, pos, filled)
             && SameOutside(b, b', at, pos, filled)
    ensures ReadWithGap(d, b0, b', at, start0, done, filled, done - filled)
  {
    HoldsMore(b, b', at, d, start0, 0, pos, filled);
  }

  lemma GapMore(d: Medium, b0: seq<Byte>, b: seq<Byte>, b': seq<Byte>, at: nat, start0: nat, len: nat, gapAt: nat,
                gapLen: nat, n: nat)
    requires ReadWithGap(d, b0, b, at, start0, len, gapAt, gapLen)
    requires Holds(b', at, d, start0, len, len + n) && SameOutside(b, b', at, len, len + n)
    ensures ReadWithGap(d, b0, b', at, start0, len + n, gapAt, gapLen)
  {
    SameMore(b0, b, b', at, 0, len, len + n);
  }

  /** INode::readBlocks of the pending blocks. */
  method FlushCut(d: Medium, buffer: array<Byte>, at: nat, pos: nat, comboStart: nat, comboCount: nat,
                  ghost b0: seq<Byte>, ghost start0: nat, ghost done: nat)
    returns (pos': nat, ghost gapLen: nat)
    requires d.bs > 0 && Reading(d, b0, buffer[..], at, start0, pos, done, true, comboStart, comboCount)
    requires at + done <= buffer.Length
    modifies buffer
    ensures pos' == done && gapLen <= done && ReadWithGap(d, b0, buffer[..], at, start0, done, done - gapLen, gapLen)
    ensures gapLen == Lost(comboCount, d.bs)
  {
    hide Holds, SameOutside, ReadWithGap;
    ghost var b := buffer[..];
    var count := comboCount % COUNT_LIMIT;
    gapLen := Lost(comboCount, d.bs);
    Transfer(d, buffer, at, pos, comboStart * d.bs, count * d.bs, start0);
    GapFlush(d, b0, b, buffer[..], at, start0, pos, done, comboStart, comboCount, done - gapLen);
    pos' := pos + comboCount * d.bs;
  }

  /**
   INodeFile::readBlocks. The buffer gets the bytes asked for, and nothing else changes, exactly
   when the range has fewer than 65536 whole blocks; otherwise a gap keeps its old bytes.
   */
  method ReadBlocks(d: Medium, buffer: array<Byte>, at: nat, start0: nat, len0: nat)
    returns (ghost gapAt: nat, ghost gapLen: nat)
    requires d.bs > 0 && at + len0 <= buffer.Length
    modifies buffer
    ensures ReadWithGap(d, old(buffer[..]), buffer[..], at, start0, len0, gapAt, gapLen)
    ensures gapLen == Lost(WholeBlocks(start0, len0, d.bs), d.bs)
  {
    hide Holds, SameOutside, Reading, Perfect, ReadWithGap, WholeBlocks, Lost;
    ghost var b0, first := buffer[..], First(start0, d.bs);
    ghost var flushed := false;
    var start: nat, len: nat, pos: nat := start0, len0, 0;
    var combo, comboStart: nat, comboCount: nat := false, 0, 0;
    gapAt, gapLen := 0, 0;
    ReadingNone(d, b0, at, start0);
    while len > 0
      invariant len <= len0 && start == start0 + (len0 - len) && pos <= len0 - len
      invariant !flushed ==> Reading(d, b0, buffer[..], at, start0, pos, len0 - len, combo, comboStart, comboCount)
      invariant combo ==> !flushed && comboStart == first && start == (first + comboCount) * d.bs
      invariant !combo && !flushed && len > 0 ==> start == start0 || start == first * d.bs
      invariant !combo && !flushed && len == 0 ==> start0 + len0 < first * d.bs + d.bs
      invariant !flushed ==> gapLen == 0
      invariant flushed ==> len == 0 && ReadWithGap(d, b0, buffer[..], at, start0, len0, gapAt, gapLen)
      invariant flushed ==> gapLen == Lost(WholeBlocks(start0, len0, d.bs), d.bs)
    {
      var offset := start % d.bs;
      var llen := Min(d.bs - offset, len);
      PerfectIsWhole(start, llen, d.bs);
      if !Perfect(start, llen, d.bs) {
        ghost var done := len0 - len;
        if combo {
          assert offset == 0 && llen == len by { MultipleAligned(first + comboCount, d.bs); }
          WholeIs(start0, len0, d.bs, first, comboCount);
          pos, gapLen := FlushCut(d, buffer, at, pos, comboStart, comboCount, b0, start0, done);
          gapAt, combo, flushed := done - gapLen, false, true;
        } else {
          Idle(d, b0, buffer[..], at, start0, pos, done, comboStart, comboCount);
        }
        ghost var b := buffer[..];
        ReadPart(d, buffer, at, pos, start / d.bs, offset, llen, start0);
        if flushed {
          GapMore(d, b0, b, buffer[..], at, start0, done, gapAt, gapLen, llen);
        } else {
          ChunkRead(d, b0, b, buffer[..], at, start0, pos, llen);
          FirstChunk(start0, start / d.bs, offset, llen, len, d.bs, first);
        }
        pos := pos + llen;
        comboStart, comboCount := 0, 0;
      } else {
        BlockJoins(d, b0, buffer[..], at, start0, pos, len0 - len, combo, comboStart, comboCount);
        if !combo {
          AlignedFirst(start0, start, d.bs, first);
          combo, comboStart, comboCount := true, start / d.bs, 0;
        }
        assert (first + comboCount + 1) * d.bs == (first + comboCount) * d.bs + d.bs;
        comboCount := comboCount + 1;
      }
      start := start + llen;
      len := len - llen;
    }
    if combo {
      WholeIs(start0, len0, d.bs, first, comboCount);
      pos, gapLen := FlushCut(d, buffer, at, pos, comboStart, comboCount, b0, start0, len0);
      gapAt := len0 - gapLen;
    } else if !flushed {
      WholeIs(start0, len0, d.bs, first, 0);
      Idle(d, b0, buffer[..], at, start0, pos, len0, comboStart, comboCount);
      GapNone(d, b0, buffer[..], at, start0, len0, 0, 0);
      gapAt := len0;
    }
  }

  /** The first block that starts at or behind `start`. */
  function First(start: nat, bs: nat): (f: nat)
    requires bs > 0
    ensures start <= f * bs < start + bs
  {
    assert start + bs - 1 == (start + bs - 1) / bs * bs + (start + bs - 1) % bs;
    (start + bs - 1) / bs
  }

  /** A chunk that is no whole block ends at that block, or is the last one. */
  lemma FirstChunk(start0: nat, q: nat, r: nat, llen: nat, len: nat, bs: nat, first: nat)
    requires r < bs && start0 <= first * bs < start0 + bs && (q * bs + r == start0 || q * bs + r == first * bs)
    requires len > 0 && llen == Min(bs - r, len) && !(r == 0 && llen == bs)
    ensures llen < len ==> q * bs + r + llen == first * bs
    ensures llen == len ==> q * bs + r + len < first * bs + bs
  {
    assert (q + 2) * bs == q * bs + 2 * bs && (q + 1) * bs == q * bs + bs;
    if r > 0 {
      NotBetween(q, first, r, bs);
      Squeeze(q, first, bs);
    }
  }

  lemma NotBetween(q: nat, first: nat, r: nat, bs: nat)
    requires 0 < r < bs
    ensures q * bs + r != first * bs
  {
    var diff: int := first - q;
    assert diff * bs == first * bs - q * bs;
    assert diff >= 1 ==> diff * bs >= bs;
    assert diff <= 0 ==> diff * bs <= 0;
  }

  lemma Squeeze(q: nat, first: nat, bs: nat)
    requires q * bs < first * bs < (q + 2) * bs
    ensures first == q + 1
  {
    var diff: int := first - q;
    assert diff * bs == first * bs - q * bs;
    assert diff >= 2 ==> diff * bs >= 2 * bs;
    assert diff <= 0 ==> diff * bs <= 0;
  }

  lemma AlignedFirst(start0: nat, start: nat, bs: nat, first: nat)
    requires bs > 0 && start % bs == 0 && start0 <= first * bs < start0 + bs && (start == start0 || start == first * bs)
    ensures start == first * bs && start / bs == first
  {
    MultipleAligned(first, bs);
    var q := start / bs;
    assert start == q * bs;
    var diff: int := first - q;
    assert diff * bs == first * bs - q * bs;
    assert diff >= 1 ==> diff * bs >= bs;
    assert diff <= -1 ==> diff * bs <= 0 - bs;
  }
}
