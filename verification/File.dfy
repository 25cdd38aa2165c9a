/**
 fs/inodefile.hpp: reading a file through one cached block. The block size is a power of two, so
 that the mask in `read` is the remainder.
 */
module Files {
  import opened Basics
  import opened Blocks
  import opened InodeBlocks

  const U32 := 0x1_0000_0000

  datatype SeekMode = Set | Current | End | Unknown

  lemma WholeBound(start: nat, len: nat, bs: nat)
    requires bs > 0
    ensures WholeBlocks(start, len, bs) * bs <= len
  {
    var first, last := (start + bs - 1) / bs, (start + len) / bs;
    assert start + bs - 1 == first * bs + (start + bs - 1) % bs;
    assert start + len == last * bs + (start + len) % bs;
    if last > first { assert (last - first) * bs == last * bs - first * bs; }
  }

  /** A request shorter than 65536 blocks has no gap. */
  lemma ShortHasNoGap(start: nat, len: nat, bs: nat)
    requires bs > 0 && len < COUNT_LIMIT * bs
    ensures Lost(WholeBlocks(start, len, bs), bs) == 0
  {
    WholeBound(start, len, bs);
    var w := WholeBlocks(start, len, bs);
    assert w >= COUNT_LIMIT ==> w * bs >= COUNT_LIMIT * bs;
  }

  class INodeFile {
    const d: Medium         // what the inode holds
    const size: nat
    var pos: nat
    var cached: int         // the number of the cached block, -1 for none
    const cache: array<Byte>

    /** The cached block is the one in the file. */
    ghost predicate Valid()
      reads this, cache
    {
      && 0 < d.bs < 0x1_0000 && cache.Length == d.bs && pos <= size
      && (cached >= 0 ==> Holds(cache[..], 0, d, cached * d.bs, 0, d.bs))
    }

    constructor (d: Medium, size: nat)
      requires 0 < d.bs < 0x1_0000
      ensures Valid() && this.d == d && this.size == size && pos == 0 && cached == -1 && fresh(cache)
    {
      this.d, this.size, pos, cached, cache := d, size, 0, -1, new Byte[d.bs];
    }

    /** How many of the n bytes at the cursor the cached block has. */
    function FromCache(n: nat): (k: nat)
      requires d.bs > 0
      reads this
      ensures k <= n
    {
      if n > 0 && pos / d.bs == cached then Min(d.bs - pos % d.bs, n) else 0
    }

    /** The bytes of the cached block go to the start of the buffer. */
    method ReadCached(buffer: array<Byte>, n: nat) returns (k: nat)
      requires Valid() && buffer != cache && n <= buffer.Length
      modifies buffer
      ensures k == FromCache(n) == if n > 0 && pos / d.bs == cached then Min(d.bs - pos % d.bs, n) else 0
      ensures Holds(buffer[..], 0, d, pos, 0, k) && SameOutside(old(buffer[..]), buffer[..], 0, 0, k)
    {
      k := 0;
      if n == 0 || pos / d.bs != cached { return; }
      var offset := pos % d.bs;
      assert cached * d.bs + offset == pos;
      k := Min(d.bs - offset, n);
      for i := 0 to k
        invariant Holds(buffer[..], 0, d, pos, 0, i) && SameOutside(old(buffer[..]), buffer[..], 0, 0, i)
      {
        assert cache[offset + i] == cache[..][offset + i] == d.byte(pos + i);
        buffer[i] := cache[offset + i];
      }
    }

    /** Keeps the block that the cursor is in. */
    method Refresh()
      requires 0 < d.bs < 0x1_0000 && cache.Length == d.bs && pos <= size
      requires cached >= 0 ==> Holds(cache[..], 0, d, cached * d.bs, 0, d.bs)
      modifies this`cached, cache
      ensures Valid() && cached == pos / d.bs
    {
      hide Holds, SameOutside, ReadWithGap, WholeBlocks, Lost;
      var last := pos / d.bs;
      assert last >= 0;
      if last != cached {
        ghost var gapAt, gapLen := ReadBlocks(d, cache, 0, last * d.bs, d.bs);
        ShortHasNoGap(last * d.bs, d.bs, d.bs);
        NoGapHere(d, old(cache[..]), cache[..], 0, last * d.bs, d.bs, gapAt, gapLen);
      }
      cached := last;
    }

    /**
     read: the cursor advances by what is left of the file, `count` bytes at most, and the cached
     block stays the one in the file. Of the n bytes, k come from the cache. The length of the rest is
     cut to 32 bits, and bytes beyond that keep what was in the buffer; so do those of the gap that
     16-bit block counts leave. Without either the buffer gets exactly these bytes of the file. The
     value returned is n only when nothing came from the cache, or all of it not at the end of the file.
     */
    method Read(buffer: array<Byte>, count: nat) returns (ret: nat, ghost n: nat, ghost gapAt: nat, ghost gapLen: nat)
      requires Valid() && buffer != cache && Min(size - pos, count) <= buffer.Length
      modifies this, buffer, cache
      ensures Valid() && n == Min(size - old(pos), count) && pos == old(pos) + n
      ensures Delivered(d, old(buffer[..]), buffer[..], old(pos), n, old(FromCache(n)), gapAt, gapLen)
      ensures ret == if n == 0 then 0 else if old(FromCache(n)) == n then count % U32 else (n - old(FromCache(n)))
      ensures old(FromCache(n)) == if n > 0 && old(pos) / d.bs == old(cached) then Min(d.bs - old(pos) % d.bs, n) else 0
    {
      hide Holds, SameOutside, ReadWithGap, WholeBlocks, Lost, Delivered;
      var left := Min(size - pos, count);
      n := left;
      ghost var b0 := buffer[..];
      var k := ReadCached(buffer, left);
      ghost var b, start := buffer[..], pos;
      NoBlocks(d, b0, b, start, k);
      gapAt, gapLen := k, 0;
      if left == 0 { return 0, n, gapAt, gapLen; }
      pos := pos + k;
      left := left - k;
      if left == 0 { return count % U32, n, gapAt, gapLen; }
      gapAt, gapLen := ReadBlocks(d, buffer, k, pos, left % U32);
      Joined(d, b0, b, buffer[..], start, k, left, gapAt, gapLen);
      gapAt := k + gapAt;
      pos := pos + left;
      Refresh();
      ret := left;
    }

    /** seek: outside the file it fails and leaves the cursor alone. */
    method Seek(offset: int, mode: SeekMode) returns (ok: bool)
      requires Valid()
      modifies this`pos
      ensures Valid()
      ensures var target := match mode
                            case Set => offset
                            case Current => old(pos) + offset
                            case End => size + offset
                            case Unknown => 0;
              ok == (0 <= target <= size) && pos == if ok then target else old(pos)
    {
      var target := 0;
      match mode {
        case Set => target := offset;
        case Current => target := pos + offset;
        case End => target := size + offset;
        case Unknown =>
      }
      if target < 0 || target > size { return false; }
      pos := target;
      ok := true;
    }

    /** dup: a second handle at the same place, with a cache of its own. */
    method Dup() returns (f: INodeFile)
      requires Valid()
      ensures fresh(f) && fresh(f.cache) && f.Valid()
      ensures f.d == d && f.size == size && f.pos == pos && f.cached == cached
    {
      f := new INodeFile(d, size);
      f.pos := pos;
      for i := 0 to d.bs
        invariant f.pos == pos && f.cached == -1 && fresh(f) && fresh(f.cache) && f.cache != cache
        invariant f.cache[..i] == cache[..i]
      {
        f.cache[i] := cache[i];
      }
      assert f.cache[..] == f.cache[..d.bs] == cache[..d.bs] == cache[..];
      f.cached := cached;
    }
  }

  /** The n bytes from `start` on, of which k came from the cache, as far as the code delivers them. */
  ghost predicate Delivered(d: Medium, b0: seq<Byte>, b: seq<Byte>, start: nat, n: nat, k: nat, gapAt: nat, gapLen: nat)
    requires k <= n
  {
    && d.bs > 0 && ReadWithGap(d, b0, b, 0, start, k + (n - k) % U32, gapAt, gapLen)
    && gapLen == Lost(WholeBlocks(start + k, (n - k) % U32, d.bs), d.bs)
  }

  /** Everything is delivered when the rest is below 2^32 bytes and has fewer than 65536 whole blocks. */
  lemma DeliveredWhole(d: Medium, b0: seq<Byte>, b: seq<Byte>, start: nat, n: nat, k: nat, gapAt: nat, gapLen: nat)
    requires k <= n && Delivered(d, b0, b, start, n, k, gapAt, gapLen)
    requires n - k < U32 && WholeBlocks(start + k, n - k, d.bs) < COUNT_LIMIT
    ensures Holds(b, 0, d, start, 0, n) && SameOutside(b0, b, 0, 0, n)
  {
    hide Holds, SameOutside, WholeBlocks, Lost, ReadWithGap;
    NoGapHere(d, b0, b, 0, start, n, gapAt, gapLen);
  }

  /** Otherwise byte i keeps what was in the buffer: it lies in the gap or behind what was read. */
  lemma NotDelivered(d: Medium, b0: seq<Byte>, b: seq<Byte>, start: nat, n: nat, k: nat, gapAt: nat, gapLen: nat)
    returns (i: nat)
    requires k <= n <= |b0| && Delivered(d, b0, b, start, n, k, gapAt, gapLen)
    requires n - k >= U32 || WholeBlocks(start + k, n - k, d.bs) >= COUNT_LIMIT
    ensures i < n && |b| == |b0| && b[i] == b0[i]
    ensures gapAt <= i < gapAt + gapLen || k + (n - k) % U32 <= i
  {
    hide WholeBlocks, Lost;
    if n - k >= U32 {
      i := k + (n - k) % U32;
    } else {
      assert (n - k) % U32 == n - k;
      i := gapAt;
    }
  }

  /** Only the cache was used. */
  lemma NoBlocks(d: Medium, b0: seq<Byte>, b: seq<Byte>, start: nat, k: nat)
    requires d.bs > 0 && Holds(b, 0, d, start, 0, k) && SameOutside(b0, b, 0, 0, k)
    ensures Delivered(d, b0, b, start, k, k, k, 0)
  {
    ShortHasNoGap(start + k, 0, d.bs);
  }

  lemma NoGapHere(d: Medium, b0: seq<Byte>, b: seq<Byte>, at: nat, start0: nat, len: nat, gapAt: nat, gapLen: nat)
    requires ReadWithGap(d, b0, b, at, start0, len, gapAt, gapLen) && gapLen == 0
    ensures Holds(b, at, d, start0, 0, len) && SameOutside(b0, b, at, 0, len)
  {
  }

  /** The bytes from the cache and those from the blocks behind them. */
  lemma Joined(d: Medium, b0: seq<Byte>, b: seq<Byte>, b': seq<Byte>, start: nat, k: nat, left: nat, gapAt: nat,
               gapLen: nat)
    requires d.bs > 0 && Holds(b, 0, d, start, 0, k) && SameOutside(b0, b, 0, 0, k)
    requires ReadWithGap(d, b, b', k, start + k, left % U32, gapAt, gapLen)
    requires gapLen == Lost(WholeBlocks(start + k, left % U32, d.bs), d.bs)
    ensures Delivered(d, b0, b', start, k + left, k, k + gapAt, gapLen)
  {
    hide WholeBlocks, Lost;
    var len := left % U32;
    JoinedGap(d, b0, b, b', start, k, len, gapAt, gapLen);
  }

  lemma JoinedGap(d: Medium, b0: seq<Byte>, b: seq<Byte>, b': seq<Byte>, start: nat, k: nat, len: nat, gapAt: nat,
                  gapLen: nat)
    requires Holds(b, 0, d, start, 0, k) && SameOutside(b0, b, 0, 0, k)
    requires ReadWithGap(d, b, b', k, start + k, len, gapAt, gapLen)
    ensures ReadWithGap(d, b0, b', 0, start, k + len, k + gapAt, gapLen)
  {
  }
}
