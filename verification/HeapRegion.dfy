/** mem/heap.cpp: one slab as a value, and what allocating and freeing a block means for it. */
module HeapRegions {
  import opened Basics
  import opened Bitmap

  const PIECE := 16          // ALLOC_SIZE, also the room of a block header

  /** The pieces of a block for `size` bytes, with its header. */
  function PieceCount(size: nat): (n: nat)
    ensures n * PIECE >= size + PIECE && (n - 1) * PIECE < size + PIECE
  {
    (size + PIECE + PIECE - 1) / PIECE
  }

  /** The n lowest bytes of v, the lowest first. */
  function Le(v: nat, n: nat): (b: seq<Byte>)
    ensures |b| == n
  {
    if n == 0 then [] else [v % 256] + Le(v / 256, n - 1)
  }

  function FromLe(b: seq<Byte>): nat {
    if b == [] then 0 else b[0] + 256 * FromLe(b[1..])
  }

  function Range256(n: nat): nat {
    if n == 0 then 1 else 256 * Range256(n - 1)
  }

  lemma {:induction false} LeRoundTrip(v: nat, n: nat)
    requires v < Range256(n)
    ensures FromLe(Le(v, n)) == v
  {
    if n > 0 {
      LeRoundTrip(v / 256, n - 1);
      assert Le(v, n)[1..] == Le(v / 256, n - 1);
    }
  }

  const SANITY := 8          // the room of the sanity word
  const SANITY_XOR: seq<Byte> := [0xEC, 0x31, 0x52, 0x1F, 0x9B, 0x82, 0xAC, 0x28]

  function Xor(a: Byte, b: Byte): (c: Byte) {
    (a as bv8 ^ b as bv8) as nat
  }

  /** The sanity word in front of the block that is handed out as `ptr`. */
  function Sanity(ptr: nat): (b: seq<Byte>)
    ensures |b| == SANITY
  {
    seq(SANITY, i requires 0 <= i < SANITY => Xor(Le(ptr, SANITY)[i], SANITY_XOR[i]))
  }

  lemma SanityConstant()
    ensures FromLe(SANITY_XOR) == 0x28AC_829B_1F52_31EC
  {
    var c := SANITY_XOR;
    assert c[7..] == [0x28] && [0x28][1..] == [] && c[6..][1..] == c[7..];
    assert FromLe([0x28]) == 0x28;
    assert FromLe(c[6..]) == 0x28AC;
    assert c[5..][1..] == c[6..] && c[4..][1..] == c[5..] && c[3..][1..] == c[4..];
    assert FromLe(c[4..]) == 0x28AC_829B;
    assert c[2..][1..] == c[3..] && c[1..][1..] == c[2..];
    assert FromLe(c[2..]) == 0x28AC_829B_1F52;
  }

  /** The header of a block of n pieces: sanity word, length, and the four bytes that stay zero. */
  function Header(ptr: nat, n: nat): (b: seq<Byte>)
    ensures |b| == PIECE && b[..SANITY] == Sanity(ptr) && b[SANITY..SANITY + 4] == Le(n, 4)
  {
    Sanity(ptr) + Le(n, 4) + Le(0, 4)
  }

  /** No sanity word of an aligned pointer is made of one byte that memset writes here. */
  lemma FillIsNoSanity(ptr: nat, x: Byte)
    requires ptr % PIECE == 0 && (x == 0 || x == 0x5A)
    ensures Sanity(ptr) != seq(SANITY, _ => x)
  {
    var low := ptr % 256;
    assert low % PIECE == 0;
    assert Le(ptr, SANITY)[0] == low;
    LowByte(low);
    assert Sanity(ptr)[0] == Xor(low, 0xEC);
    assert seq(SANITY, _ => x)[0] == x;
  }

  lemma LowByte(b: Byte)
    requires b % PIECE == 0
    ensures Xor(b, 0xEC) != 0 && Xor(b, 0xEC) != 0x5A
  {
    var v := b as bv8;
    assert v & 0x0F == 0;
    assert v ^ 0xEC != 0 && v ^ 0xEC != 0x5A;
  }

  /**
   A slab: the address of its data, the length of its bitmap in words, the bitmap with the word
   behind it, the lengths of the live blocks by the piece of their header, and the data.
   */
  datatype Region = Region(base: nat, words: nat, bitmap: seq<Word>, headers: map<nat, nat>, data: seq<Byte>)
  {
    function Pieces(): nat {
      WORD_BITS * words
    }
  }

  /** Piece i belongs to the block that starts at piece s. */
  predicate InBlock(headers: map<nat, nat>, s: nat, i: nat) {
    s in headers && s <= i < s + headers[s]
  }

  ghost predicate Covered(headers: map<nat, nat>, i: nat) {
    exists s :: InBlock(headers, s, i)
  }

  /** Blocks have a header and at least one more piece, lie inside the slab and do not overlap. */
  ghost predicate Laid(headers: map<nat, nat>, pieces: nat) {
    && (forall s :: s in headers ==> headers[s] >= 2 && s + headers[s] <= pieces)
    && (forall s, t :: s in headers && t in headers && s < t ==> s + headers[s] <= t)
  }

  /** The bytes in front of the block at piece s are its header. */
  predicate HasHeader(r: Region, s: nat, n: nat) {
    PIECE * s + PIECE <= |r.data| && r.data[PIECE * s..PIECE * s + PIECE] == Header(r.base + PIECE * s + PIECE, n)
  }

  /** Every live block has its header. */
  predicate Headed(r: Region) {
    forall s :: s in r.headers ==> HasHeader(r, s, r.headers[s])
  }

  ghost predicate Ok(r: Region) {
    && |r.bitmap| == r.words + 1 && |r.data| == PIECE * r.Pieces() < 0x1_0000_0000
    && r.base > 0 && r.base % PIECE == 0
    && Laid(r.headers, r.Pieces()) && Headed(r)
    && forall i: nat :: i < r.Pieces() ==> (Taken(r.bitmap, i) <==> Covered(r.headers, i))
  }

  /** The number of pieces that are not in use. */
  ghost function Clear(r: Region): (n: int) {
    r.Pieces() - |TakenSet(r.bitmap, r.Pieces())|
  }

  /** The bits from `start` on, `n` of them, become b. */
  ghost predicate BitsSet(words: seq<Word>, words': seq<Word>, start: nat, n: nat, b: bool) {
    |words'| == |words| && forall i: nat :: Taken(words', i) <==> if start <= i < start + n then b else Taken(words, i)
  }

  /** `data` with the n bytes from `from` replaced by x. */
  function Filled(data: seq<Byte>, from: nat, n: nat, x: Byte): (r: seq<Byte>)
    requires from + n <= |data|
    ensures |r| == |data|
    ensures forall i :: 0 <= i < |data| ==> r[i] == if from <= i < from + n then x else data[i]
  {
    data[..from] + seq(n, _ => x) + data[from + n..]
  }

  /** `data` with n zero bytes from `from` on, but for the header they begin with. */
  function Formatted(data: seq<Byte>, from: nat, n: nat, header: seq<Byte>): (r: seq<Byte>)
    requires from + n <= |data| && |header| <= n
    ensures |r| == |data| && r[from..from + |header|] == header
    ensures forall i :: 0 <= i < |data| && !(from <= i < from + n) ==> r[i] == data[i]
    ensures forall i :: from + |header| <= i < from + n ==> r[i] == 0
  {
    Written(Filled(data, from, n, 0), from, header)
  }

  /** A block of n pieces is taken at `start`. */
  ghost predicate Allocates(r: Region, r': Region, start: nat, n: nat) {
    && start !in r.headers && 1 <= n && start + n <= r.Pieces() && |r.data| == PIECE * r.Pieces()
    && r' == r.(bitmap := r'.bitmap, headers := r.headers[start := n],
                data := Formatted(r.data, PIECE * start, PIECE * n, Header(r.base + PIECE * start + PIECE, n)))
    && BitsSet(r.bitmap, r'.bitmap, start, n, true)
  }

  lemma AllocateOk(r: Region, r': Region, start: nat, n: nat)
    requires Ok(r) && n >= 2 && FreeRun(r.bitmap, r.Pieces(), start, n) && Allocates(r, r', start, n)
    ensures Ok(r') && Clear(r') == Clear(r) - n
  {
    hide HasHeader, Headed, Formatted, Header;
    NotCovered(r, start, n);
    forall i: nat | i < r.Pieces() ensures Taken(r'.bitmap, i) <==> Covered(r'.headers, i) {
      CoveredMore(r.headers, start, n, i);
    }
    TakenMore(r.bitmap, r'.bitmap, r.Pieces(), start, n);
    AllocateHeaded(r, r', start, n);
  }

  lemma AllocateHeaded(r: Region, r': Region, start: nat, n: nat)
    requires Headed(r) && Laid(r.headers, r.Pieces()) && Allocates(r, r', start, n)
    requires forall s :: s in r.headers ==> s + r.headers[s] <= start || start + n <= s
    ensures Headed(r')
  {
    hide HasHeader, Formatted, Header, BitsSet;
    forall s | s in r'.headers ensures HasHeader(r', s, r'.headers[s]) {
      if s == start {
        NewHeader(r, r', start, n);
      } else {
        assert HasHeader(r, s, r.headers[s]);
        HeaderKept(r, r', PIECE * start, PIECE * n, s, r.headers[s]);
      }
    }
  }

  lemma NewHeader(r: Region, r': Region, start: nat, n: nat)
    requires Allocates(r, r', start, n)
    ensures HasHeader(r', start, n)
  {
    hide Formatted, Header, BitsSet;
  }

  /** A change that does not touch the header of the block at piece u. */
  lemma HeaderKept(r: Region, r': Region, from: nat, k: nat, u: nat, n: nat)
    requires HasHeader(r, u, n) && r'.base == r.base && |r'.data| == |r.data|
    requires forall i :: 0 <= i < |r.data| && !(from <= i < from + k) ==> r'.data[i] == r.data[i]
    requires PIECE * u + PIECE <= from || from + k <= PIECE * u
    ensures HasHeader(r', u, n)
  {
    hide Header;
    SameBytes(r.data, r'.data, from, k, PIECE * u, PIECE * u + PIECE);
  }

  /** A new block is zero. */
  lemma NewIsZero(r: Region, r': Region, start: nat, n: nat)
    requires Ok(r) && n >= 2 && Allocates(r, r', start, n)
    ensures UserBytes(r', start) == seq(PIECE * (n - 1), _ => 0)
  {
    hide Ok, Header, Formatted, BitsSet;
    assert forall i :: PIECE * start + PIECE <= i < PIECE * (start + n) ==> r'.data[i] == 0;
  }

  /** What the header of a live block says. */
  lemma HeaderSays(r: Region, s: nat)
    requires Ok(r) && s in r.headers
    ensures PIECE * s + PIECE <= |r.data|
    ensures r.data[PIECE * s..PIECE * s + SANITY] == Sanity(r.base + PIECE * s + PIECE)
    ensures FromLe(r.data[PIECE * s + SANITY..PIECE * s + SANITY + 4]) == r.headers[s]
  {
    hide Header, Sanity, Le, FromLe, Taken, Covered;
    assert HasHeader(r, s, r.headers[s]) && r.headers[s] < 0x1_0000_0000;
    HeaderParts(r.data, PIECE * s, r.base + PIECE * s + PIECE, r.headers[s]);
  }

  lemma HeaderParts(data: seq<Byte>, k: nat, ptr: nat, n: nat)
    requires k + PIECE <= |data| && data[k..k + PIECE] == Header(ptr, n) && n < 0x1_0000_0000
    ensures data[k..k + SANITY] == Sanity(ptr) && FromLe(data[k + SANITY..k + SANITY + 4]) == n
  {
    FourBytes();
    hide Header, Sanity, Le, FromLe, Range256;
    LeRoundTrip(n, 4);
    SliceOfSlice(data, k, k + PIECE, 0, SANITY);
    SliceOfSlice(data, k, k + PIECE, SANITY, SANITY + 4);
  }

  lemma SliceOfSlice(data: seq<Byte>, lo: nat, hi: nat, i: nat, j: nat)
    requires lo <= hi <= |data| && i <= j <= hi - lo
    ensures data[lo..hi][i..j] == data[lo + i..lo + j]
  {
    var part, whole := data[lo..hi], data[lo + i..lo + j];
    forall t | 0 <= t < j - i ensures part[i..j][t] == whole[t] {
      assert part[i + t] == data[lo + i + t];
    }
  }

  lemma FourBytes()
    ensures Range256(4) == 0x1_0000_0000
  {
    assert Range256(2) == 0x1_0000;
  }

  /** Where a block was, no aligned pointer has a sanity word: freeing twice always fails the check. */
  lemma FreedIsNoBlock(r: Region, r': Region, start: nat, s: nat)
    requires Ok(r) && Releases(r, r', start) && start <= s < start + r.headers[start]
    ensures PIECE * s + SANITY <= |r'.data|
    ensures r'.data[PIECE * s..PIECE * s + SANITY] != Sanity(r.base + PIECE * s + PIECE)
  {
    hide Sanity, Headed, Taken, Covered, BitsSet, Filled;
    var n := r.headers[start];
    FilledPart(r.data, PIECE * start, PIECE * n, 0x5A, PIECE * s);
    FillIsNoSanity(r.base + PIECE * s + PIECE, 0x5A);
  }

  lemma FilledPart(data: seq<Byte>, from: nat, n: nat, x: Byte, k: nat)
    requires from <= k && k + SANITY <= from + n <= |data|
    ensures Filled(data, from, n, x)[k..k + SANITY] == seq(SANITY, _ => x)
  {
  }

  /** No block reaches into a free run. */
  lemma NotCovered(r: Region, start: nat, n: nat)
    requires Ok(r) && n > 0 && FreeRun(r.bitmap, r.Pieces(), start, n)
    ensures start !in r.headers
    ensures forall s :: s in r.headers ==> s + r.headers[s] <= start || start + n <= s
  {
    forall s | s in r.headers ensures s + r.headers[s] <= start || start + n <= s {
      var i := if s < start then start else s;
      assert start <= i < start + n ==> !Taken(r.bitmap, i) && !Covered(r.headers, i);
      assert start <= i < start + n ==> !InBlock(r.headers, s, i);
    }
  }

  lemma CoveredMore(headers: map<nat, nat>, start: nat, n: nat, i: nat)
    requires start !in headers
    ensures Covered(headers[start := n], i) <==> Covered(headers, i) || start <= i < start + n
  {
    var h := headers[start := n];
    if Covered(headers, i) {
      var s :| InBlock(headers, s, i);
      assert InBlock(h, s, i);
    }
    if start <= i < start + n { assert InBlock(h, start, i); }
    if Covered(h, i) && !(start <= i < start + n) {
      var s :| InBlock(h, s, i);
      assert InBlock(headers, s, i);
    }
  }

  lemma TakenMore(words: seq<Word>, words': seq<Word>, pieces: nat, start: nat, n: nat)
    requires FreeRun(words, pieces, start, n) && BitsSet(words, words', start, n, true)
    ensures |TakenSet(words', pieces)| == |TakenSet(words, pieces)| + n
  {
    assert TakenSet(words', pieces) == TakenSet(words, pieces) + Range(start, n);
    assert TakenSet(words, pieces) !! Range(start, n);
  }

  /** The block at piece u is as long as before and holds the same bytes. */
  ghost predicate Kept(r: Region, r': Region, u: nat) {
    && Ok(r) && Ok(r') && u in r.headers && u in r'.headers && r'.headers[u] == r.headers[u] && r'.words == r.words
    && UserBytes(r', u) == UserBytes(r, u)
  }

  lemma Ordered(headers: map<nat, nat>, pieces: nat, s: nat, t: nat)
    requires Laid(headers, pieces) && s in headers && t in headers && s != t
    ensures s + headers[s] <= t || t + headers[t] <= s
  {
  }

  lemma AllocateKeeps(r: Region, r': Region, start: nat, n: nat, u: nat)
    requires Ok(r) && Ok(r') && Allocates(r, r', start, n) && u in r.headers
    ensures Kept(r, r', u)
  {
    hide Taken, Covered, BitsSet, Headed, Formatted, Header;
    assert u in r'.headers && start in r'.headers && Laid(r'.headers, r.Pieces());
    Ordered(r'.headers, r.Pieces(), start, u);
    SameBytes(r.data, r'.data, PIECE * start, PIECE * n, PIECE * u + PIECE, PIECE * (u + r.headers[u]));
  }

  /** What is outside the filled range stays. */
  lemma SameBytes(data: seq<Byte>, data': seq<Byte>, from: nat, n: nat, lo: nat, hi: nat)
    requires |data'| == |data| && lo <= hi <= |data| && (hi <= from || from + n <= lo)
    requires forall i :: 0 <= i < |data| && !(from <= i < from + n) ==> data'[i] == data[i]
    ensures data'[lo..hi] == data[lo..hi]
  {
  }

  lemma ReleaseKeeps(r: Region, r': Region, start: nat, u: nat)
    requires Ok(r) && Ok(r') && Releases(r, r', start) && u in r.headers && u != start
    ensures Kept(r, r', u)
  {
    hide Taken, Covered, BitsSet, Headed, Filled;
    Ordered(r.headers, r.Pieces(), start, u);
    SameBytes(r.data, r'.data, PIECE * start, PIECE * r.headers[start], PIECE * u + PIECE, PIECE * (u + r.headers[u]));
  }

  /** `data` with the bytes from `from` on replaced by `bytes`. */
  function Written(data: seq<Byte>, from: nat, bytes: seq<Byte>): (r: seq<Byte>)
    requires from + |bytes| <= |data|
    ensures |r| == |data| && r[from..from + |bytes|] == bytes
    ensures forall i :: 0 <= i < |data| && !(from <= i < from + |bytes|) ==> r[i] == data[i]
  {
    data[..from] + bytes + data[from + |bytes|..]
  }

  /** The user's bytes of the block at `start` begin with `bytes` now. */
  ghost predicate Writes(r: Region, r': Region, start: nat, bytes: seq<Byte>) {
    && start in r.headers && PIECE * start + PIECE + |bytes| <= |r.data|
    && r' == r.(data := Written(r.data, PIECE * start + PIECE, bytes))
  }

  lemma WriteOk(r: Region, r': Region, start: nat, bytes: seq<Byte>)
    requires Ok(r) && start in r.headers && |bytes| <= PIECE * (r.headers[start] - 1) && Writes(r, r', start, bytes)
    ensures Ok(r') && Clear(r') == Clear(r) && bytes <= UserBytes(r', start)
    ensures forall u :: u in r.headers && u != start ==> Kept(r, r', u)
  {
    hide Headed, Taken, Covered, Written;
    WriteHeaded(r, r', start, bytes);
    assert bytes <= UserBytes(r', start) by {
      var k := PIECE * start + PIECE;
      assert r'.data[k..k + |bytes|] == UserBytes(r', start)[..|bytes|];
    }
    forall u | u in r.headers && u != start ensures Kept(r, r', u) {
      WriteKeeps(r, r', start, bytes, u);
    }
  }

  lemma WriteHeaded(r: Region, r': Region, start: nat, bytes: seq<Byte>)
    requires Ok(r) && start in r.headers && |bytes| <= PIECE * (r.headers[start] - 1) && Writes(r, r', start, bytes)
    ensures Headed(r')
  {
    hide HasHeader, Taken, Covered, Written;
    forall s | s in r'.headers ensures HasHeader(r', s, r'.headers[s]) {
      assert HasHeader(r, s, r.headers[s]);
      if s != start { Ordered(r.headers, r.Pieces(), start, s); }
      HeaderKept(r, r', PIECE * start + PIECE, |bytes|, s, r.headers[s]);
    }
  }

  lemma WriteKeeps(r: Region, r': Region, start: nat, bytes: seq<Byte>, u: nat)
    requires Ok(r) && Ok(r') && start in r.headers && |bytes| <= PIECE * (r.headers[start] - 1)
             && Writes(r, r', start, bytes)
    requires u in r.headers && u != start
    ensures Kept(r, r', u)
  {
    hide Taken, Covered, BitsSet, Headed, Written;
    Ordered(r.headers, r.Pieces(), start, u);
    SameBytes(r.data, r'.data, PIECE * start + PIECE, |bytes|, PIECE * u + PIECE, PIECE * (u + r.headers[u]));
  }

  /** The block at `start` is given back. */
  ghost predicate Releases(r: Region, r': Region, start: nat) {
    && start in r.headers && start + r.headers[start] <= r.Pieces() && |r.data| == PIECE * r.Pieces()
    && r' == r.(bitmap := r'.bitmap, headers := r.headers - {start},
                data := Filled(r.data, PIECE * start, PIECE * r.headers[start], 0x5A))
    && BitsSet(r.bitmap, r'.bitmap, start, r.headers[start], false)
  }

  lemma ReleaseOk(r: Region, r': Region, start: nat)
    requires Ok(r) && start in r.headers && Releases(r, r', start)
    ensures Ok(r') && Clear(r') == Clear(r) + r.headers[start]
  {
    hide Headed, Filled;
    ReleaseHeaded(r, r', start);
    forall i: nat | i < r.Pieces() ensures Taken(r'.bitmap, i) <==> Covered(r'.headers, i) {
      CoveredLess(r.headers, r.Pieces(), start, i);
    }
    var n := r.headers[start];
    forall i: nat | start <= i < start + n ensures Taken(r.bitmap, i) {
      assert InBlock(r.headers, start, i);
    }
    TakenLess(r.bitmap, r'.bitmap, r.Pieces(), start, n);
  }

  lemma ReleaseHeaded(r: Region, r': Region, start: nat)
    requires Ok(r) && Releases(r, r', start)
    ensures Headed(r')
  {
    hide HasHeader, Taken, Covered, Filled, BitsSet;
    forall s | s in r'.headers ensures HasHeader(r', s, r'.headers[s]) {
      assert HasHeader(r, s, r.headers[s]);
      Ordered(r.headers, r.Pieces(), start, s);
      HeaderKept(r, r', PIECE * start, PIECE * r.headers[start], s, r.headers[s]);
    }
  }

  lemma CoveredLess(headers: map<nat, nat>, pieces: nat, start: nat, i: nat)
    requires Laid(headers, pieces) && start in headers
    ensures Covered(headers - {start}, i) <==> Covered(headers, i) && !(start <= i < start + headers[start])
  {
    var h := headers - {start};
    if Covered(headers, i) && !(start <= i < start + headers[start]) {
      var s :| InBlock(headers, s, i);
      assert InBlock(h, s, i);
    }
    if Covered(h, i) {
      var s :| InBlock(h, s, i);
      assert InBlock(headers, s, i);
    }
  }

  lemma TakenLess(words: seq<Word>, words': seq<Word>, pieces: nat, start: nat, n: nat)
    requires start + n <= pieces && BitsSet(words, words', start, n, false)
    requires forall i: nat :: start <= i < start + n ==> Taken(words, i)
    ensures |TakenSet(words', pieces)| == |TakenSet(words, pieces)| - n
  {
    assert TakenSet(words', pieces) == TakenSet(words, pieces) - Range(start, n);
    assert Range(start, n) <= TakenSet(words, pieces);
  }

  /** The user's bytes of the block at `start`. */
  function UserBytes(r: Region, start: nat): (b: seq<Byte>)
    requires start in r.headers && r.headers[start] >= 1 && start + r.headers[start] <= r.Pieces()
    requires |r.data| == PIECE * r.Pieces()
    ensures |b| == PIECE * (r.headers[start] - 1)
  {
    r.data[PIECE * start + PIECE..PIECE * (start + r.headers[start])]
  }

  // What the sanity check takes for a block

  /** The bytes at piece s are the sanity word of a header. */
  predicate LooksLive(r: Region, s: nat) {
    PIECE * s + PIECE <= |r.data| && r.data[PIECE * s..PIECE * s + SANITY] == Sanity(r.base + PIECE * s + PIECE)
  }

  /** Only headers of live blocks look like headers. */
  ghost predicate NoFakes(r: Region) {
    forall s: nat :: LooksLive(r, s) ==> s in r.headers
  }

  /** The sanity word at piece s is not touched. */
  lemma LooksSame(r: Region, r': Region, from: nat, k: nat, s: nat)
    requires r'.base == r.base && |r'.data| == |r.data|
    requires forall i :: 0 <= i < |r.data| && !(from <= i < from + k) ==> r'.data[i] == r.data[i]
    requires PIECE * s + PIECE <= from || from + k <= PIECE * s
    ensures LooksLive(r', s) <==> LooksLive(r, s)
  {
    hide Sanity;
    if PIECE * s + PIECE <= |r.data| {
      SameBytes(r.data, r'.data, from, k, PIECE * s, PIECE * s + SANITY);
    }
  }

  /** Bytes of the fill pattern, or zeroes, look like no header. */
  lemma FillLooksDead(r: Region, s: nat, x: Byte)
    requires r.base % PIECE == 0 && (x == 0 || x == 0x5A) && PIECE * s + PIECE <= |r.data|
    requires forall i :: PIECE * s <= i < PIECE * s + SANITY ==> r.data[i] == x
    ensures !LooksLive(r, s)
  {
    hide Sanity;
    var k := PIECE * s;
    assert r.data[k..k + SANITY] == seq(SANITY, _ => x);
    FillIsNoSanity(r.base + k + PIECE, x);
  }

  /** Taking a block makes one new header and nothing else that looks like one. */
  lemma AllocateNoFakes(r: Region, r': Region, start: nat, n: nat)
    requires Ok(r) && NoFakes(r) && Allocates(r, r', start, n)
    ensures NoFakes(r')
  {
    hide Ok, Formatted, Header, BitsSet, LooksLive;
    Aligned(r);
    forall s: nat | LooksLive(r', s) ensures s in r'.headers {
      if s < start || start + n <= s {
        LooksSame(r, r', PIECE * start, PIECE * n, s);
      } else if s > start {
        FillLooksDead(r', s, 0);
      }
    }
  }

  lemma Aligned(r: Region)
    requires Ok(r)
    ensures r.base % PIECE == 0
    ensures forall s :: s in r.headers ==> r.headers[s] >= 2 && PIECE * (s + r.headers[s]) <= |r.data|
  {
    hide Headed, Taken, Covered;
  }

  /** Giving a block back leaves nothing in its place that looks like a header. */
  lemma ReleaseNoFakes(r: Region, r': Region, start: nat)
    requires Ok(r) && NoFakes(r) && Releases(r, r', start)
    ensures NoFakes(r')
  {
    hide Ok, Filled, BitsSet, LooksLive;
    Aligned(r);
    forall s: nat | LooksLive(r', s) ensures s in r'.headers {
      if s < start || start + r.headers[start] <= s {
        LooksSame(r, r', PIECE * start, PIECE * r.headers[start], s);
      } else {
        FillLooksDead(r', s, 0x5A);
      }
    }
  }

  /** A write of the user keeps this if and only if it makes no piece of the block look like a header. */
  lemma WriteNoFakes(r: Region, r': Region, start: nat, bytes: seq<Byte>)
    requires Ok(r) && NoFakes(r) && start in r.headers && |bytes| <= PIECE * (r.headers[start] - 1)
    requires Writes(r, r', start, bytes)
    ensures NoFakes(r') <==> forall s: nat :: start < s < start + r.headers[start] ==> !LooksLive(r', s)
  {
    hide Taken, Covered, Headed, Written, LooksLive;
    forall s: nat | start < s < start + r.headers[start] ensures s !in r.headers {
      if s in r.headers { Ordered(r.headers, r.Pieces(), start, s); }
    }
    forall s: nat | s <= start || start + r.headers[start] <= s ensures LooksLive(r', s) <==> LooksLive(r, s) {
      LooksSame(r, r', PIECE * start + PIECE, |bytes|, s);
    }
  }

  lemma NoNeighbour(r: Region, start: nat)
    requires Ok(r) && start in r.headers
    ensures start + 1 !in r.headers
  {
    hide Headed, Taken, Covered;
  }

  /** And every block has room for such a write: the check cannot tell user bytes from a header. */
  lemma Imitated(r: Region, start: nat) returns (r': Region, bytes: seq<Byte>)
    requires Ok(r) && start in r.headers
    ensures |bytes| <= PIECE * (r.headers[start] - 1) && Writes(r, r', start, bytes) && Ok(r')
    ensures LooksLive(r', start + 1) && start + 1 !in r'.headers && !NoFakes(r')
  {
    hide Ok, Written, Sanity, UserBytes, Kept;
    Aligned(r);
    var k := PIECE * start + PIECE;
    bytes := Sanity(r.base + k + PIECE);
    r' := r.(data := Written(r.data, k, bytes));
    assert Writes(r, r', start, bytes);
    WriteOk(r, r', start, bytes);
    NoNeighbour(r, start);
    assert LooksLive(r', start + 1);
  }
}
