/** mem/heap.cpp: the slab object, with its word-wise bitmap scan and its marking loops. */
module Slabs {
  import opened Basics
  import opened Bitmap
  import opened HeapRegions

  /** Item i of word w is item 32 * w + i of the bitmap. */
  lemma BitAt(words: seq<Word>, w: nat, i: nat)
    requires w < |words| && i < WORD_BITS
    ensures Taken(words, WORD_BITS * w + i) == words[w][i]
  {
    assert (WORD_BITS * w + i) / WORD_BITS == w && (WORD_BITS * w + i) % WORD_BITS == i;
  }

  /**
   How far the search for `amount` clear pieces has come: the last `combo` pieces before `index`
   are clear, and no run starts before them.
   */
  ghost predicate Searched(words: seq<Word>, pieces: nat, amount: nat, index: nat, combo: nat) {
    && combo < amount && combo <= index <= pieces
    && FreeRun(words, pieces, index - combo, combo)
    && forall s: nat :: s < index - combo ==> !FreeRun(words, pieces, s, amount)
  }

  lemma SearchClear(words: seq<Word>, pieces: nat, amount: nat, index: nat, combo: nat)
    requires Searched(words, pieces, amount, index, combo) && index < pieces && !Taken(words, index)
    ensures combo + 1 < amount ==> Searched(words, pieces, amount, index + 1, combo + 1)
    ensures FreeRun(words, pieces, index - combo, combo + 1)
  {
  }

  /** `n` pieces that are taken: no run starts before their end. */
  lemma SearchTaken(words: seq<Word>, pieces: nat, amount: nat, index: nat, combo: nat, n: nat)
    requires Searched(words, pieces, amount, index, combo) && n > 0 && index + n <= pieces
    requires forall i: nat :: index <= i < index + n ==> Taken(words, i)
    ensures Searched(words, pieces, amount, index + n, 0)
  {
    forall s: nat | s < index + n ensures !FreeRun(words, pieces, s, amount) {
      var i := if s < index then index else s;
      if s >= index - combo { assert Taken(words, i) && s <= i < s + amount; }
    }
  }

  lemma SearchEnd(words: seq<Word>, pieces: nat, amount: nat, combo: nat)
    requires Searched(words, pieces, amount, pieces, combo)
    ensures forall s: nat :: !FreeRun(words, pieces, s, amount)
  {
  }

  class Slab {
    const base: nat          // the address of `data`
    const words: nat
    const pieces: nat
    const freePieces: nat    // set when the slab is made, never changed
    var bitmap: seq<Word>
    var data: seq<Byte>
    ghost var headers: map<nat, nat>

    ghost function Value(): (r: Region)
      reads this
    {
      Region(base, words, bitmap, headers, data)
    }

    ghost predicate Valid()
      reads this
    {
      Ok(Value()) && pieces == freePieces == Value().Pieces()
    }

    /** createFromVMem: `size` bytes of data at `base`, all free. */
    constructor Create(base: nat, size: nat)
      requires base > 0 && base % PIECE == 0 && size < 0x1_0000_0000
      ensures Valid() && this.base == base && headers == map[] && words == size / PIECE / WORD_BITS
      ensures Clear(Value()) == pieces && NoFakes(Value())
    {
      this.base, words := base, size / PIECE / WORD_BITS;
      pieces := WORD_BITS * (size / PIECE / WORD_BITS);
      freePieces := WORD_BITS * (size / PIECE / WORD_BITS);
      bitmap := seq(size / PIECE / WORD_BITS + 1, _ => seq(WORD_BITS, _ => false));
      headers := map[];
      data := seq(PIECE * (WORD_BITS * (size / PIECE / WORD_BITS)), _ => 0);
      new;
      assert TakenSet(bitmap, pieces) == {};
      forall s: nat | PIECE * s + PIECE <= |data| ensures !LooksLive(Value(), s) {
        FillLooksDead(Value(), s, 0);
      }
    }

    /** findFree: the lowest run, found with whole words skipped; -1 exactly when there is none. */
    method FindFree(amount: nat) returns (r: int)
      requires Valid()
      ensures -1 <= r
      ensures r >= 0 ==> amount > 0 && FreeRun(bitmap, pieces, r, amount)
      ensures r >= 0 ==> forall s: nat :: s < r ==> !FreeRun(bitmap, pieces, s, amount)
      ensures r == -1 <==> amount == 0 || forall s: nat :: !FreeRun(bitmap, pieces, s, amount)
    {
      hide FreeRun, Taken, Searched, Ok;
      assert |bitmap| == words + 1 by { Length(Value()); }
      if amount > freePieces || amount == 0 {
        NoLongRun(bitmap, pieces, amount);
        return -1;
      }
      var index: nat, ii: nat, combo: nat, start: int := 0, 0, 0, -1;
      SearchNone(bitmap, pieces, amount);
      while index < pieces
        invariant index == WORD_BITS * ii <= pieces && ii <= words
        invariant combo < amount && combo <= index && start == (if combo == 0 then -1 else index - combo)
        invariant Searched(bitmap, pieces, amount, index, combo)
        decreases pieces - index
      {
        var buffer := bitmap[ii];
        if buffer == seq(WORD_BITS, _ => true) {
          FullWord(bitmap, ii);
          SearchTaken(bitmap, pieces, amount, index, combo, WORD_BITS);
          index, start, combo, ii := index + WORD_BITS, -1, 0, ii + 1;
          continue;
        }
        for i := 0 to WORD_BITS
          invariant index == WORD_BITS * ii + i
          invariant combo < amount && combo <= index && start == (if combo == 0 then -1 else index - combo)
          invariant Searched(bitmap, pieces, amount, index, combo)
        {
          BitAt(bitmap, ii, i);
          if !buffer[i] {
            SearchClear(bitmap, pieces, amount, index, combo);
            if start == -1 { start := index; }
            combo := combo + 1;
            if combo == amount {
              Found(bitmap, pieces, amount, index, combo - 1);
              return start;
            }
          } else {
            SearchTaken(bitmap, pieces, amount, index, combo, 1);
            start, combo := -1, 0;
          }
          index := index + 1;
        }
        ii := ii + 1;
      }
      SearchEnd(bitmap, pieces, amount, combo);
      return -1;
    }

    /** mark (b is true) and unmark: word by word, through a buffer that holds the current word. */
    method SetBits(start: nat, amount: nat, b: bool)
      requires Valid() && start + amount <= pieces
      modifies this`bitmap
      ensures BitsSet(old(bitmap), bitmap, start, amount, b)
    {
      hide Taken, Ok;
      ghost var was := bitmap;
      assert |bitmap| == words + 1 by { Length(Value()); }
      NoBits(was, start, b);
      if amount == 0 { return; }
      var ii: nat, ib: nat := start / WORD_BITS, start % WORD_BITS;
      var buffer, left: nat := bitmap[ii], amount;
      assert bitmap[ii := buffer] == was;
      while left > 0
        invariant left <= amount && ii <= words && ib < WORD_BITS && WORD_BITS * ii + ib == start + amount - left
        invariant |bitmap| == words + 1 && BitsSet(was, bitmap[ii := buffer], start, amount - left, b)
      {
        ghost var view := bitmap[ii := buffer];
        buffer := buffer[ib := b];
        assert bitmap[ii := buffer] == view[ii := view[ii][ib := b]];
        OneBit(was, view, start, amount - left, ii, ib, b);
        ib := ib + 1;
        if ib >= WORD_BITS {
          bitmap := bitmap[ii := buffer];
          ii, ib := ii + 1, 0;
          buffer := bitmap[ii];
          assert bitmap[ii := buffer] == bitmap;
        }
        left := left - 1;
      }
      bitmap := bitmap[ii := buffer];
    }

    /** A block for `size` bytes in the lowest place where it fits; 0 exactly when it fits nowhere. */
    method Alloc(size: nat) returns (ptr: nat, ghost start: nat)
      requires Valid()
      modifies this
      ensures Valid()
      ensures ptr == 0 <==> size == 0 || forall s: nat :: !old(FreeRun(bitmap, pieces, s, PieceCount(size)))
      ensures ptr == 0 ==> Value() == old(Value())
      ensures ptr != 0 ==> ptr == base + PIECE * start + PIECE && ptr % PIECE == 0
      ensures ptr != 0 ==> old(FreeRun(bitmap, pieces, start, PieceCount(size)))
      ensures ptr != 0 ==> forall s: nat :: s < start ==> !old(FreeRun(bitmap, pieces, s, PieceCount(size)))
      ensures ptr != 0 ==> Allocates(old(Value()), Value(), start, PieceCount(size))
      ensures ptr != 0 ==> Clear(Value()) == old(Clear(Value())) - PieceCount(size)
      ensures old(NoFakes(Value())) ==> NoFakes(Value())
    {
      hide FreeRun, Ok, Taken, BitsSet, Clear, Formatted, Header, NoFakes;
      start := 0;
      if size == 0 { return 0, 0; }
      var n := PieceCount(size);
      var first := FindFree(n);
      if first == -1 { return 0, 0; }
      start := first;
      Place(Value(), start, n);
      SetBits(first, n, true);
      data := Formatted(data, PIECE * first, PIECE * n, Header(base + PIECE * first + PIECE, n));
      headers := headers[first := n];
      AllocateOk(old(Value()), Value(), start, n);
      if old(NoFakes(Value())) { AllocateNoFakes(old(Value()), Value(), start, n); }
      ptr := base + PIECE * first + PIECE;
    }

    predicate Owns(ptr: nat) {
      base <= ptr <= base + PIECE * pieces
    }

    /** The sanity word in front of `ptr` is right. */
    predicate SaneAt(ptr: nat)
      reads this
    {
      base + PIECE <= ptr <= base + |data| && data[ptr - base - PIECE..ptr - base - PIECE + SANITY] == Sanity(ptr)
    }

    /** The length that the header in front of `ptr` gives. */
    function LenAt(ptr: nat): (n: nat)
      requires base + PIECE <= ptr <= base + |data|
      reads this
    {
      FromLe(data[ptr - base - PIECE + SANITY..ptr - base - PIECE + SANITY + 4])
    }

    /** The length of the live block at `ptr`, or 0. */
    ghost function BlockLen(ptr: nat): (n: nat)
      reads this
    {
      if ptr >= base + PIECE && (ptr - base) % PIECE == 0 && (ptr - base) / PIECE - 1 in headers
      then headers[(ptr - base) / PIECE - 1] else 0
    }

    /** If the sanity word in front of `ptr` is right, it is that of a live block. */
    ghost predicate Unforged(ptr: nat)
      reads this
    {
      SaneAt(ptr) ==> BlockLen(ptr) > 0
    }

    /** While nothing but headers looks like a header, this holds for every aligned pointer. */
    lemma AlignedUnforged(ptr: nat)
      requires Valid() && NoFakes(Value()) && ptr % PIECE == 0
      ensures Unforged(ptr)
    {
      hide Sanity, Headed, Taken, Covered;
      if SaneAt(ptr) {
        var s := (ptr - base) / PIECE - 1;
        assert ptr == base + PIECE * s + PIECE;
        assert LooksLive(Value(), s);
      }
    }

    /** A live block passes the check, and its header gives its length. */
    lemma LiveIsSane(ptr: nat)
      requires Valid() && BlockLen(ptr) > 0
      ensures SaneAt(ptr) && LenAt(ptr) == BlockLen(ptr)
    {
      hide Ok, Sanity, FromLe;
      var s := (ptr - base) / PIECE - 1;
      assert ptr == base + PIECE * s + PIECE;
      HeaderSays(Value(), s);
    }

    /**
     What free does to bitmap and data for a header at byte k that says n pieces, whatever it is. It
     goes on behind the slab if n is too large; what lies there is not modelled.
     */
    ghost predicate Clears(b: seq<Word>, d: seq<Byte>, k: nat, n: nat)
      reads this
      requires k + PIECE * n <= |d|
    {
      BitsSet(b, bitmap, k / PIECE, n, false) && data == Filled(d, k, PIECE * n, 0x5A)
    }

    /**
     Gives a block back; `ok` is false exactly where the sanity check panics. Unless user bytes imitate
     a header that is for what is no live block, and the pointer fails the check afterwards.
     */
    method Free(ptr: nat) returns (ok: bool, ghost start: nat)
      requires Valid()
      modifies this
      ensures ok <==> old(SaneAt(ptr))
      ensures !ok ==> Value() == old(Value())
      ensures ok && ptr - base - PIECE + PIECE * old(LenAt(ptr)) <= |old(data)| ==>
                Clears(old(bitmap), old(data), ptr - base - PIECE, old(LenAt(ptr)))
      ensures old(Unforged(ptr)) ==> Valid() && (ok <==> old(BlockLen(ptr)) > 0) && !SaneAt(ptr)
      ensures old(Unforged(ptr)) && ok ==> ptr == base + PIECE * start + PIECE && start in old(headers)
      ensures old(Unforged(ptr)) && ok ==> Releases(old(Value()), Value(), start)
      ensures old(Unforged(ptr)) && ok ==> Clear(Value()) == old(Clear(Value())) + old(BlockLen(ptr))
      ensures old(Unforged(ptr)) && old(NoFakes(Value())) ==> NoFakes(Value())
    {
      hide Ok, Taken, BitsSet, Clear, Sanity, FromLe, NoFakes;
      start := 0;
      if BlockLen(ptr) > 0 { LiveIsSane(ptr); }
      if !SaneAt(ptr) { return false, 0; }
      var k, n := ptr - base - PIECE, LenAt(ptr);
      ghost var live := BlockLen(ptr) > 0;
      start := k / PIECE;
      if live { BlockPlace(Value(), start); }
      DataLength(Value());
      if k + PIECE * n <= |data| {
        SetBits(k / PIECE, n, false);
        data := Filled(data, k, PIECE * n, 0x5A);
      }
      if live {
        headers := headers - {start};
        ReleaseOk(old(Value()), Value(), start);
        FreedIsNoBlock(old(Value()), Value(), start, start);
        if old(NoFakes(Value())) { ReleaseNoFakes(old(Value()), Value(), start); }
      }
      ok := true;
    }
  }

  /** The room of a block of n pieces, in the 32-bit arithmetic of `size`. */
  function RoomOf(n: nat): nat {
    (n + 0x1_0000_0000 - 1) % 0x1_0000_0000 * PIECE % 0x1_0000_0000
  }

  lemma RoomFits(r: Region, start: nat)
    requires Ok(r) && start in r.headers
    ensures RoomOf(r.headers[start]) == PIECE * (r.headers[start] - 1)
  {
    hide Headed, Taken, Covered;
    assert PIECE * r.headers[start] < 0x1_0000_0000;
  }

  lemma DataLength(r: Region)
    requires Ok(r)
    ensures |r.data| == PIECE * r.Pieces()
  {
  }

  lemma NoBits(words: seq<Word>, start: nat, b: bool)
    ensures BitsSet(words, words, start, 0, b)
  {
  }

  lemma OneBit(was: seq<Word>, view: seq<Word>, start: nat, n: nat, w: nat, i: nat, b: bool)
    requires BitsSet(was, view, start, n, b) && w < |view| && i < WORD_BITS && WORD_BITS * w + i == start + n
    ensures BitsSet(was, view[w := view[w][i := b]], start, n + 1, b)
  {
    hide Taken;
    assert (WORD_BITS * w + i) / WORD_BITS == w && (WORD_BITS * w + i) % WORD_BITS == i;
    assert view[w := view[w][i := b]] == Put(view, start + n, b) by { PutAt(view, w, i, b); }
  }

  lemma PutAt(view: seq<Word>, w: nat, i: nat, b: bool)
    requires w < |view| && i < WORD_BITS && (WORD_BITS * w + i) / WORD_BITS == w && (WORD_BITS * w + i) % WORD_BITS == i
    ensures Put(view, WORD_BITS * w + i, b) == view[w := view[w][i := b]]
  {
  }

  lemma Place(r: Region, start: nat, n: nat)
    requires Ok(r) && FreeRun(r.bitmap, r.Pieces(), start, n)
    ensures start + n <= r.Pieces() && |r.data| == PIECE * r.Pieces() && r.base % PIECE == 0
    ensures n > 0 ==> start !in r.headers
  {
    if n > 0 { NotCovered(r, start, n); }
  }

  lemma BlockPlace(r: Region, start: nat)
    requires Ok(r) && start in r.headers
    ensures start + r.headers[start] <= r.Pieces() && |r.data| == PIECE * r.Pieces() && r.headers[start] >= 2
  {
  }

  lemma Length(r: Region)
    requires Ok(r)
    ensures |r.bitmap| == r.words + 1
  {
  }

  lemma SearchNone(words: seq<Word>, pieces: nat, amount: nat)
    requires amount > 0
    ensures Searched(words, pieces, amount, 0, 0)
  {
  }

  lemma NoLongRun(words: seq<Word>, pieces: nat, amount: nat)
    ensures amount > pieces ==> forall s: nat :: !FreeRun(words, pieces, s, amount)
  {
  }

  lemma Found(words: seq<Word>, pieces: nat, amount: nat, index: nat, combo: nat)
    requires Searched(words, pieces, amount, index, combo)
    ensures forall s: nat :: s < index - combo ==> !FreeRun(words, pieces, s, amount)
  {
  }

  lemma FullWord(words: seq<Word>, w: nat)
    requires w < |words| && words[w] == seq(WORD_BITS, _ => true)
    ensures forall i: nat :: WORD_BITS * w <= i < WORD_BITS * w + WORD_BITS ==> Taken(words, i)
  {
    forall i: nat | WORD_BITS * w <= i < WORD_BITS * w + WORD_BITS ensures Taken(words, i) {
      BitAt(words, w, i - WORD_BITS * w);
    }
  }
}
