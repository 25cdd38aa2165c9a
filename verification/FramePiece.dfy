/** mem/frame_piece.hpp: a run of physical frames and the bitmap that says which are taken. */
module FramePieces {
  import opened Bitmap

  class FramePiece {
    const start: nat        // number of the first frame, its physical address over the page size
    const size: nat         // number of frames
    var framesFree: nat
    const bitmap: array<Word>

    ghost predicate Valid()
      reads this, bitmap
    {
      && size <= bitmap.Length * WORD_BITS
      && framesFree == size - |TakenFrames()|
    }

    ghost function TakenFrames(): (s: set<nat>)
      reads bitmap
    {
      TakenSet(bitmap[..], size)
    }

    /**
     `init` clears `amount / 8` whole bytes. Bits past those keep what the memory held, so the
     counter agrees with the bitmap exactly when the last `amount % 8` frames start out clear.
     */
    constructor Init(address: nat, amount: nat, memory: array<Word>)
      requires amount <= memory.Length * WORD_BITS
      modifies memory
      ensures start == address && size == amount && bitmap == memory
      ensures framesFree == amount
      ensures forall i: nat :: Taken(memory[..], i) <==> 8 * (amount / 8) <= i && old(Taken(memory[..], i))
      ensures Valid() <==> forall i: nat :: 8 * (amount / 8) <= i < amount ==> !old(Taken(memory[..], i))
    {
      start, size, framesFree, bitmap := address, amount, amount, memory;
      new;
      var i := 0;
      while i < 8 * (amount / 8)
        invariant i <= 8 * (amount / 8)
        invariant framesFree == amount
        invariant forall j: nat :: Taken(memory[..], j) <==> i <= j && old(Taken(memory[..], j))
      {
        ghost var before := memory[..];
        memory[i / WORD_BITS] := memory[i / WORD_BITS][i % WORD_BITS := false];
        assert memory[..] == Put(before, i, false);
        i := i + 1;
      }
      if j: nat :| 8 * (amount / 8) <= j < amount && old(Taken(memory[..], j)) {
        assert j in TakenFrames();
      } else {
        assert TakenFrames() == {};
      }
    }

    /** Takes the `amount` frames from `lid`; the kernel asserts that each was free. */
    method Alloc(lid: nat, amount: nat)
      requires Valid()
      requires FreeRun(bitmap[..], size, lid, amount)
      modifies this, bitmap
      ensures Valid()
      ensures forall i: nat :: Taken(bitmap[..], i) <==> old(Taken(bitmap[..], i)) || lid <= i < lid + amount
      ensures framesFree == old(framesFree) - amount
    {
      var ii, ib := lid / WORD_BITS, lid % WORD_BITS;
      for i := 0 to amount
        invariant ii == (lid + i) / WORD_BITS && ib == (lid + i) % WORD_BITS
        invariant forall j: nat :: Taken(bitmap[..], j) <==> old(Taken(bitmap[..], j)) || lid <= j < lid + i
        invariant framesFree == old(framesFree)
      {
        assert !Taken(bitmap[..], lid + i);
        ghost var before := bitmap[..];
        bitmap[ii] := bitmap[ii][ib := true];
        assert bitmap[..] == Put(before, lid + i, true);
        ib := ib + 1;
        if ib >= WORD_BITS { ii, ib := ii + 1, 0; }
      }
      assert TakenFrames() == old(TakenFrames()) + Range(lid, amount);
      FreeRunFits(old(bitmap[..]), size, lid, amount);
      framesFree := framesFree - amount;
    }

    /** Gives back the `amount` frames from `lid`; the kernel asserts that each was taken. */
    method Free(lid: nat, amount: nat)
      requires Valid()
      requires amount > 0 ==> lid + amount <= size
      requires forall i: nat :: lid <= i < lid + amount ==> Taken(bitmap[..], i)
      modifies this, bitmap
      ensures Valid()
      ensures forall i: nat :: Taken(bitmap[..], i) <==> old(Taken(bitmap[..], i)) && !(lid <= i < lid + amount)
      ensures framesFree == old(framesFree) + amount
    {
      var ii, ib := lid / WORD_BITS, lid % WORD_BITS;
      for i := 0 to amount
        invariant ii == (lid + i) / WORD_BITS && ib == (lid + i) % WORD_BITS
        invariant forall j: nat :: Taken(bitmap[..], j) <==> old(Taken(bitmap[..], j)) && !(lid <= j < lid + i)
        invariant framesFree == old(framesFree)
      {
        ghost var before := bitmap[..];
        bitmap[ii] := bitmap[ii][ib := false];
        assert bitmap[..] == Put(before, lid + i, false);
        ib := ib + 1;
        if ib >= WORD_BITS { ii, ib := ii + 1, 0; }
      }
      assert TakenFrames() == old(TakenFrames()) - Range(lid, amount);
      assert Range(lid, amount) <= old(TakenFrames());
      framesFree := framesFree + amount;
    }

    /** The lowest run of `amount` free frames, or -1 exactly when there is none. */
    method Find(amount: nat) returns (r: int)
      requires Valid()
      ensures -1 <= r
      ensures r >= 0 ==> amount > 0 && FreeRun(bitmap[..], size, r, amount)
      ensures r >= 0 ==> forall s: nat :: s < r ==> !FreeRun(bitmap[..], size, s, amount)
      ensures r == -1 <==> amount == 0 || forall s: nat :: !FreeRun(bitmap[..], size, s, amount)
    {
      if amount == 0 || amount > framesFree {
        if amount > 0 {
          forall s: nat ensures !FreeRun(bitmap[..], size, s, amount) {
            if FreeRun(bitmap[..], size, s, amount) { FreeRunFits(bitmap[..], size, s, amount); }
          }
        }
        return -1;
      }
      var ii, ib := 0, 0;
      var found, first := 0, -1;
      for i := 0 to size
        invariant ii == i / WORD_BITS && ib == i % WORD_BITS
        invariant found < amount
        invariant first == -1 <==> found == 0
        invariant first >= 0 ==> first + found == i && FreeRun(bitmap[..], size, first, found)
        invariant forall s: nat :: s < i - found ==> !FreeRun(bitmap[..], size, s, amount)
      {
        assert bitmap[ii][ib] == Taken(bitmap[..], i);
        if !bitmap[ii][ib] {
          if first == -1 { first := i; }
          found := found + 1;
          if found == amount {
            assert FreeRun(bitmap[..], size, first, amount);
            return first;
          }
        } else {
          assert forall s: nat :: s <= i < s + amount ==> !FreeRun(bitmap[..], size, s, amount);
          found, first := 0, -1;
        }
        ib := ib + 1;
        if ib >= WORD_BITS { ii, ib := ii + 1, 0; }
      }
      return -1;
    }
  }
}
