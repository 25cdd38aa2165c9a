/** mem/phys.cpp: the physical frame allocator over one frame piece. Physical addresses are frame numbers. */
module PhysAlloc {
  import opened Bitmap
  import opened FramePieces

  const PAGE_SIZE := 4096
  const LOWEST := 0x100   // memory below 1 MiB is never handed to a piece

  function CeilToPage(bytes: nat): (pages: nat)
    ensures (pages - 1) * PAGE_SIZE < bytes <= pages * PAGE_SIZE
  {
    (bytes + PAGE_SIZE - 1) / PAGE_SIZE
  }

  class Phys {
    const piece: FramePiece
    var framesAvailable: int

    ghost predicate Valid()
      reads this, piece, piece.bitmap
    {
      piece.Valid() && piece.start >= LOWEST
    }

    /** Frame number f belongs to the piece and is taken. */
    ghost predicate IsTaken(f: nat)
      reads piece, piece.bitmap
    {
      piece.start <= f < piece.start + piece.size && Taken(piece.bitmap[..], f - piece.start)
    }

    /** Some `frames` consecutive frames of the piece are free. */
    ghost predicate HasRoom(frames: nat)
      reads piece, piece.bitmap
    {
      frames > 0 && exists s: nat :: FreeRun(piece.bitmap[..], piece.size, s, frames)
    }

    constructor (piece: FramePiece, available: int)
      requires piece.Valid() && piece.start >= LOWEST
      ensures Valid() && this.piece == piece && framesAvailable == available
    {
      this.piece, framesAvailable := piece, available;
    }

    /** Takes the lowest run of frames for `amount` bytes; `ok` is false exactly where the kernel panics. */
    method Alloc(amount: nat) returns (ok: bool, frame: nat)
      requires Valid()
      modifies this, piece, piece.bitmap
      ensures Valid()
      ensures ok <==> old(HasRoom(CeilToPage(amount)))
      ensures ok ==> piece.start <= frame <= piece.start + piece.size - CeilToPage(amount)
      ensures ok ==> forall s: nat :: s < frame - piece.start ==>
                       !old(FreeRun(piece.bitmap[..], piece.size, s, CeilToPage(amount)))
      ensures ok ==> forall f: nat :: frame <= f < frame + CeilToPage(amount) ==> !old(IsTaken(f))
      ensures forall f: nat :: IsTaken(f) <==> old(IsTaken(f)) || (ok && frame <= f < frame + CeilToPage(amount))
      ensures framesAvailable - piece.framesFree == old(framesAvailable - piece.framesFree)
    {
      var frames := CeilToPage(amount);
      if piece.framesFree < frames {
        forall s: nat ensures !FreeRun(piece.bitmap[..], piece.size, s, frames) {
          if FreeRun(piece.bitmap[..], piece.size, s, frames) { FreeRunFits(piece.bitmap[..], piece.size, s, frames); }
        }
        return false, 0;
      }
      var first := piece.Find(frames);
      if first == -1 { return false, 0; }
      framesAvailable := framesAvailable - frames;
      piece.Alloc(first, frames);
      ok, frame := true, piece.start + first;
    }

    /** Gives back the frames of `amount` bytes from `frame`; frames below the piece are ignored. */
    method Free(frame: nat, amount: nat)
      requires Valid()
      requires frame >= piece.start ==> forall f: nat :: frame <= f < frame + CeilToPage(amount) ==> IsTaken(f)
      modifies this, piece, piece.bitmap
      ensures Valid()
      ensures forall f: nat :: IsTaken(f) <==>
                old(IsTaken(f)) && !(piece.start <= frame <= f < frame + CeilToPage(amount))
      ensures framesAvailable - piece.framesFree == old(framesAvailable - piece.framesFree)
    {
      if frame < piece.start { return; }
      var frames := CeilToPage(amount);
      var lid := frame - piece.start;
      framesAvailable := framesAvailable + frames;
      forall i: nat | lid <= i < lid + frames ensures i < piece.size && Taken(piece.bitmap[..], i) {
        assert IsTaken(piece.start + i);
      }
      if frames > 0 { assert IsTaken(frame + frames - 1); }
      piece.Free(lid, frames);
    }
  }
}
