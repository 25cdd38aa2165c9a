/** mem/phys.cpp: the walks of the frame allocator over a list of frame pieces. */
module PieceLists {
  import opened Basics
  import opened Bitmap
  import opened FramePieces
  import opened PhysAlloc

  /** Piece p has a run of n free frames from s on. */
  ghost predicate Room(p: FramePiece, s: nat, n: nat)
    reads p, p.bitmap
  {
    n > 0 && FreeRun(p.bitmap[..], p.size, s, n)
  }

  class PieceList {
    const pieces: seq<FramePiece>
    var framesAvailable: int

    ghost function Bitmaps(): (r: seq<array<Word>>)
      ensures |r| == |pieces| && forall k :: 0 <= k < |pieces| ==> r[k] == pieces[k].bitmap
    {
      seq(|pieces|, k requires 0 <= k < |pieces| => pieces[k].bitmap)
    }

    ghost predicate Valid()
      reads this, pieces, Bitmaps()
    {
      && pieces != [] && Distinct(pieces) && Distinct(Bitmaps())
      && forall k :: 0 <= k < |pieces| ==> Bitmaps()[k] == pieces[k].bitmap && pieces[k].Valid()
    }

    constructor (pieces: seq<FramePiece>, available: int)
      ensures this.pieces == pieces && framesAvailable == available
    {
      this.pieces, framesAvailable := pieces, available;
    }

    /**
     alloc: the lowest run in the first piece that has one; `ok` is false exactly where the kernel
     panics, when no piece has one. No other piece changes.
     */
    method Alloc(amount: nat) returns (ok: bool, frame: nat, ghost k: nat, ghost lid: nat)
      requires Valid()
      modifies this, pieces, Bitmaps()
      ensures Valid()
      ensures ok <==> exists j, s: nat :: 0 <= j < |pieces| && old(Room(pieces[j], s, CeilToPage(amount)))
      ensures ok ==> k < |pieces| && frame == pieces[k].start + lid && old(Room(pieces[k], lid, CeilToPage(amount)))
      ensures ok ==> forall s: nat :: s < lid ==> !old(Room(pieces[k], s, CeilToPage(amount)))
      ensures ok ==> forall j, s: nat :: 0 <= j < k ==> !old(Room(pieces[j], s, CeilToPage(amount)))
      ensures forall j, i: nat :: 0 <= j < |pieces| ==>
                (Taken(pieces[j].bitmap[..], i) <==>
                   old(Taken(pieces[j].bitmap[..], i)) || (ok && j == k && lid <= i < lid + CeilToPage(amount)))
      ensures framesAvailable == old(framesAvailable) - if ok then CeilToPage(amount) else 0
    {
      hide FreeRun, Taken, CeilToPage;
      var frames := CeilToPage(amount);
      ok, frame, k, lid := false, 0, 0, 0;
      var i := 0;
      while i < |pieces|
        invariant i <= |pieces| && unchanged(this) && unchanged(pieces) && unchanged(Bitmaps())
        invariant forall j, s: nat :: 0 <= j < i ==> !old(Room(pieces[j], s, frames))
      {
        var first := FindIn(pieces[i], frames);
        assert forall j :: 0 <= j < |pieces| ==> pieces[j].bitmap[..] == old(pieces[j].bitmap[..]);
        assert forall s: nat :: Room(pieces[i], s, frames) <==> old(Room(pieces[i], s, frames));
        if first >= 0 {
          framesAvailable := framesAvailable - frames;
          pieces[i].Alloc(first, frames);
          k, lid := i, first;
          assert forall j :: 0 <= j < |pieces| && j != i ==>
              Bitmaps()[j] != Bitmaps()[i] && pieces[j].bitmap[..] == old(pieces[j].bitmap[..]);
          return true, pieces[i].start + first, k, lid;
        }
        i := i + 1;
      }
      assert forall j :: 0 <= j < |pieces| ==> pieces[j].bitmap[..] == old(pieces[j].bitmap[..]);
    }

    /** The walk of free: the first piece that does not start behind the frame. */
    method Select(frame: nat) returns (k: nat)
      ensures k <= |pieces| && forall j :: 0 <= j < k ==> pieces[j].start > frame
      ensures k < |pieces| ==> pieces[k].start <= frame
    {
      k := 0;
      while k < |pieces|
        invariant k <= |pieces| && forall j :: 0 <= j < k ==> pieces[j].start > frame
      {
        if pieces[k].start <= frame { return; }
        k := k + 1;
      }
    }

    /**
     The piece that free gives a frame back to, -1 if it ignores the frame: never another than the first
     piece, whichever the frame was taken from.
     */
    method FreedTo(frame: nat) returns (k: int)
      requires pieces != []
      ensures k == if frame < pieces[0].start then -1 else 0
    {
      if frame < pieces[0].start { return -1; }
      k := Select(frame);
    }
  }

  /** One round of the walk: the lowest run in the piece, or -1 exactly when there is none. */
  method FindIn(p: FramePiece, n: nat) returns (first: int)
    requires p.Valid()
    ensures -1 <= first
    ensures first >= 0 ==> Room(p, first, n) && forall s: nat :: s < first ==> !Room(p, s, n)
    ensures first == -1 ==> forall s: nat :: !Room(p, s, n)
  {
    if p.framesFree < n {
      forall s: nat ensures !FreeRun(p.bitmap[..], p.size, s, n) {
        if FreeRun(p.bitmap[..], p.size, s, n) { FreeRunFits(p.bitmap[..], p.size, s, n); }
      }
      return -1;
    }
    first := p.Find(n);
  }
}
