/** mem/heap.cpp: malloc, free and realloc over a list of slabs. */
module Heaps {
  import opened Basics
  import opened Bitmap
  import opened HeapRegions
  import opened Slabs

  const LIMIT := 67108864
  const SLAB_BYTES := 0x10_0000

  /** The slabs are sound, and their data lie apart: even the address behind one is in no other. */
  ghost predicate Sound(rs: seq<Region>) {
    && (forall i :: 0 <= i < |rs| ==> Ok(rs[i]))
    && (forall i, j :: 0 <= i < j < |rs| ==> End(rs[i]) < rs[j].base || End(rs[j]) < rs[i].base)
  }

  /** In no slab does anything but a header look like one. */
  ghost predicate Genuine(rs: seq<Region>) {
    forall i :: 0 <= i < |rs| ==> NoFakes(rs[i])
  }

  function End(r: Region): nat {
    r.base + PIECE * r.Pieces()
  }

  ghost function TotalClear(rs: seq<Region>): int {
    if rs == [] then 0 else TotalClear(rs[..|rs| - 1]) + Clear(rs[|rs| - 1])
  }

  lemma {:induction false} TotalUpdate(rs: seq<Region>, i: nat, r: Region)
    requires i < |rs|
    ensures TotalClear(rs[i := r]) == TotalClear(rs) - Clear(rs[i]) + Clear(r)
  {
    var k := |rs| - 1;
    if i < k {
      TotalUpdate(rs[..k], i, r);
      assert rs[i := r][..k] == rs[..k][i := r];
    } else {
      assert rs[i := r][..k] == rs[..k];
    }
  }

  /** The live block behind `ptr` is the one at piece s of slab i. */
  predicate LiveAt(rs: seq<Region>, ptr: nat, i: nat, s: nat) {
    i < |rs| && s in rs[i].headers && ptr == rs[i].base + PIECE * s + PIECE
  }

  ghost predicate IsLive(rs: seq<Region>, ptr: nat) {
    exists i, s :: LiveAt(rs, ptr, i, s)
  }

  /** The first and the last byte of a live block, header included. */
  function First(rs: seq<Region>, i: nat, s: nat): nat
    requires i < |rs| && s in rs[i].headers
  {
    rs[i].base + PIECE * s
  }

  function Last(rs: seq<Region>, i: nat, s: nat): int
    requires i < |rs| && s in rs[i].headers
  {
    rs[i].base + PIECE * (s + rs[i].headers[s]) - 1
  }

  /** Two live blocks share no byte, unless they are the same block; each lies in its slab, 16-aligned. */
  lemma LiveBlocks(rs: seq<Region>, i: nat, s: nat, j: nat, t: nat)
    requires Sound(rs) && i < |rs| && s in rs[i].headers && j < |rs| && t in rs[j].headers
    ensures (i == j && s == t) || Last(rs, i, s) < First(rs, j, t) || Last(rs, j, t) < First(rs, i, s)
    ensures rs[i].base <= First(rs, i, s) <= Last(rs, i, s) < End(rs[i])
    ensures (First(rs, i, s) + PIECE) % PIECE == 0
  {
    hide Headed, Taken, Covered;
    assert Ok(rs[i]) && Ok(rs[j]);
  }

  /** A pointer belongs to one live block only, in the only slab that `owns` it. */
  lemma OneOwner(rs: seq<Region>, ptr: nat, i: nat, s: nat, j: nat)
    requires Sound(rs) && LiveAt(rs, ptr, i, s) && j < |rs| && rs[j].base <= ptr <= End(rs[j])
    ensures i == j
  {
    assert Ok(rs[i]);
  }

  /** A fresh slab has room for the request that made it. */
  lemma FreshSlabFits(size: nat)
    requires 0 < size <= LIMIT
    ensures var bytes := Max(size * 2, SLAB_BYTES);
            bytes < 0x1_0000_0000 && PieceCount(size) <= WORD_BITS * (bytes / PIECE / WORD_BITS)
  {
  }

  /** `mid` are the slabs before, perhaps with an empty one added; the block is taken in slab i. */
  ghost predicate Mallocs(rs: seq<Region>, mid: seq<Region>, rs': seq<Region>, i: nat, start: nat, n: nat) {
    && (mid == rs || (|mid| == |rs| + 1 && mid[..|rs|] == rs && mid[|rs|].headers == map[] && i == |rs|))
    && |rs'| == |mid| && i < |mid| && Allocates(mid[i], rs'[i], start, n) && rs' == mid[i := rs'[i]]
  }

  /** Piece `start` begins the lowest run of n free pieces. */
  ghost predicate LowestFit(r: Region, start: nat, n: nat) {
    FreeRun(r.bitmap, r.Pieces(), start, n) && forall s: nat :: s < start ==> !FreeRun(r.bitmap, r.Pieces(), s, n)
  }

  ghost predicate Frees(rs: seq<Region>, rs': seq<Region>, i: nat, start: nat) {
    && |rs'| == |rs| && i < |rs| && Releases(rs[i], rs'[i], start) && rs' == rs[i := rs'[i]]
  }

  ghost function Values(slabs: seq<Slab>): (rs: seq<Region>)
    reads slabs
    ensures |rs| == |slabs| && forall i :: 0 <= i < |slabs| ==> rs[i] == slabs[i].Value()
  {
    seq(|slabs|, i requires 0 <= i < |slabs| reads slabs => slabs[i].Value())
  }

  lemma SoundUpdate(rs: seq<Region>, i: nat, r: Region)
    requires Sound(rs) && i < |rs| && Ok(r) && r.base == rs[i].base && r.words == rs[i].words
    ensures Sound(rs[i := r])
  {
  }

  lemma SoundAppend(rs: seq<Region>, r: Region)
    requires Sound(rs) && Ok(r)
    requires forall i :: 0 <= i < |rs| ==> End(rs[i]) < r.base || End(r) < rs[i].base
    ensures Sound(rs + [r]) && TotalClear(rs + [r]) == TotalClear(rs) + Clear(r)
  {
    assert (rs + [r])[..|rs|] == rs;
  }

  class Heap {
    var slabs: seq<Slab>
    var heapFree: int

    ghost predicate Valid()
      reads this, slabs
    {
      && slabs != [] && Distinct(slabs)
      && (forall i :: 0 <= i < |slabs| ==> slabs[i].pieces == slabs[i].freePieces == WORD_BITS * slabs[i].words)
      && Sound(Values(slabs)) && heapFree == PIECE * TotalClear(Values(slabs))
    }

    /** init: one slab of 1 MiB. */
    constructor (vmem: nat)
      requires vmem > 0 && vmem % PIECE == 0
      ensures Valid() && fresh(slabs[0]) && |slabs| == 1 && forall ptr :: !IsLive(Values(slabs), ptr)
      ensures Genuine(Values(slabs))
    {
      var slab := new Slab.Create(vmem, SLAB_BYTES);
      slabs := [slab];
      heapFree := PIECE * slab.pieces;
      new;
      assert Values(slabs) == [slab.Value()];
      assert TotalClear([slab.Value()]) == Clear(slab.Value()) by { assert [slab.Value()][..0] == []; }
    }

    /** The walk of malloc over the slabs there are: the first one with room, or their number. */
    method FirstFit(size: nat) returns (k: nat, ptr: nat, ghost start: nat)
      requires Valid() && size > 0
      modifies slabs
      ensures k <= |slabs|
      ensures k == |slabs| ==> ptr == 0 && Values(slabs) == old(Values(slabs))
      ensures k < |slabs| ==> ptr == slabs[k].base + PIECE * start + PIECE
      ensures k < |slabs| ==> Mallocs(old(Values(slabs)), old(Values(slabs)), Values(slabs), k, start, PieceCount(size))
      ensures k < |slabs| ==> LowestFit(old(Values(slabs))[k], start, PieceCount(size))
      ensures k < |slabs| ==> Sound(Values(slabs))
      ensures k < |slabs| ==> TotalClear(Values(slabs)) == old(TotalClear(Values(slabs))) - PieceCount(size)
      ensures forall j, s: nat :: 0 <= j < k ==> !old(FreeRun(slabs[j].bitmap, slabs[j].pieces, s, PieceCount(size)))
      ensures old(Genuine(Values(slabs))) ==> Genuine(Values(slabs))
    {
      hide Ok, FreeRun, Values, Allocates, Clear, TotalClear, NoFakes;
      ghost var rs := Values(slabs);
      k, ptr, start := 0, 0, 0;
      while k < |slabs|
        invariant k <= |slabs| && Values(slabs) == rs && ptr == 0
        invariant forall j, s: nat :: 0 <= j < k ==>
                    !old(FreeRun(slabs[j].bitmap, slabs[j].pieces, s, PieceCount(size)))
      {
        assert rs[k] == slabs[k].Value() && Ok(rs[k]);
        assert slabs[k].Value() == old(slabs[k].Value());
        ptr, start := slabs[k].Alloc(size);
        ghost var rs' := Values(slabs);
        assert rs' == rs[k := rs'[k]];
        if ptr != 0 {
          TotalUpdate(rs, k, rs'[k]);
          SoundUpdate(rs, k, rs'[k]);
          return;
        }
        k := k + 1;
      }
    }

    /** The data of a new slab at `vmem` would lie apart from the others. */
    ghost predicate Vacant(vmem: nat, bytes: nat)
      reads this, slabs
    {
      && vmem > 0 && vmem % PIECE == 0
      && forall i :: 0 <= i < |slabs| ==> End(slabs[i].Value()) < vmem || vmem + bytes < slabs[i].base
    }

    /** createFromVMem, and the new slab at the end of the list. */
    method AddSlab(vmem: nat, bytes: nat)
      requires Valid() && Vacant(vmem, bytes) && bytes < 0x1_0000_0000
      modifies this
      ensures Valid() && |slabs| == |old(slabs)| + 1 && slabs[..|old(slabs)|] == old(slabs)
              && fresh(slabs[|old(slabs)|])
      ensures Values(slabs)[..|old(slabs)|] == old(Values(slabs))
      ensures var r := slabs[|old(slabs)|];
              && r.headers == map[] && r.words == bytes / PIECE / WORD_BITS
              && Clear(r.Value()) == r.pieces == WORD_BITS * r.words
      ensures old(Genuine(Values(slabs))) ==> Genuine(Values(slabs))
    {
      hide Ok, Clear, TotalClear, Values, NoFakes;
      ghost var rs := Values(slabs);
      var slab := new Slab.Create(vmem, bytes);
      SoundAppend(rs, slab.Value());
      slabs := slabs + [slab];
      heapFree := heapFree + PIECE * slab.pieces;
      assert Values(slabs) == rs + [slab.Value()];
    }

    /**
     malloc: 0 for nothing and for requests over 64 MiB, otherwise always a block: in the first slab
     with room, at the lowest place there, or in a new slab.
     */
    method Malloc(size: nat, vmem: nat) returns (ptr: nat, ghost mid: seq<Region>, ghost i: nat, ghost start: nat)
      requires Valid() && Vacant(vmem, Max(size * 2, SLAB_BYTES))
      modifies this, slabs
      ensures Valid() && old(slabs) <= slabs && fresh(set s | s in slabs && s !in old(slabs))
      ensures ptr == 0 <==> size == 0 || size > LIMIT
      ensures ptr == 0 ==> Values(slabs) == old(Values(slabs)) && heapFree == old(heapFree)
      ensures ptr != 0 ==> Mallocs(old(Values(slabs)), mid, Values(slabs), i, start, PieceCount(size)) && Sound(mid)
      ensures ptr != 0 ==> LiveAt(Values(slabs), ptr, i, start) && LowestFit(mid[i], start, PieceCount(size))
      ensures |slabs| > |old(slabs)| ==> ptr != 0 && i == |old(slabs)| == |slabs| - 1
      ensures |slabs| > |old(slabs)| ==> slabs[i].words == Max(size * 2, SLAB_BYTES) / PIECE / WORD_BITS
      ensures ptr != 0 ==> forall j, s: nat :: 0 <= j < i && j < |old(slabs)| ==>
                             !old(FreeRun(slabs[j].bitmap, slabs[j].pieces, s, PieceCount(size)))
      ensures old(Genuine(Values(slabs))) ==> Genuine(Values(slabs))
    {
      hide Ok, FreeRun, Values, Clear, TotalClear, Allocates, Genuine, LowestFit, Sound, PieceCount;
      mid, i, start := Values(slabs), 0, 0;
      if size == 0 || size > LIMIT { return 0, mid, 0, 0; }
      ghost var n := PieceCount(size);
      var k;
      k, ptr, start := FirstFit(size);
      i := k;
      if k < |slabs| {
        heapFree := heapFree - PIECE * PieceCount(size);
        TakenThere(mid, mid, Values(slabs), i, start, n);
        return;
      }
      ghost var rs := mid;
      FreshSlabFits(size);
      AddSlab(vmem, Max(size * 2, SLAB_BYTES));
      mid := Values(slabs);
      ptr, start := TakeIn(k, size);
      assert Mallocs(rs, mid, Values(slabs), i, start, n);
    }

    /** A block in slab k, which is empty. */
    method TakeIn(k: nat, size: nat) returns (ptr: nat, ghost start: nat)
      requires Valid() && k < |slabs| && slabs[k].headers == map[] && 0 < size && PieceCount(size) <= slabs[k].pieces
      modifies this`heapFree, slabs[k]
      ensures Valid() && ptr != 0 && LiveAt(Values(slabs), ptr, k, start)
      ensures Mallocs(old(Values(slabs)), old(Values(slabs)), Values(slabs), k, start, PieceCount(size))
      ensures LowestFit(old(Values(slabs))[k], start, PieceCount(size))
      ensures old(Genuine(Values(slabs))) ==> Genuine(Values(slabs))
    {
      hide Ok, FreeRun, Values, Clear, TotalClear, Allocates, NoFakes;
      ghost var rs, n := Values(slabs), PieceCount(size);
      assert rs[k] == slabs[k].Value() && Ok(rs[k]);
      assert FreeRun(slabs[k].bitmap, slabs[k].pieces, 0, n) by { EmptyRun(slabs[k].Value(), n); }
      ptr, start := slabs[k].Alloc(size);
      ghost var rs' := Values(slabs);
      assert rs' == rs[k := rs'[k]];
      TotalUpdate(rs, k, rs'[k]);
      SoundUpdate(rs, k, rs'[k]);
      heapFree := heapFree - PIECE * PieceCount(size);
      TakenThere(rs, rs, rs', k, start, n);
    }

    /** The walk of free and msize: the slab that owns the address, or their number. */
    method Owner(ptr: nat) returns (k: nat)
      ensures k <= |slabs| && (k < |slabs| ==> slabs[k].Owns(ptr))
      ensures k == |slabs| ==> forall i :: 0 <= i < |slabs| ==> !slabs[i].Owns(ptr)
    {
      k := 0;
      while k < |slabs|
        invariant k <= |slabs| && forall i :: 0 <= i < k ==> !slabs[i].Owns(ptr)
      {
        if slabs[k].Owns(ptr) { return; }
        k := k + 1;
      }
    }

    /** If the sanity word in front of `ptr` is right, it is that of a live block. */
    ghost predicate Unforged(ptr: nat)
      reads this, slabs
    {
      forall k :: 0 <= k < |slabs| && slabs[k].Owns(ptr) ==> slabs[k].Unforged(ptr)
    }

    /**
     free: gives the block back; `ok` is false exactly where the kernel panics, for what is no live
     block. Freeing it again would panic. All this unless user bytes imitate a header in front of the
     pointer: then the check lets it through.
     */
    method Free(ptr: nat) returns (ok: bool, ghost i: nat, ghost start: nat)
      requires Valid()
      modifies this, slabs
      ensures slabs == old(slabs) && (old(Unforged(ptr)) ==> Valid())
      ensures old(Unforged(ptr)) ==> (ok <==> ptr == 0 || old(IsLive(Values(slabs), ptr)))
      ensures !old(Unforged(ptr)) ==> ok
      ensures !ok || ptr == 0 ==> Values(slabs) == old(Values(slabs)) && heapFree == old(heapFree)
      ensures old(Unforged(ptr)) && ok && ptr != 0 ==> old(LiveAt(Values(slabs), ptr, i, start))
      ensures old(Unforged(ptr)) && ok && ptr != 0 ==> Frees(old(Values(slabs)), Values(slabs), i, start)
      ensures old(Unforged(ptr)) && ok && ptr != 0 ==> Unforged(ptr) && !IsLive(Values(slabs), ptr)
      ensures old(Unforged(ptr)) && old(Genuine(Values(slabs))) ==> Genuine(Values(slabs))
    {
      hide Ok, Values, Clear, TotalClear, Releases, LiveAt, IsLive, Frees, Genuine;
      hide Slab.BlockLen, Slab.SaneAt, Slab.Owns;
      ghost var rs := Values(slabs);
      i, start := 0, 0;
      if ptr == 0 { return true, 0, 0; }
      var k := Owner(ptr);
      if k == |slabs| {
        NoOwner(slabs, rs, ptr);
        return false, 0, 0;
      }
      OwnerLive(slabs, rs, ptr, k);
      OnlyOwner(slabs, rs, ptr, k);
      ghost var forged := !slabs[k].Unforged(ptr);
      assert forged == !Unforged(ptr);
      i := k;
      ok, start := FreeIn(k, ptr);
      if ok && !forged { FreedOnce(slabs, rs, Values(slabs), ptr, k, start); }
    }

    /**
     realloc. `q` is 0 exactly when malloc refuses the size, and then the old block is only freed;
     otherwise it moves. Without an old block this is malloc. `ok` is false where the kernel panics,
     for what is no live block, unless user bytes imitate a header in front of it.
     */
    method Realloc(ptr: nat, size: nat, vmem: nat)
      returns (ok: bool, q: nat, ghost i: nat, ghost s: nat, ghost j: nat, ghost t: nat)
      requires Valid() && Vacant(vmem, Max(size * 2, SLAB_BYTES))
      modifies this, slabs
      ensures ok ==> (q == 0 <==> size == 0 || size > LIMIT)
      ensures ptr == 0 ==> ok && Valid()
      ensures ptr == 0 && q == 0 ==> Values(slabs) == old(Values(slabs))
      ensures ptr == 0 && q != 0 ==> LiveAt(Values(slabs), q, j, t)
      ensures ptr == 0 && q != 0 ==>
                exists mid :: Mallocs(old(Values(slabs)), mid, Values(slabs), j, t, PieceCount(size))
      ensures ptr != 0 && old(Unforged(ptr)) ==> Valid() && (ok <==> old(IsLive(Values(slabs), ptr)))
      ensures ptr != 0 && old(Unforged(ptr)) && ok ==> old(LiveAt(Values(slabs), ptr, i, s))
      ensures ptr != 0 && old(Unforged(ptr)) && ok && q == 0 ==> Frees(old(Values(slabs)), Values(slabs), i, s)
      ensures ptr != 0 && old(Unforged(ptr)) && ok && q != 0 ==> LiveAt(Values(slabs), q, j, t)
      ensures ptr != 0 && old(Unforged(ptr)) && ok && q != 0 ==>
                Moves(old(Values(slabs)), Values(slabs), i, s, j, t, size)
    {
      hide Ok, Values, IsLive, Frees, Moves, Mallocs, TotalClear, FreeRun, Vacant, Heap.Unforged, Genuine;
      i, s := 0, 0;
      if ptr == 0 {
        ghost var mid;
        q, mid, j, t := Malloc(size, vmem);
        return true, q, 0, 0, j, t;
      }
      ok, q, i, s, j, t := ReallocBlock(ptr, size, vmem);
    }

    /** realloc with an old block. */
    method ReallocBlock(ptr: nat, size: nat, vmem: nat)
      returns (ok: bool, q: nat, ghost i: nat, ghost s: nat, ghost j: nat, ghost t: nat)
      requires Valid() && Vacant(vmem, Max(size * 2, SLAB_BYTES)) && ptr != 0
      modifies this, slabs
      ensures ok ==> (q == 0 <==> size == 0 || size > LIMIT)
      ensures old(Unforged(ptr)) ==> Valid() && (ok <==> old(IsLive(Values(slabs), ptr)))
      ensures old(Unforged(ptr)) && ok ==> old(LiveAt(Values(slabs), ptr, i, s))
      ensures old(Unforged(ptr)) && ok && q == 0 ==> Frees(old(Values(slabs)), Values(slabs), i, s)
      ensures old(Unforged(ptr)) && ok && q != 0 ==> Moves(old(Values(slabs)), Values(slabs), i, s, j, t, size)
      ensures old(Unforged(ptr)) && ok && q != 0 ==> LiveAt(Values(slabs), q, j, t)
    {
      hide Ok, Values, IsLive, Frees, Moves, Mallocs, Copied, TotalClear, Bytes, FreeRun, Genuine;
      hide Heap.Vacant, Heap.Unforged;
      ghost var rs, live := Values(slabs), Unforged(ptr);
      q, i, s, j, t := 0, 0, 0, 0, 0;
      if size == 0 {
        ok, i, s := Free(ptr);
        return;
      }
      var oldsize;
      ok, oldsize, i, s := Msize(ptr);
      if !ok { return; }
      ghost var mid, i', s';
      q, mid, j, t := Malloc(size, vmem);
      ghost var rs1 := Values(slabs);
      if q == 0 {
        if live { LiveUnforged(ptr, i, s); }
        ok, i', s' := Free(ptr);
        if live { LiveUnique(rs, ptr, i, s, i', s'); }
        return;
      }
      NewBlock(rs, mid, rs1, j, t, PieceCount(size));
      if live { AfterMalloc(rs, mid, rs1, i, s, ptr, j, t, PieceCount(size)); }
      ghost var rs2;
      ok, rs2 := MoveBytes(ptr, q, Min(oldsize, size), live, i, s, j, t);
      if live { ReallocMoves(rs, mid, rs1, rs2, Values(slabs), i, s, j, t, size); }
    }

    /** The end of realloc: copies m bytes from one live block to another and frees the first. */
    method MoveBytes(ptr: nat, q: nat, m: nat, ghost live: bool, ghost i: nat, ghost s: nat, ghost j: nat, ghost t: nat)
      returns (ok: bool, ghost rs2: seq<Region>)
      requires Valid() && ptr != 0 && LiveAt(Values(slabs), q, j, t) && m <= PIECE * (Values(slabs)[j].headers[t] - 1)
      requires live ==> LiveAt(Values(slabs), ptr, i, s) && !(i == j && s == t) && m <= |Bytes(Values(slabs), i, s)|
      modifies this, slabs
      ensures live ==> ok && Valid() && slabs == old(slabs) && LiveAt(Values(slabs), q, j, t) && Sound(rs2)
      ensures live ==> Copied(old(Values(slabs)), rs2, j, t, old(Bytes(Values(slabs), i, s))[..m])
      ensures live ==> Frees(rs2, Values(slabs), i, s)
    {
      hide Ok, Values, IsLive, Frees, TotalClear, Writes, Bytes, Heap.Unforged, Genuine;
      ghost var rs1 := Values(slabs);
      var bytes := Load(ptr, m, live, i, s);
      Copy(q, bytes, j, t);
      rs2 := Values(slabs);
      if live {
        AfterCopy(rs1, rs2, i, s, ptr, j, t, bytes, q);
        LiveUnforged(ptr, i, s);
      }
      ghost var i', s';
      ok, i', s' := Free(ptr);
      if live {
        LiveUnique(rs2, ptr, i, s, i', s');
        AfterFree(rs2, Values(slabs), i, s, j, t, q);
      }
    }

    /** msize: the room of a live block, and 0 for none; `ok` is false where the kernel panics. */
    method Msize(ptr: nat) returns (ok: bool, size: nat, ghost i: nat, ghost s: nat)
      requires Valid()
      ensures ptr == 0 ==> ok && size == 0
      ensures ptr != 0 && Unforged(ptr) ==> (ok <==> IsLive(Values(slabs), ptr))
      ensures ptr != 0 && Unforged(ptr) && ok ==> LiveAt(Values(slabs), ptr, i, s)
      ensures ptr != 0 && Unforged(ptr) && ok ==> size == |Bytes(Values(slabs), i, s)|
      ensures !Unforged(ptr) ==> ok
    {
      hide Ok, Values, Slab.Owns, TotalClear, Slab.SaneAt, Slab.LenAt, IsLive, RoomOf;
      ghost var rs := Values(slabs);
      size, i, s := 0, 0, 0;
      if ptr == 0 { return true, 0, 0, 0; }
      var k := Owner(ptr);
      if k == |slabs| {
        NoOwner(slabs, rs, ptr);
        return false, 0, 0, 0;
      }
      OwnerLive(slabs, rs, ptr, k);
      OnlyOwner(slabs, rs, ptr, k);
      assert rs[k] == slabs[k].Value() && Ok(rs[k]);
      if slabs[k].BlockLen(ptr) > 0 { slabs[k].LiveIsSane(ptr); }
      ok := slabs[k].SaneAt(ptr);
      if ok {
        SaneInData(slabs[k], ptr);
        size := RoomOf(slabs[k].LenAt(ptr));
        if slabs[k].BlockLen(ptr) > 0 {
          i, s := k, (ptr - slabs[k].base) / PIECE - 1;
          BlockPlace(rs[k], s);
          RoomFits(rs[k], s);
          assert LiveAt(rs, ptr, i, s);
        }
      }
    }

    /** As long as only headers look like headers, every aligned pointer is safe to pass to free. */
    lemma GenuineUnforged(ptr: nat)
      requires Valid() && Genuine(Values(slabs)) && ptr % PIECE == 0
      ensures Unforged(ptr)
    {
      hide Ok, NoFakes, TotalClear, Slab.Unforged;
      var rs := Values(slabs);
      forall k | 0 <= k < |slabs| ensures slabs[k].Unforged(ptr) {
        assert rs[k] == slabs[k].Value() && Ok(rs[k]) && NoFakes(rs[k]);
        slabs[k].AlignedUnforged(ptr);
      }
    }

    /** A live block has its own header. */
    lemma LiveUnforged(ptr: nat, i: nat, s: nat)
      requires Valid() && LiveAt(Values(slabs), ptr, i, s)
      ensures Unforged(ptr) && IsLive(Values(slabs), ptr)
    {
      hide Ok, Values, TotalClear, Slab.SaneAt;
      ghost var rs := Values(slabs);
      forall k | 0 <= k < |slabs| && slabs[k].Owns(ptr) ensures slabs[k].BlockLen(ptr) > 0 {
        OwnerLive(slabs, rs, ptr, k);
      }
    }

    /** The m bytes at `ptr`; what is not in the slab that owns the address is not modelled, and read as 0. */
    method Load(ptr: nat, m: nat, ghost live: bool, ghost i: nat, ghost s: nat) returns (bytes: seq<Byte>)
      requires Valid() && (live ==> LiveAt(Values(slabs), ptr, i, s) && m <= |Bytes(Values(slabs), i, s)|)
      ensures |bytes| == m && (live ==> bytes == Bytes(Values(slabs), i, s)[..m])
    {
      hide Ok, Values, TotalClear, Slab.Owns;
      ghost var rs := Values(slabs);
      var k := Owner(ptr);
      if live {
        OwnerIs(slabs, rs, ptr, i, s, k);
        BlockPlace(rs[k], s);
      }
      bytes := seq(m, _ => 0);
      if k < |slabs| && slabs[k].base <= ptr {
        var from := ptr - slabs[k].base;
        if from + m <= |slabs[k].data| { bytes := slabs[k].data[from..from + m]; }
      }
    }

    /** memcpy to the start of a live block. */
    method Copy(ptr: nat, bytes: seq<Byte>, ghost j: nat, ghost t: nat)
      requires Valid() && LiveAt(Values(slabs), ptr, j, t) && |bytes| <= PIECE * (Values(slabs)[j].headers[t] - 1)
      modifies slabs
      ensures Valid() && |Values(slabs)| == |old(Values(slabs))|
      ensures Values(slabs) == old(Values(slabs))[j := Values(slabs)[j]]
      ensures Writes(old(Values(slabs))[j], Values(slabs)[j], t, bytes)
    {
      hide Ok, Values, Clear, TotalClear, Slab.Owns, Kept, UserBytes, Written;
      ghost var rs := Values(slabs);
      var k := Owner(ptr);
      OwnerIs(slabs, rs, ptr, j, t, k);
      var slab := slabs[k];
      assert rs[k] == slab.Value();
      BlockPlace(rs[k], t);
      slab.data := Written(slab.data, ptr - slab.base, bytes);
      ghost var rs' := Values(slabs);
      assert rs' == rs[k := rs'[k]];
      WriteOk(rs[k], rs'[k], t, bytes);
      TotalUpdate(rs, k, rs'[k]);
      SoundUpdate(rs, k, rs'[k]);
    }

    /** free, in the slab that owns the address. */
    method FreeIn(k: nat, ptr: nat) returns (ok: bool, ghost start: nat)
      requires Valid() && k < |slabs|
      modifies this`heapFree, slabs[k]
      ensures ok <==> old(slabs[k].SaneAt(ptr))
      ensures !ok ==> Values(slabs) == old(Values(slabs)) && heapFree == old(heapFree)
      ensures old(slabs[k].Unforged(ptr)) ==> Valid() && (ok <==> old(slabs[k].BlockLen(ptr)) > 0)
      ensures old(slabs[k].Unforged(ptr)) ==> !slabs[k].SaneAt(ptr)
      ensures old(slabs[k].Unforged(ptr)) && ok ==> LiveAt(old(Values(slabs)), ptr, k, start)
      ensures old(slabs[k].Unforged(ptr)) && ok ==> Frees(old(Values(slabs)), Values(slabs), k, start)
      ensures old(slabs[k].Unforged(ptr)) && old(Genuine(Values(slabs))) ==> Genuine(Values(slabs))
    {
      hide Ok, Values, Clear, TotalClear, Releases, Slab.BlockLen, Slab.SaneAt, Slab.LenAt, NoFakes;
      ghost var rs := Values(slabs);
      assert rs[k] == slabs[k].Value() && Ok(rs[k]);
      var n := 0;
      if slabs[k].BlockLen(ptr) > 0 { slabs[k].LiveIsSane(ptr); }
      if slabs[k].SaneAt(ptr) {
        SaneInData(slabs[k], ptr);
        n := slabs[k].LenAt(ptr);
      }
      ok, start := slabs[k].Free(ptr);
      ghost var rs' := Values(slabs);
      assert rs' == rs[k := rs'[k]];
      if old(slabs[k].Unforged(ptr)) {
        TotalUpdate(rs, k, rs'[k]);
        SoundUpdate(rs, k, rs'[k]);
      }
      if ok { heapFree := heapFree + PIECE * n; }
    }
  }

  /** The bytes of a live block. */
  ghost function Bytes(rs: seq<Region>, i: nat, s: nat): (b: seq<Byte>)
    requires Sound(rs) && i < |rs| && s in rs[i].headers
  {
    assert Ok(rs[i]);
    UserBytes(rs[i], s)
  }

  predicate SamePrefix(a: seq<Byte>, b: seq<Byte>, m: nat) {
    m <= |a| && m <= |b| && a[..m] == b[..m]
  }

  /**
   What realloc does to the block at piece s of slab i: it moves to piece t of slab j, with as many
   of its bytes as fit; every other live block stays as it is.
   */
  ghost predicate Moves(rs: seq<Region>, rs': seq<Region>, i: nat, s: nat, j: nat, t: nat, size: nat) {
    && Sound(rs) && Sound(rs') && i < |rs| <= |rs'| && s in rs[i].headers && s !in rs'[i].headers
    && j < |rs'| && t in rs'[j].headers && rs'[j].headers[t] == PieceCount(size)
    && SamePrefix(Bytes(rs, i, s), Bytes(rs', j, t), Min(|Bytes(rs, i, s)|, size))
    && forall k: nat, u: nat :: k < |rs| && u in rs[k].headers && !(k == i && u == s) ==> BlockKept(rs, rs', k, u)
  }

  /** `bytes` are copied to the start of the block at piece t of slab j. */
  ghost predicate Copied(rs: seq<Region>, rs': seq<Region>, j: nat, t: nat, bytes: seq<Byte>) {
    |rs'| == |rs| && j < |rs| && rs' == rs[j := rs'[j]] && Writes(rs[j], rs'[j], t, bytes)
  }

  lemma ReallocMoves(rs: seq<Region>, mid: seq<Region>, rs1: seq<Region>, rs2: seq<Region>, rs3: seq<Region>,
                     i: nat, s: nat, j: nat, t: nat, size: nat)
    requires Sound(rs) && Sound(mid) && Sound(rs1) && Sound(rs2) && Sound(rs3) && i < |rs| && s in rs[i].headers
    requires Mallocs(rs, mid, rs1, j, t, PieceCount(size))
    requires Copied(rs1, rs2, j, t, Bytes(rs, i, s)[..Min(|Bytes(rs, i, s)|, size)])
    requires Frees(rs2, rs3, i, s)
    ensures Moves(rs, rs3, i, s, j, t, size)
  {
    hide Ok, Allocates, Releases, Writes, Kept;
    var m := Min(|Bytes(rs, i, s)|, size);
    NewStart(mid[j], rs1[j], t, PieceCount(size));
    MallocKeeps(rs, mid, rs1, j, t, PieceCount(size), i, s);
    assert Ok(rs1[j]);
    CopyKeeps(rs1, rs2, j, t, Bytes(rs, i, s)[..m]);
    FreeKeeps(rs2, rs3, i, s, j, t);
    KeptLive(rs2, rs3, j, t);
    Released(rs2[i], rs3[i], s);
    MovedBytes(rs2[j], rs3[j], t, Bytes(rs, i, s)[..m]);
    forall k: nat, u: nat | k < |rs| && u in rs[k].headers && !(k == i && u == s) ensures BlockKept(rs, rs3, k, u) {
      MallocKeeps(rs, mid, rs1, j, t, PieceCount(size), k, u);
      KeptLive(rs, rs1, k, u);
      CopyKeepsBlock(rs1, rs2, j, t, Bytes(rs, i, s)[..m], k, u);
      KeptLive(rs1, rs2, k, u);
      FreeKeeps(rs2, rs3, i, s, k, u);
      KeptTrans(rs, rs1, rs2, k, u);
      KeptTrans(rs, rs2, rs3, k, u);
    }
  }

  lemma LiveUnique(rs: seq<Region>, ptr: nat, i: nat, s: nat, i': nat, s': nat)
    requires Sound(rs) && LiveAt(rs, ptr, i, s) && LiveAt(rs, ptr, i', s')
    ensures i == i' && s == s'
  {
    assert Ok(rs[i]) && Ok(rs[i']);
    OneOwner(rs, ptr, i, s, i');
  }

  lemma NewBlock(rs: seq<Region>, mid: seq<Region>, rs1: seq<Region>, j: nat, t: nat, n: nat)
    requires Mallocs(rs, mid, rs1, j, t, n)
    ensures j < |rs1| && t in rs1[j].headers && rs1[j].headers[t] == n
  {
    hide BitsSet, Formatted;
  }

  lemma AfterMalloc(rs: seq<Region>, mid: seq<Region>, rs1: seq<Region>, i: nat, s: nat, ptr: nat, j: nat, t: nat,
                    n: nat)
    requires Sound(rs) && Mallocs(rs, mid, rs1, j, t, n) && Sound(mid) && Sound(rs1) && LiveAt(rs, ptr, i, s)
    ensures LiveAt(rs1, ptr, i, s) && Bytes(rs1, i, s) == Bytes(rs, i, s) && !(i == j && s == t)
    ensures j < |rs1| && t in rs1[j].headers && rs1[j].headers[t] == n
  {
    MallocKeeps(rs, mid, rs1, j, t, n, i, s);
  }

  lemma AfterCopy(rs1: seq<Region>, rs2: seq<Region>, i: nat, s: nat, ptr: nat, j: nat, t: nat, bytes: seq<Byte>,
                  q: nat)
    requires Sound(rs1) && Sound(rs2) && |rs2| == |rs1| && j < |rs1| && Writes(rs1[j], rs2[j], t, bytes)
    requires rs2 == rs1[j := rs2[j]] && LiveAt(rs1, q, j, t) && |bytes| <= PIECE * (rs1[j].headers[t] - 1)
    requires LiveAt(rs1, ptr, i, s) && !(i == j && s == t)
    ensures LiveAt(rs2, ptr, i, s) && LiveAt(rs2, q, j, t) && IsLive(rs2, ptr)
  {
    hide Ok;
    assert LiveAt(rs2, ptr, i, s);
  }

  lemma AfterFree(rs2: seq<Region>, rs3: seq<Region>, i: nat, s: nat, j: nat, t: nat, q: nat)
    requires Frees(rs2, rs3, i, s) && LiveAt(rs2, q, j, t) && !(i == j && s == t)
    ensures LiveAt(rs3, q, j, t)
  {
  }

  lemma KeptLive(rs: seq<Region>, rs': seq<Region>, k: nat, u: nat)
    requires BlockKept(rs, rs', k, u)
    ensures u in rs'[k].headers
  {
  }

  lemma CopyKeeps(rs1: seq<Region>, rs2: seq<Region>, j: nat, t: nat, bytes: seq<Byte>)
    requires Sound(rs1) && Sound(rs2) && |rs2| == |rs1| && j < |rs1| && Writes(rs1[j], rs2[j], t, bytes)
    requires t in rs1[j].headers && |bytes| <= PIECE * (rs1[j].headers[t] - 1)
    ensures t in rs2[j].headers && rs2[j].headers == rs1[j].headers && Ok(rs2[j]) && bytes <= UserBytes(rs2[j], t)
  {
    assert Ok(rs1[j]);
    WriteOk(rs1[j], rs2[j], t, bytes);
  }

  lemma CopyKeepsBlock(rs1: seq<Region>, rs2: seq<Region>, j: nat, t: nat, bytes: seq<Byte>, k: nat, u: nat)
    requires Sound(rs1) && Sound(rs2) && |rs2| == |rs1| && j < |rs1| && Writes(rs1[j], rs2[j], t, bytes)
    requires rs2 == rs1[j := rs2[j]] && t in rs1[j].headers && |bytes| <= PIECE * (rs1[j].headers[t] - 1)
    requires k < |rs1| && u in rs1[k].headers && !(k == j && u == t)
    ensures BlockKept(rs1, rs2, k, u)
  {
    hide Kept;
    assert Ok(rs1[k]) && Ok(rs2[k]);
    if k == j {
      WriteKeeps(rs1[k], rs2[k], t, bytes, u);
    } else {
      SameKept(rs1[k], u);
    }
  }

  lemma MovedBytes(r: Region, r': Region, t: nat, bytes: seq<Byte>)
    requires Kept(r, r', t) && bytes <= UserBytes(r, t)
    ensures |bytes| <= |UserBytes(r', t)| && UserBytes(r', t)[..|bytes|] == bytes && r'.headers[t] == r.headers[t]
  {
  }

  /** The block at piece u of slab k is still there, with the same bytes. */
  ghost predicate BlockKept(rs: seq<Region>, rs': seq<Region>, k: nat, u: nat) {
    k < |rs| && k < |rs'| && rs'[k].base == rs[k].base && Kept(rs[k], rs'[k], u)
  }

  /** malloc touches no live block. */
  lemma MallocKeeps(rs: seq<Region>, mid: seq<Region>, rs': seq<Region>, i: nat, start: nat, n: nat, k: nat, u: nat)
    requires Mallocs(rs, mid, rs', i, start, n) && Sound(mid) && Sound(rs') && k < |rs| && u in rs[k].headers
    ensures BlockKept(rs, rs', k, u) && !(k == i && u == start)
  {
    hide Ok, Allocates;
    assert mid[k] == rs[k] && Ok(mid[k]) && Ok(rs'[k]);
    if k == i {
      AllocateKeeps(mid[k], rs'[k], start, n, u);
      NewStart(mid[k], rs'[k], start, n);
    } else {
      SameKept(rs[k], u);
    }
  }

  lemma SameKept(r: Region, u: nat)
    requires Ok(r) && u in r.headers
    ensures Kept(r, r, u)
  {
  }

  lemma NewStart(r: Region, r': Region, start: nat, n: nat)
    requires Allocates(r, r', start, n)
    ensures start !in r.headers && r'.base == r.base && start in r'.headers && r'.headers[start] == n
  {
  }

  /** free touches no other live block. */
  lemma FreeKeeps(rs: seq<Region>, rs': seq<Region>, i: nat, start: nat, k: nat, u: nat)
    requires Frees(rs, rs', i, start) && Sound(rs) && Sound(rs') && k < |rs| && u in rs[k].headers
             && !(k == i && u == start)
    ensures BlockKept(rs, rs', k, u)
  {
    hide Ok, Releases;
    assert Ok(rs[k]) && Ok(rs'[k]);
    if k == i {
      ReleaseKeeps(rs[k], rs'[k], start, u);
      Released(rs[k], rs'[k], start);
    } else {
      SameKept(rs[k], u);
    }
  }

  lemma Released(r: Region, r': Region, start: nat)
    requires Releases(r, r', start)
    ensures r'.base == r.base && r'.words == r.words && start !in r'.headers
  {
  }

  lemma KeptTrans(rs: seq<Region>, rs': seq<Region>, rs'': seq<Region>, k: nat, u: nat)
    requires BlockKept(rs, rs', k, u) && BlockKept(rs', rs'', k, u)
    ensures BlockKept(rs, rs'', k, u)
  {
  }

  lemma TakenThere(rs: seq<Region>, mid: seq<Region>, rs': seq<Region>, i: nat, start: nat, n: nat)
    requires Mallocs(rs, mid, rs', i, start, n)
    ensures start in rs'[i].headers && rs'[i].base == mid[i].base
  {
  }

  lemma EmptyRun(r: Region, n: nat)
    requires Ok(r) && r.headers == map[] && n <= r.Pieces()
    ensures FreeRun(r.bitmap, r.Pieces(), 0, n)
  {
  }

  /** The slab that owns the address of a live block is the one the block is in. */
  lemma OwnerIs(slabs: seq<Slab>, rs: seq<Region>, ptr: nat, j: nat, t: nat, k: nat)
    requires Sound(rs) && |rs| == |slabs| && forall i :: 0 <= i < |slabs| ==> rs[i] == slabs[i].Value()
    requires forall i :: 0 <= i < |slabs| ==> slabs[i].pieces == WORD_BITS * slabs[i].words
    requires LiveAt(rs, ptr, j, t) && k <= |slabs|
    requires if k < |slabs| then slabs[k].Owns(ptr) else forall i :: 0 <= i < |slabs| ==> !slabs[i].Owns(ptr)
    ensures k == j && Ok(rs[j])
  {
    assert Ok(rs[j]) && slabs[j].Owns(ptr);
    if k < |slabs| { OneOwner(rs, ptr, j, t, k); }
  }

  lemma NoOwner(slabs: seq<Slab>, rs: seq<Region>, ptr: nat)
    requires Sound(rs) && |rs| == |slabs| && forall i :: 0 <= i < |slabs| ==> rs[i] == slabs[i].Value()
    requires forall i :: 0 <= i < |slabs| ==> slabs[i].pieces == WORD_BITS * slabs[i].words
    requires forall i :: 0 <= i < |slabs| ==> !slabs[i].Owns(ptr)
    ensures !IsLive(rs, ptr)
  {
    forall i: nat, s: nat ensures !LiveAt(rs, ptr, i, s) {
      if i < |rs| && s in rs[i].headers {
        assert Ok(rs[i]) && !slabs[i].Owns(ptr);
      }
    }
  }

  /** In the slab that owns the address the header tells whether it is a live block. */
  lemma OwnerLive(slabs: seq<Slab>, rs: seq<Region>, ptr: nat, k: nat)
    requires Sound(rs) && |rs| == |slabs| && forall i :: 0 <= i < |slabs| ==> rs[i] == slabs[i].Value()
    requires forall i :: 0 <= i < |slabs| ==> slabs[i].pieces == WORD_BITS * slabs[i].words
    requires k < |slabs| && slabs[k].Owns(ptr)
    ensures IsLive(rs, ptr) <==> slabs[k].BlockLen(ptr) > 0
  {
    hide Headed, Taken, Covered;
    assert Ok(rs[k]);
    if IsLive(rs, ptr) {
      var i, s :| LiveAt(rs, ptr, i, s);
      OneOwner(rs, ptr, i, s, k);
    }
    if slabs[k].BlockLen(ptr) > 0 {
      assert LiveAt(rs, ptr, k, (ptr - slabs[k].base) / PIECE - 1);
    }
  }

  lemma SaneInData(slab: Slab, ptr: nat)
    requires slab.SaneAt(ptr)
    ensures slab.base + PIECE <= ptr <= slab.base + |slab.data|
  {
  }

  /** No address belongs to two slabs. */
  lemma OnlyOwner(slabs: seq<Slab>, rs: seq<Region>, ptr: nat, k: nat)
    requires Sound(rs) && |rs| == |slabs| && forall i :: 0 <= i < |slabs| ==> rs[i] == slabs[i].Value()
    requires forall i :: 0 <= i < |slabs| ==> slabs[i].pieces == WORD_BITS * slabs[i].words
    requires k < |slabs| && slabs[k].Owns(ptr)
    ensures forall i :: 0 <= i < |slabs| && slabs[i].Owns(ptr) ==> i == k
  {
    hide Ok;
  }

  /** After free no slab takes the pointer for a block. */
  lemma FreedOnce(slabs: seq<Slab>, rs: seq<Region>, rs': seq<Region>, ptr: nat, k: nat, start: nat)
    requires Sound(rs) && Sound(rs') && |rs| == |rs'| == |slabs|
    requires forall i :: 0 <= i < |slabs| ==> rs'[i] == slabs[i].Value()
    requires forall i :: 0 <= i < |slabs| ==> slabs[i].pieces == slabs[i].freePieces == WORD_BITS * slabs[i].words
    requires LiveAt(rs, ptr, k, start) && Frees(rs, rs', k, start) && slabs[k].Owns(ptr) && !slabs[k].SaneAt(ptr)
    ensures !IsLive(rs', ptr) && forall i :: 0 <= i < |slabs| && slabs[i].Owns(ptr) ==> slabs[i].Unforged(ptr)
  {
    hide Ok, Releases, Slab.SaneAt, Slab.BlockLen;
    assert Ok(rs'[k]);
    if slabs[k].BlockLen(ptr) > 0 { slabs[k].LiveIsSane(ptr); }
    OwnerLive(slabs, rs', ptr, k);
    forall i | 0 <= i < |slabs| && slabs[i].Owns(ptr) ensures i == k {
      Released(rs[k], rs'[k], start);
      OneOwner(rs, ptr, k, start, i);
    }
  }
}
