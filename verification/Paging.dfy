/**
 arch/x86_64/mem/paging.cpp: user pagemaps. `aim_pptr` is a plain dereference of physical memory;
 where the kernel panics for want of a frame, the methods return `ok == false` and promise nothing.
 */
module Paging {
  import Bitmap
  import opened PhysAlloc
  import opened PageTable
  import opened TableSteps
  import opened Addresses
  import opened Entries
  import opened Batches
  import opened Releases
  import opened Forks

  // Flags beyond the low 12 bits of a word.
  const EXEC := 12
  const FIXED := 13
  const ARBITRARY := 14

  /** `flags | extra`, cut to the low 12 bits. */
  function PageFlags(flags: set<nat>, extra: set<nat>): (r: set<nat>) {
    set b | b in flags + extra && b < 12
  }

  /** The flags of map: always PAGE_NOPHYS, and PAGE_PRESENT unless the pages are to fault. */
  function MapFlags(flags: set<nat>): (r: set<nat>)
    ensures NOPHYS in r && (0 in r <==> ARBITRARY !in flags)
  {
    if ARBITRARY in flags then PageFlags(flags - {0}, {NOPHYS}) else PageFlags(flags, {NOPHYS, 0})
  }

  class Machine {
    const phys: Phys
    var ram: Ram
    ghost var taken: set<nat>     // the frames the frame allocator has handed out

    ghost predicate Valid()
      reads this, phys, phys.piece, phys.piece.bitmap
    {
      phys.Valid() && phys.piece.start + phys.piece.size <= |ram| && taken == TakenFrames()
    }

    ghost function Now(): (s: Store)
      reads this
    {
      Store(ram, taken)
    }

    ghost function TakenFrames(): (s: set<nat>)
      reads phys, phys.piece, phys.piece.bitmap
    {
      set f: nat | f < phys.piece.start + phys.piece.size && phys.IsTaken(f)
    }

    constructor (phys: Phys, ram: Ram)
      requires phys.Valid() && phys.piece.start + phys.piece.size <= |ram|
      ensures Valid() && this.phys == phys && this.ram == ram
    {
      this.phys, this.ram := phys, ram;
      new;
      taken := TakenFrames();
    }

    /** No frame is left. */
    ghost predicate Full()
      reads this
    {
      forall f: nat :: phys.piece.start <= f < phys.piece.start + phys.piece.size ==> f in taken
    }

    /** Phys::alloc of one page; the kernel panics only when no frame is left. */
    method AllocFrame() returns (ok: bool, f: nat)
      requires Valid()
      modifies this`taken, phys, phys.piece, phys.piece.bitmap
      ensures Valid()
      ensures ok ==> f !in old(taken) && taken == old(taken) + {f} && 0 < f < |ram|
      ensures !ok ==> Full()
    {
      ok, f := phys.Alloc(PAGE_SIZE);
      taken := TakenFrames();
      if !ok {
        forall f: nat | phys.piece.start <= f < phys.piece.start + phys.piece.size ensures f in taken {
          assert !old(Bitmap.FreeRun(phys.piece.bitmap[..], phys.piece.size, f - phys.piece.start,
                                     CeilToPage(PAGE_SIZE)));
          assert old(phys.IsTaken(f));
        }
      }
    }

    /** Phys::free of one page. */
    method FreeFrame(f: nat)
      requires Valid() && f in taken
      modifies this`taken, phys, phys.piece, phys.piece.bitmap
      ensures Valid() && taken == old(taken) - {f}
    {
      phys.Free(f, PAGE_SIZE);
      taken := TakenFrames();
    }
  }

  class Pagemap {
    const machine: Machine
    const root: nat      // pageRoot, as a frame number
    const vstart: nat    // first and last address of the address space
    const vend: nat

    ghost predicate Valid()
      reads machine, machine.phys, machine.phys.piece, machine.phys.piece.bitmap
    {
      && machine.Valid()
      && Good(machine.Now(), root)
      && vstart < vend < 4096 * USER_PAGES
    }

    constructor AtRoot(machine: Machine, root: nat, vstart: nat, vend: nat)
      ensures this.machine == machine && this.root == root && this.vstart == vstart && this.vend == vend
    {
      this.machine, this.root, this.vstart, this.vend := machine, root, vstart, vend;
    }

    /** Pagemap(start, end): a fresh root whose kernel half is copied and whose user half is empty. */
    static method Create(machine: Machine, start: nat, end: nat, kernelRoot: nat) returns (ok: bool, pm: Pagemap?)
      requires machine.Valid() && kernelRoot < |machine.ram| && start < end < 4096 * USER_PAGES
      modifies machine, machine.phys, machine.phys.piece, machine.phys.piece.bitmap
      ensures !ok ==> machine.Full()
      ensures ok ==> pm != null && pm.machine == machine && pm.vstart == start && pm.vend == end && pm.Valid()
      ensures ok ==> pm.root !in old(machine.taken) && machine.taken == old(machine.taken) + {pm.root}
      ensures ok ==> |machine.ram| == |old(machine.ram)|
      ensures ok ==> forall f :: 0 <= f < |machine.ram| && f != pm.root ==> machine.ram[f] == old(machine.ram)[f]
      ensures ok ==> pm.root < |machine.ram| && machine.ram[pm.root][256..] == old(machine.ram)[kernelRoot][256..]
      ensures ok ==> forall p: nat :: p < USER_PAGES ==> Flat(machine.ram, pm.root)[p] == NIL
      ensures ok ==> forall n :: Live(machine.ram, pm.root, n) ==> n == Root
    {
      var root;
      ok, root := machine.AllocFrame();
      if !ok { return false, null; }
      var table: Table := Zeroes()[..256] + machine.ram[kernelRoot][256..];
      machine.ram := machine.ram[root := table];
      pm := new Pagemap.AtRoot(machine, root, start, end);
      EmptyTree(machine.Now(), root);
    }

    /** The lookup of find_table: the page table over page p, or 0 and how far the missing part reaches. */
    method FindTable(p: nat) returns (t: nat, skip: nat)
      requires Valid() && p < USER_PAGES
      ensures t == TableAt(machine.ram, root, p)
      ensures t != 0 <==> Live(machine.ram, root, NodeOf(3, p))
      ensures t != 0 ==> skip == 0 && t < |machine.ram|
      ensures t == 0 ==> exists d :: 1 <= d <= 3 && skip == Span(d) && Slot(machine.ram, root, NodeOf(d, p)) == NIL
                                 && Live(machine.ram, root, NodeOf(d - 1, p))
    {
      ghost var m := machine.ram;
      assert Live(m, root, NodeOf(0, p));
      var pml4 := machine.ram[root];
      if pml4[p / 0x800_0000 % 512] == NIL {
        NothingBelow(m, root, 1, p);
        return 0, 0x800_0000;
      }
      assert Live(m, root, NodeOf(1, p));
      var pdp := machine.ram[pml4[p / 0x800_0000 % 512].frame];
      if pdp[p / 0x4_0000 % 512] == NIL {
        NothingBelow(m, root, 2, p);
        return 0, 0x4_0000;
      }
      assert Live(m, root, NodeOf(2, p));
      var pd := machine.ram[pdp[p / 0x4_0000 % 512].frame];
      if pd[p / 0x200 % 512] == NIL {
        NothingBelow(m, root, 3, p);
        return 0, 0x200;
      }
      assert Live(m, root, NodeOf(3, p));
      return pd[p / 0x200 % 512].frame, 0;
    }

    /** Walks to the page table over page p and creates the tables that are missing on the way. */
    method FindTableEnsure(p: nat) returns (ok: bool, t: nat)
      requires Valid() && p < USER_PAGES
      modifies machine, machine.phys, machine.phys.piece, machine.phys.piece.bitmap
      ensures !ok ==> machine.Full()
      ensures ok ==> Valid() && Grown(old(machine.Now()), machine.Now(), root)
      ensures ok ==> Live(machine.ram, root, NodeOf(3, p)) && t == TableAt(machine.ram, root, p)
      ensures ok ==> 0 < t < |machine.ram|
    {
      var span := 0x800_0000;
      t := root;
      ghost var s0 := machine.Now();
      GrownRefl(s0, root);
      for i := 0 to 3
        invariant Valid() && span == Span(i + 1)
        invariant Grown(s0, machine.Now(), root)
        invariant Live(machine.ram, root, NodeOf(i, p)) && t == Tab(machine.ram, root, NodeOf(i, p))
      {
        ghost var s := machine.Now();
        ok, t := EnsureLink(t, p / span % 512, NodeOf(i + 1, p));
        if !ok { return false, 0; }
        GrownTrans(s0, s, machine.Now(), root);
        span := span / 512;
      }
      ok := true;
    }

    /** One level of findTableEnsure: follows slot `index` of table t, filling it first if it is empty. */
    method EnsureLink(t: nat, index: nat, ghost N: Node) returns (ok: bool, next: nat)
      requires Valid() && IsNode(N) && 0 < Depth(N) < 4 && index == N.index
      requires Live(machine.ram, root, N.parent) && t == Tab(machine.ram, root, N.parent)
      modifies machine, machine.phys, machine.phys.piece, machine.phys.piece.bitmap
      ensures !ok ==> machine.Full()
      ensures ok ==> Valid() && Grown(old(machine.Now()), machine.Now(), root)
      ensures ok ==> Live(machine.ram, root, N) && next == Tab(machine.ram, root, N)
    {
      ghost var s := machine.Now();
      ghost var m := machine.ram;
      assert m[t][index] == Slot(m, root, N);
      var isNew := false;
      if 0 !in machine.ram[t][index].flags {
        assert !Live(m, root, N);
        var f;
        ok, f := machine.AllocFrame();
        if !ok { return false, 0; }
        machine.ram := WithWord(machine.ram, t, index, Word(f, {}));
        isNew := true;
      }
      var e := machine.ram[t][index];
      machine.ram := WithWord(machine.ram, t, index, Word(e.frame, e.flags + LINK));
      ok, next := true, e.frame;
      if isNew {
        machine.ram := machine.ram[next := Zeroes()];
        assert {} + LINK == LINK;
        Rewrite(m, t, index, Word(next, {}), Word(next, LINK));
        Link(s, machine.Now(), root, N, next);
      } else {
        assert Live(m, root, N);
        assert e.flags + LINK == e.flags;
        Rewrite(m, t, index, e, e);
        GrownRefl(s, root);
      }
    }

    /**
     The common part of assign and unassign: puts w in the entry of page p, whose old entry is e. The
     pagemap stays sound when the frame that w lets the page own is taken and has no owner yet.
     */
    method Exchange(p: nat, w: Word) returns (ok: bool, e: Word)
      requires Valid() && p < USER_PAGES
      modifies machine, machine.phys, machine.phys.piece, machine.phys.piece.bitmap
      ensures !ok ==> machine.Full()
      ensures ok ==> machine.Valid() && e == Flat(old(machine.ram), root)[p]
      ensures ok ==> Flat(machine.ram, root) == Flat(old(machine.ram), root)[p := w]
      ensures ok && MayClaim(old(machine.Now()), root, w) ==>
                Valid() && Updated(old(machine.Now()), machine.Now(), root, p, w)
    {
      hide Good, Extends, Grown, MayClaim, Live;
      var t;
      ok, t := FindTableEnsure(p);
      if !ok { return false, NIL; }
      ghost var s := machine.Now();
      e := machine.ram[t][p % 512];
      machine.ram := WithWord(machine.ram, t, p % 512, w);
      UpdateFlat(old(machine.Now()), s, machine.ram, root, p, t, w);
      if MayClaim(old(machine.Now()), root, w) {
        Update(old(machine.Now()), s, machine.Now(), root, p, t, w);
      }
    }

    /** Sets the raw entry of page p. */
    method Assign(p: nat, frame: nat, flags: set<nat>) returns (ok: bool)
      requires Valid() && p < USER_PAGES
      modifies machine, machine.phys, machine.phys.piece, machine.phys.piece.bitmap
      ensures !ok ==> machine.Full()
      ensures ok ==> machine.Valid() && Flat(machine.ram, root) == Flat(old(machine.ram), root)[p := Word(frame, flags)]
      ensures ok && MayClaim(old(machine.Now()), root, Word(frame, flags)) ==>
                Valid() && Updated(old(machine.Now()), machine.Now(), root, p, Word(frame, flags))
    {
      hide Good, Extends, MayClaim;
      var e;
      ok, e := Exchange(p, Word(frame, flags));
    }

    /** Clears the entry of page p; returns the frame the page owned, or 0. */
    method Unassign(p: nat) returns (ok: bool, frame: nat)
      requires Valid() && vstart <= 4096 * p <= vend
      modifies machine, machine.phys, machine.phys.piece, machine.phys.piece.bitmap
      ensures !ok ==> machine.Full()
      ensures ok ==> Valid()
      ensures ok ==> Updated(old(machine.Now()), machine.Now(), root, p, NIL)
      ensures ok ==> Claimed(4, Flat(old(machine.ram), root)[p]) == if frame == 0 then {} else {frame}
    {
      hide Good, Extends;
      var e;
      OwnedFrame(machine.Now(), root, p);
      ok, e := Exchange(p, NIL);
      frame := if NOPHYS in e.flags then 0 else e.frame;
    }

    /** The raw entry of page p: the tree walk computes the flat map. */
    method RawOf(p: nat) returns (w: Word)
      requires Valid() && p < USER_PAGES
      ensures w == Flat(machine.ram, root)[p]
    {
      var t, skip := FindTable(p);
      InTable(machine.ram, root, p);
      if t == 0 { return NIL; }
      return machine.ram[t][p % 512];
    }

    /** The physical address behind `v`, with its offset in the page, or 0. */
    method PaddrOf(v: nat) returns (paddr: nat)
      requires Valid() && v / 4096 < USER_PAGES
      ensures var w := Flat(machine.ram, root)[v / 4096];
              if w.frame == 0 then paddr == 0 else paddr / 4096 == w.frame && paddr % 4096 == v % 4096
    {
      var page := v / 4096;
      var t, skip := FindTable(page);
      InTable(machine.ram, root, page);
      if t == 0 || machine.ram[t][page % 512].frame == 0 { return 0; }
      return machine.ram[t][page % 512].frame * 4096 + v % 4096;
    }

    /** The page where findContiguous starts to look. */
    function SearchStart(executable: bool): nat {
      if executable && vend == 0x7FFF_FFFF_FFFF then 0x7_FFF8_0000 else vstart / 4096
    }

    /**
     findContiguous: the lowest run of `amount` unmapped pages from the start of the search. The
     first table is created if need be; no entry changes.
     */
    method FindContiguous(amount: nat, executable: bool) returns (ok: bool, found: bool, start: nat)
      requires Valid()
      modifies machine, machine.phys, machine.phys.piece, machine.phys.piece.bitmap
      ensures !ok ==> machine.Full()
      ensures ok ==> Valid() && Grown(old(machine.Now()), machine.Now(), root)
      ensures ok && amount == 0 ==> !found
      ensures ok && amount > 0 ==>
                LowestRun(machine.ram, root, SearchStart(executable), CeilToPage(vend), amount, found, start)
      ensures ok && !found ==> start == 0
    {
      hide Outside, Flat, Grown, LowestRun;
      if amount == 0 {
        GrownRefl(machine.Now(), root);
        return true, false, 0;
      }
      var first := SearchStart(executable);
      var tb, skip := FindTable(first);
      if tb == 0 {
        ok, tb := FindTableEnsure(first);
        if !ok { return false, false, 0; }
      } else {
        GrownRefl(machine.Now(), root);
      }
      ok := true;
      found, start := ScanFrom(machine.ram, root, first, CeilToPage(vend), amount);
    }

    /** One page of alloc: takes a frame, clears it and assigns it to page p. */
    method AllocPage(p: nat, flags: set<nat>) returns (ok: bool, f: nat)
      requires Valid() && p < USER_PAGES
      modifies machine, machine.phys, machine.phys.piece, machine.phys.piece.bitmap
      ensures !ok ==> machine.Full()
      ensures ok ==> Valid() && f !in old(machine.taken) && f in machine.taken && 0 < f < |old(machine.ram)|
      ensures ok ==> Stepped(old(machine.Now()), machine.Now(), root, p, Word(f, flags), Stray(flags, [f]))
      ensures ok ==> f < |machine.ram| && machine.ram[f] == Zeroes()
    {
      ghost var s := machine.Now();
      ok, f := machine.AllocFrame();
      if !ok { return; }
      machine.ram := machine.ram[f := Zeroes()];
      ghost var s' := machine.Now();
      TakeFrame(s, s', root, f, Zeroes());
      ok := Assign(p, f, flags);
      if !ok { return; }
      AllocSteps(s, s', machine.Now(), root, p, f, flags, Zeroes());
    }

    /** The loop of alloc over `amount` pages. */
    method AllocPages(start: nat, amount: nat, flags: set<nat>) returns (ok: bool, ghost frames: seq<nat>)
      requires Valid() && start + amount <= USER_PAGES
      modifies machine, machine.phys, machine.phys.piece, machine.phys.piece.bitmap
      ensures !ok ==> machine.Full()
      ensures ok ==> Valid() && |frames| == amount
      ensures ok ==> Allocated(old(machine.Now()), machine.Now(), root, start, frames, flags)
    {
      hide Good, Outside, Flat, Stepped, Allocated, Stray;
      ghost var s0 := machine.Now();
      frames := [];
      AllocatedNone(s0, root, start, flags);
      var i := 0;
      while i < amount
        invariant Valid() && |frames| == i <= amount
        invariant Allocated(s0, machine.Now(), root, start, frames, flags)
      {
        ghost var s := machine.Now();
        var f;
        ok, f := AllocPage(start + i, flags);
        if !ok { return; }
        AllocatedStep(s0, s, machine.Now(), root, start, frames, flags, f);
        frames := frames + [f];
        i := i + 1;
      }
      ok := true;
    }

    /**
     Maps fresh zeroed frames for `bytes` bytes, at `source` or in the lowest free run. Taken frames
     that belonged to nobody before still do; those of pages that were mapped over join them.
     */
    method Alloc(bytes: nat, flags: set<nat>, source: nat) returns (ok: bool, start: nat, ghost frames: seq<nat>)
      requires Valid() && (FIXED in flags ==> source + CeilToPage(bytes) <= USER_PAGES)
      modifies machine, machine.phys, machine.phys.piece, machine.phys.piece.bitmap
      ensures ok ==> Valid() && |frames| == CeilToPage(bytes) && start + |frames| <= USER_PAGES
      ensures !ok && FIXED in flags ==> machine.Full() || source == 0
      ensures !ok && FIXED !in flags && !machine.Full() ==>
                SearchGives(old(machine.ram), root, SearchStart(EXEC in flags), CeilToPage(vend), CeilToPage(bytes), 0)
      ensures ok && bytes > 0 ==> start > 0 && (FIXED in flags ==> start == source)
      ensures ok && bytes > 0 ==> Batch(old(machine.Now()), machine.Now(), root, start, |frames|, Stray(flags, frames))
      ensures ok ==> FreshPages(old(machine.Now()), machine.Now(), root, start, frames, PageFlags(flags, {0}))
      ensures ok && bytes > 0 ==>
                (Outside(machine.Now(), root) == old(Outside(machine.Now(), root)) <==>
                   && NOPHYS !in flags
                   && forall q :: start <= q < start + |frames| ==> !Claims(4, old(Flat(machine.ram, root))[q]))
      ensures ok && NOPHYS in flags ==> forall f :: f in frames ==> f in Outside(machine.Now(), root)
      ensures ok ==> forall q, b: nat :: start <= q < start + |frames| ==>
                       (b in Flat(machine.ram, root)[q].flags <==> b < 12 && (b in flags || b == 0))
      ensures ok && bytes > 0 && FIXED !in flags ==>
                var first := if EXEC in flags && vend == 0x7FFF_FFFF_FFFF then 0x7_FFF8_0000 else vstart / 4096;
                first <= start && UnmappedRun(old(machine.ram), root, start, |frames|)
                && forall p :: first <= p < start ==> !UnmappedRun(old(machine.ram), root, p, |frames|)
    {
      hide Good, Outside, Flat, Batch, Grown, LowestRun, UnmappedRun;
      frames := [];
      if bytes == 0 { return true, 0, []; }
      var amount := CeilToPage(bytes);
      ghost var s0 := machine.Now();
      if FIXED in flags {
        start := source;
        GrownRefl(s0, root);
      } else {
        var found;
        ok, found, start := FindContiguous(amount, EXEC in flags);
        if !ok { return; }
        SameLowestRun(s0, machine.Now(), root, SearchStart(EXEC in flags), CeilToPage(vend), amount, found, start);
      }
      if start == 0 { return false, 0, []; }
      if FIXED !in flags { LowestIs(s0.ram, root, SearchStart(EXEC in flags), CeilToPage(vend), amount, start); }
      ghost var s := machine.Now();
      ok, frames := AllocPages(start, amount, PageFlags(flags, {0}));
      if !ok { return; }
      assert Stray(PageFlags(flags, {0}), frames) == Stray(flags, frames);
      AllocAfterGrowth(s0, s, machine.Now(), root, start, frames, PageFlags(flags, {0}));
      AllocLoses(s0, machine.Now(), root, start, frames, flags, PageFlags(flags, {0}));
      FreshFlags(s0, machine.Now(), root, start, frames, PageFlags(flags, {0}));
    }

    /** The loop of map over `amount` pages. */
    method MapPages(start: nat, amount: nat, target: nat, arbitrary: bool, flags: set<nat>) returns (ok: bool)
      requires Valid() && start + amount <= USER_PAGES && NOPHYS in flags
      modifies machine, machine.phys, machine.phys.piece, machine.phys.piece.bitmap
      ensures !ok ==> machine.Full()
      ensures ok ==> Valid() && Mapped(old(machine.Now()), machine.Now(), root, start, amount, target, arbitrary, flags)
    {
      hide Good, Outside, Flat, Batch, Updated;
      ghost var s0 := machine.Now();
      BatchNone(s0, root, start);
      var i := 0;
      while i < amount
        invariant i <= amount && Valid() && Mapped(s0, machine.Now(), root, start, i, target, arbitrary, flags)
      {
        ghost var s := machine.Now();
        ok := Assign(start + i, MapFrame(target, arbitrary, i), flags);
        if !ok { return; }
        MappedStep(s0, s, machine.Now(), root, start, i, target, arbitrary, flags);
        i := i + 1;
      }
      ok := true;
    }

    /** How many pages map takes for the range. */
    static function MapCount(bytes: nat, paddr: nat): (n: nat)
      ensures n == CeilToPage(bytes) + if paddr % 4096 > 0 then 1 else 0
      ensures paddr % 4096 + bytes <= 4096 * n
    {
      CeilToPage(bytes) + if paddr % 4096 > 0 then 1 else 0
    }

    /** The range is mapped at page `start`: where its addresses lead, and its flags bit by bit. */
    method MapRange(start: nat, n: nat, bytes: nat, paddr: nat, flags: set<nat>) returns (ok: bool)
      requires Valid() && n == MapCount(bytes, paddr) && start + n <= USER_PAGES
      modifies machine, machine.phys, machine.phys.piece, machine.phys.piece.bitmap
      ensures !ok ==> machine.Full()
      ensures ok ==> Valid() && Mapped(old(machine.Now()), machine.Now(), root, start, n, paddr / 4096,
                                       ARBITRARY in flags, MapFlags(flags))
      ensures ok ==> FramesAre(machine.ram, root, start, n, paddr, ARBITRARY in flags)
      ensures ok && ARBITRARY !in flags ==> LeadsTo(machine.ram, root, 4096 * start + paddr % 4096, bytes, paddr)
      ensures ok ==> MapFlagsAre(machine.ram, root, start, n, flags)
    {
      hide FramesAre, LeadsTo, MapFlagsAre, Good, Flat, Outside, Mapped, Physical, MapFlags, Pagemap.MapCount;
      ghost var s := machine.Now();
      ok := MapPages(start, n, paddr / 4096, ARBITRARY in flags, MapFlags(flags));
      if ok { MapEntries(s, machine.Now(), root, start, n, paddr, bytes, flags); }
    }

    /**
     Maps the physical range of `bytes` bytes from `paddr`, which stays the property of somebody
     else. A range that starts inside a page takes one page more than was searched for. Runs that
     would leave the user half are not modelled (`ok` is false).
     */
    method Map(bytes: nat, paddr: nat, flags: set<nat>, source: nat) returns (ok: bool, start: nat, offset: nat)
      requires Valid()
      modifies machine, machine.phys, machine.phys.piece, machine.phys.piece.bitmap
      ensures ok ==> Valid() && offset == paddr % 4096
      ensures FIXED in flags ==> start == source
      ensures bytes > 0 && FIXED !in flags && (ok || !machine.Full()) ==>
                SearchGives(old(machine.ram), root, SearchStart(false), CeilToPage(vend), CeilToPage(bytes), start)
      ensures !ok ==> machine.Full() || start + CeilToPage(bytes) + 1 > USER_PAGES
      ensures var n := MapCount(bytes, paddr);
              ok ==> start + n <= USER_PAGES
                     && Mapped(old(machine.Now()), machine.Now(), root, start, n, paddr / 4096, ARBITRARY in flags,
                               MapFlags(flags))
      ensures ok && FIXED !in flags && start > 0 && paddr % 4096 == 0 ==>
                Outside(machine.Now(), root) == old(Outside(machine.Now(), root))
      ensures ok && FIXED !in flags && start > 0 && paddr % 4096 > 0 ==>
                var last := start + CeilToPage(bytes);
                last < USER_PAGES
                && Outside(machine.Now(), root)
                   == old(Outside(machine.Now(), root) + Claimed(4, Flat(machine.ram, root)[last]))
      ensures ok ==> FramesAre(machine.ram, root, start, MapCount(bytes, paddr), paddr, ARBITRARY in flags)
      ensures ok && ARBITRARY !in flags ==> LeadsTo(machine.ram, root, 4096 * start + offset, bytes, paddr)
      ensures ok ==> MapFlagsAre(machine.ram, root, start, MapCount(bytes, paddr), flags)
    {
      hide FramesAre, LeadsTo, MapFlagsAre;
      hide Good, Flat, Grown, LowestRun, Outside, Mapped, OwnedIn, Physical, MapFlags;
      hide Pagemap.SearchStart, Pagemap.MapCount, CeilToPage, Claims;
      var amount := CeilToPage(bytes);
      offset := 0;
      ghost var s0 := machine.Now();
      if FIXED in flags {
        start := source;
        GrownRefl(s0, root);
      } else {
        var found;
        ok, found, start := FindContiguous(amount, false);
        if !ok { return; }
        if amount > 0 {
          SameLowestRun(s0, machine.Now(), root, SearchStart(false), CeilToPage(vend), amount, found, start);
        }
        if found { RunOwnsNothing(s0.ram, root, SearchStart(false), CeilToPage(vend), amount, start); }
      }
      if paddr % 4096 > 0 { amount, offset := amount + 1, paddr % 4096; }
      if start + amount > USER_PAGES { return false, start, offset; }
      ghost var s := machine.Now();
      ok := MapRange(start, amount, bytes, paddr, flags);
      if !ok { return; }
      MapAfterGrowth(s0, s, machine.Now(), root, start, amount, paddr / 4096, ARBITRARY in flags, MapFlags(flags));
    }

    /** One page of free: fills the frame it owns with a pattern, clears the entry, returns the frame or 0. */
    method ClearPage(p: nat) returns (ok: bool, frame: nat)
      requires Valid() && vstart <= 4096 * p <= vend
      modifies machine, machine.phys, machine.phys.piece, machine.phys.piece.bitmap
      ensures !ok ==> machine.Full()
      ensures ok ==> Valid() && Cleared(old(machine.Now()), machine.Now(), root, p)
      ensures ok ==> Claimed(4, Flat(old(machine.ram), root)[p]) == if frame == 0 then {} else {frame}
      ensures ok && frame != 0 && frame != 0xAA0_0000_0000 ==>
                frame < |machine.ram| && Scrubbed(machine.ram[frame])
    {
      hide Good, Outside, Flat, Updated, Cleared, Pattern, Scrubbed;
      ghost var s := machine.Now();
      var raw := RawOf(p);
      if raw != NIL && raw.frame != 0xAA0_0000_0000 && NOPHYS !in raw.flags {
        LeafNoTable(s, root, p);
        machine.ram := machine.ram[raw.frame := Pattern()];
        Scrub(s, machine.Now(), root, p, Pattern());
      }
      ghost var s' := machine.Now();
      ok, frame := Unassign(p);
      if !ok { return; }
      ClearSteps(s, s', machine.Now(), root, p);
      if frame != 0 {
        assert frame in Claimed(4, Flat(s.ram, root)[p]);
        ClearKeepsFrame(s', machine.Now(), root, p);
      }
      PatternWords();
    }

    /** free_phys: gives the frames in the buffer back to the frame allocator. */
    method Flush(buff: array<nat>, n: nat, ghost s0: Store, ghost p: nat, ghost done: nat)
      requires Valid() && n <= buff.Length && p + done <= USER_PAGES
      requires Freeing(s0, machine.Now(), root, p, done, buff[..n])
      modifies machine`taken, machine.phys, machine.phys.piece, machine.phys.piece.bitmap
      ensures Valid() && Freeing(s0, machine.Now(), root, p, done, [])
    {
      hide Freeing, Good;
      ghost var frames := buff[..n];
      for i := 0 to n
        invariant machine.Valid() && buff[..n] == frames
        invariant Freeing(s0, machine.Now(), root, p, done, frames[i..])
      {
        ghost var s := machine.Now();
        PendingTaken(s0, s, root, p, done, frames[i..]);
        machine.FreeFrame(buff[i]);
        Release(s0, s, machine.Now(), root, p, done, frames[i..]);
      }
      PendingTaken(s0, machine.Now(), root, p, done, frames[n..]);
    }

    /**
     Clears the entries of `bytes` bytes from page `start`. Every frame these pages owned goes back
     to the frame allocator, once, in the order of the pages, at most 256 at a time.
     */
    method Free(start: nat, bytes: nat) returns (ok: bool, ghost freed: seq<nat>)
      requires Valid()
      requires bytes > 0 ==> vstart <= 4096 * start && 4096 * (start + CeilToPage(bytes) - 1) <= vend
      modifies machine, machine.phys, machine.phys.piece, machine.phys.piece.bitmap
      ensures !ok ==> machine.Full()
      ensures ok ==> Valid()
      ensures ok && bytes > 0 ==>
                && start + CeilToPage(bytes) <= USER_PAGES
                && freed == OwnedSeq(old(Flat(machine.ram, root)), start, CeilToPage(bytes))
                && Freeing(old(machine.Now()), machine.Now(), root, start, CeilToPage(bytes), [])
    {
      hide Good, Outside, Flat, Cleared, Freeing, Scrubbed, OwnedSeq, CeilToPage;
      var amount := CeilToPage(bytes);
      ghost var s0, e := machine.Now(), Flat(machine.ram, root);
      freed := [];
      if amount == 0 { return true, freed; }
      var buff := new nat[256];
      var n, i := 0, 0;
      FreeingNone(s0, root, start);
      assert buff[..0] == [];
      while i < amount
        invariant i <= amount && n < 256 && Valid()
        invariant freed + buff[..n] == OwnedSeq(e, start, i)
        invariant Freeing(s0, machine.Now(), root, start, i, buff[..n])
      {
        ghost var s, pending := machine.Now(), buff[..n];
        var f;
        ok, f := ClearPage(start + i);
        if !ok { return; }
        FreedStep(s0, s, machine.Now(), root, start, i, pending, f);
        i := i + 1;
        if f == 0 { continue; }
        buff[n] := f;
        n := n + 1;
        assert buff[..n] == pending + [f];
        if n == 256 {
          Flush(buff, n, s0, start, i);
          freed := freed + buff[..n];
          n := 0;
          assert buff[..0] == [];
        }
      }
      Flush(buff, n, s0, start, i);
      freed := freed + buff[..n];
      ok := true;
    }

    /** Entry i of page table t: copied into the child's table t', with a frame of its own if it owns one. */
    method CopyPage(child: Pagemap, t: nat, t': nat, i: nat, ghost s0: Store, ghost b: nat) returns (ok: bool)
      requires child.machine == machine && child.Valid() && Good(s0, root) && 512 * b + i < USER_PAGES && i < 512
      requires Filling(s0, machine.Now(), root, child.root, b, i, t')
      requires t == TableAt(s0.ram, root, 512 * b) && 0 < t
      modifies machine, machine.phys, machine.phys.piece, machine.phys.piece.bitmap
      ensures !ok ==> machine.Full()
      ensures ok ==> child.Valid() && Filling(s0, machine.Now(), root, child.root, b, i + 1, t')
    {
      hide Good, Flat, Filling, TableAt;
      ghost var s, c := machine.Now(), child.root;
      ForkSource(s0, s, root, c, b, i, t');
      ok := true;
      var e := machine.ram[t][i];
      if e == NIL {
        FillSkip(s0, s, root, c, b, i, t');
        return;
      }
      if NOPHYS in e.flags {
        machine.ram := WithWord(machine.ram, t', i, e);
        ForkSame(s0, s, machine.Now(), root, c, b, i, t', e);
        return;
      }
      var f;
      ok, f := machine.AllocFrame();
      if !ok { return; }
      machine.ram := machine.ram[f := machine.ram[e.frame]];
      ghost var s' := machine.Now();
      machine.ram := WithWord(machine.ram, t', i, Word(f, e.flags));
      ForkCopy(s0, s, s', machine.Now(), root, c, b, i, t', e, f);
    }

    /** Copies page table t, which holds the 512 pages from v, into a table of the child. */
    method CopyTable(child: Pagemap, t: nat, v: nat, ghost s0: Store, ghost b: nat) returns (ok: bool)
      requires child.machine == machine && child.Valid() && v == 512 * b < USER_PAGES && Good(s0, root)
      requires Forked(s0, machine.Now(), root, child.root, v)
      requires t == TableAt(s0.ram, root, v) && 0 < t
      modifies machine, machine.phys, machine.phys.piece, machine.phys.piece.bitmap
      ensures !ok ==> machine.Full()
      ensures ok ==> child.Valid() && v + 512 <= USER_PAGES
      ensures ok ==> Forked(s0, machine.Now(), root, child.root, v + 512)
    {
      hide Good, Flat, Forked, Grown, Live, TableAt;
      ghost var s := machine.Now();
      var t';
      ok, t' := child.FindTableEnsure(v);
      if !ok { return; }
      ForkGrown(s0, s, machine.Now(), root, child.root, v);
      ForkTable(s0, machine.Now(), root, child.root, b);
      ghost var m := machine.ram;
      machine.ram := machine.ram[t' := Zeroes()];
      assert machine.ram == m;
      for i := 0 to 512
        invariant child.Valid() && Filling(s0, machine.Now(), root, child.root, b, i, t')
      {
        ok := CopyPage(child, t, t', i, s0, b);
        if !ok { return; }
      }
    }

    /** One round of fork: passes over a missing region or copies a page table. */
    method CopyNext(child: Pagemap, v: nat, ghost s0: Store, ghost visited: seq<nat>)
      returns (ok: bool, v': nat, ghost visited': seq<nat>)
      requires child.machine == machine && child.Valid() && v < USER_PAGES && Good(s0, root)
      requires vstart < vend < 4096 * USER_PAGES && Walked(s0, machine.Now(), root, child.root, v, visited)
      modifies machine, machine.phys, machine.phys.piece, machine.phys.piece.bitmap
      ensures !ok ==> machine.Full()
      ensures ok ==> child.Valid() && v < v' <= USER_PAGES
      ensures ok ==> Walked(s0, machine.Now(), root, child.root, v', visited')
    {
      hide Good, Outside, Flat, Forked, Live, AtStart, Visited, TableAt;
      ghost var s := machine.Now();
      ok, v', visited' := true, v, visited;
      ForkedParent(s0, s, root, child.root, v);
      var t, skip := FindTable(v);
      if t == 0 {
        ghost var d :| 1 <= d <= 3 && skip == Span(d) && Slot(s.ram, root, NodeOf(d, v)) == NIL
                       && Live(s.ram, root, NodeOf(d - 1, v));
        WalkAboveLive(s0.ram, s.ram, root, v, d);
        WalkSkip(s0, s, root, child.root, v, d, visited);
        v' := v + skip;
        return;
      }
      ghost var b := WalkBlock(s0.ram, s.ram, root, v);
      ok := CopyTable(child, t, v, s0, b);
      if !ok { return; }
      WalkTable(s0.ram, root, b, visited);
      v', visited' := v + 512, visited + [b];
    }

    /**
     Copies the address space into a new pagemap, up to the first page behind the last address
     (or the end of the table it lies in). `visited` are the numbers of the page tables it copied.
     */
    method Fork(kernelRoot: nat) returns (ok: bool, child: Pagemap?, ghost stop: nat, ghost visited: seq<nat>)
      requires Valid() && kernelRoot < |machine.ram|
      modifies machine, machine.phys, machine.phys.piece, machine.phys.piece.bitmap
      ensures !ok ==> machine.Full()
      ensures ok ==> Valid() && child != null && child.machine == machine && child.Valid()
      ensures ok ==> child.vstart == vstart && child.vend == vend
      ensures ok ==> vend <= 4096 * stop && stop <= USER_PAGES
      ensures ok ==> Forked(old(machine.Now()), machine.Now(), root, child.root, stop)
      ensures ok ==> Flat(machine.ram, root) == old(Flat(machine.ram, root))
      ensures ok ==> Visited(old(machine.ram), root, visited, stop)
    {
      hide Good, Outside, Flat, Forked, Live, AtStart, Visited;
      ghost var s0 := machine.Now();
      stop, visited := 0, [];
      ok, child := Create(machine, vstart, vend, kernelRoot);
      if !ok { return; }
      WalkNone(s0, machine.Now(), root, child.root);
      var v: nat := 0;
      while 4096 * v < vend
        invariant machine.Valid() && child != null && child.machine == machine && child.Valid()
        invariant child.vstart == vstart && child.vend == vend && v <= USER_PAGES
        invariant Walked(s0, machine.Now(), root, child.root, v, visited)
        decreases vend - 4096 * v
      {
        ok, v, visited := CopyNext(child, v, s0, visited);
        if !ok { return; }
      }
      stop := v;
      ForkedParent(s0, machine.Now(), root, child.root, v);
      ok := true;
    }
  }

  lemma LowestIs(m: Ram, root: nat, first: nat, last: nat, amount: nat, start: nat)
    requires LowestRun(m, root, first, last, amount, true, start)
    ensures first <= start && UnmappedRun(m, root, start, amount)
    ensures forall p :: first <= p < start ==> !UnmappedRun(m, root, p, amount)
  {
  }

  /** The entries of new pages, bit by bit. */
  lemma FreshFlags(s: Store, s': Store, root: nat, p: nat, frames: seq<nat>, flags: set<nat>)
    requires p + |frames| <= USER_PAGES && FreshPages(s, s', root, p, frames, flags)
    ensures forall q :: p <= q < p + |frames| ==> Flat(s'.ram, root)[q].flags == flags
  {
    hide Flat;
    forall q | p <= q < p + |frames| ensures Flat(s'.ram, root)[q].flags == flags {
      assert Flat(s'.ram, root)[p + (q - p)] == Word(frames[q - p], flags);
    }
  }

  /** The n pages from `start` on lead to consecutive frames from that of `paddr`, or all to the marker. */
  ghost predicate FramesAre(m: Ram, root: nat, start: nat, n: nat, paddr: nat, arbitrary: bool) {
    start + n <= USER_PAGES && forall q :: start <= q < start + n ==>
      Flat(m, root)[q].frame == if arbitrary then 0xAA0_0000_0000 else paddr / 4096 + (q - start)
  }

  /** Address first + x leads to paddr + x, for every x below `bytes`. */
  ghost predicate LeadsTo(m: Ram, root: nat, first: nat, bytes: nat, paddr: nat) {
    forall v :: first <= v < first + bytes ==>
      v / 4096 < USER_PAGES && Physical(m, root, v) == paddr + (v - first)
  }

  /** Their flags: the low 12 bits asked for, PAGE_NOPHYS, and PAGE_PRESENT exactly if not arbitrary. */
  ghost predicate MapFlagsAre(m: Ram, root: nat, start: nat, n: nat, flags: set<nat>) {
    start + n <= USER_PAGES && forall q, b: nat :: start <= q < start + n ==>
      (b in Flat(m, root)[q].flags <==>
        b < 12 && if b == 0 then ARBITRARY !in flags else b in flags || b == NOPHYS)
  }

  /** What the entries of a mapped range say: where its addresses lead, and their flags bit by bit. */
  lemma MapEntries(s: Store, s': Store, root: nat, start: nat, n: nat, paddr: nat, bytes: nat, flags: set<nat>)
    requires start + n <= USER_PAGES && CeilToPage(bytes) <= n && paddr % 4096 + bytes <= 4096 * n
    requires Mapped(s, s', root, start, n, paddr / 4096, ARBITRARY in flags, MapFlags(flags))
    ensures FramesAre(s'.ram, root, start, n, paddr, ARBITRARY in flags) && MapFlagsAre(s'.ram, root, start, n, flags)
    ensures ARBITRARY !in flags ==> LeadsTo(s'.ram, root, 4096 * start + paddr % 4096, bytes, paddr)
  {
    hide Flat, Batch, Physical;
    forall q | start <= q < start + n
      ensures Flat(s'.ram, root)[q] == Word(MapFrame(paddr / 4096, ARBITRARY in flags, q - start), MapFlags(flags))
    {
      var j := q - start;
      assert Flat(s'.ram, root)[start + j] == Word(MapFrame(paddr / 4096, ARBITRARY in flags, j), MapFlags(flags));
    }
    if ARBITRARY !in flags {
      var first := 4096 * start + paddr % 4096;
      forall v | first <= v < first + bytes
        ensures v / 4096 < USER_PAGES && Physical(s'.ram, root, v) == paddr + (v - first)
      {
        Translates(s'.ram, root, start, n, paddr, v);
      }
    }
  }

  /** Every word of the frame is 0x5A. */
  predicate Scrubbed(t: Table) {
    forall i :: 0 <= i < 512 ==> t[i] == Word(0, {1, 3, 4, 6})
  }

  lemma PatternWords()
    ensures Scrubbed(Pattern())
  {
  }

  function Pattern(): (t: Table) {
    seq(512, _ => Word(0, {1, 3, 4, 6}))
  }

  lemma TableInRam(m: Ram, root: nat, p: nat)
    requires ValidTree(m, root) && p < USER_PAGES
    ensures TableAt(m, root, p) < |m|
  {
    var n := NodeOf(3, p);
    if TableAt(m, root, p) > 0 {
      assert n.Child? && Slot(m, root, n) != NIL;
      assert Live(m, root, n);
    } else {
      assert Live(m, root, Root);
    }
  }

  method ScanFrom(m: Ram, root: nat, first: nat, last: nat, amount: nat) returns (found: bool, start: nat)
    requires ValidTree(m, root) && amount > 0 && first < last <= USER_PAGES && 0 < TableAt(m, root, first)
    ensures LowestRun(m, root, first, last, amount, found, start)
    ensures !found ==> start == 0
  {
    hide ValidTree, TableAt;
    forall b: nat | 512 * b < USER_PAGES ensures TableAt(m, root, 512 * b) < |m| {
      TableInRam(m, root, 512 * b);
    }
    InBlock(m, root, first / 512, first % 512);
    found, start := ScanPages(m, root, first / 512, first % 512, last, amount);
  }

  /**
   The scan of findContiguous over the memory m, with the table lookup as the function that
   Pagemap.FindTable computes. It starts at page `index` of page table number `block`. Missing
   tables are passed over 512 pages at a time.
   */
  method ScanPages(m: Ram, root: nat, block: nat, index: nat, last: nat, amount: nat)
    returns (found: bool, start: nat)
    requires amount > 0 && index < 512 && 512 * block + index < last <= USER_PAGES
    requires 0 < TableAt(m, root, 512 * block)
    requires forall b: nat :: 512 * b < USER_PAGES ==> TableAt(m, root, 512 * b) < |m|
    ensures LowestRun(m, root, 512 * block + index, last, amount, found, start)
    ensures !found ==> start == 0
  {
    var first := 512 * block + index;
    var index: nat, page: nat, combo: nat, tb: nat := index, first, 0, TableAt(m, root, 512 * block);
    ghost var b: nat := block;
    start := first;
    hide *;
    ScanStart(m, root, first, amount);
    while page < last
      invariant Scanned(m, root, first, start, combo, amount) && start + combo == page <= USER_PAGES
      invariant page == 512 * b + index && index <= 512 && 512 * b < USER_PAGES
      invariant index < 512 ==> tb == TableAt(m, root, 512 * b) && 0 < tb < |m|
      decreases last - page
    {
      if index >= 512 {
        index, b := 0, b + 1;
        tb := TableAt(m, root, page);
        if tb == 0 {
          ScanHole(m, root, first, last, start, combo, amount, b);
          page, index, combo := page + 512, 512, combo + 512;
          if combo >= amount { return true, start; }
          continue;
        }
      }
      ScanWord(m, root, first, last, start, combo, amount, b, index);
      index := index + 1;
      if m[tb][index - 1] != NIL {
        page := page + 1;
        start, combo := page, 0;
        continue;
      }
      combo := combo + 1;
      if combo >= amount { return true, start; }
      page := page + 1;
    }
    ScanEnd(m, root, first, last, start, combo, amount);
    return false, 0;
  }

  /** One step of the scan over a missing table. */
  lemma ScanHole(m: Ram, root: nat, first: nat, last: nat, start: nat, combo: nat, amount: nat, b: nat)
    requires Scanned(m, root, first, start, combo, amount) && start + combo == 512 * b < USER_PAGES
    requires TableAt(m, root, 512 * b) == 0
    ensures 512 * b + 512 <= USER_PAGES
    ensures if combo + 512 < amount then Scanned(m, root, first, start, combo + 512, amount)
            else LowestRun(m, root, first, last, amount, true, start)
  {
    hide Scanned, UnmappedRun, LowestRun, TableAt;
    MissingTable(m, root, b);
    ScanFree(m, root, first, last, start, combo, 512, amount);
  }

  /** One step of the scan over a word of a table. */
  lemma ScanWord(m: Ram, root: nat, first: nat, last: nat, start: nat, combo: nat, amount: nat, b: nat, index: nat)
    requires Scanned(m, root, first, start, combo, amount) && start + combo == 512 * b + index
    requires index < 512 && 512 * b < USER_PAGES && 0 < TableAt(m, root, 512 * b) < |m|
    ensures 512 * b + index < USER_PAGES
    ensures var w := m[TableAt(m, root, 512 * b)][index];
            if w != NIL then Scanned(m, root, first, start + combo + 1, 0, amount)
            else if combo + 1 < amount then Scanned(m, root, first, start, combo + 1, amount)
            else LowestRun(m, root, first, last, amount, true, start)
  {
    hide Scanned, UnmappedRun, LowestRun, TableAt;
    InBlock(m, root, b, index);
    var t := TableAt(m, root, 512 * b);
    assert Unmapped(m, root, start + combo) <==> m[t][index] == NIL;
    if m[t][index] != NIL {
      ScanMapped(m, root, first, start, combo, amount);
    } else {
      OneUnmapped(m, root, start + combo);
      ScanFree(m, root, first, last, start, combo, 1, amount);
    }
  }

  lemma OneUnmapped(m: Ram, root: nat, p: nat)
    requires Unmapped(m, root, p)
    ensures UnmappedRun(m, root, p, 1)
  {
  }

  /** A root with an empty user half is a tree with no other nodes. */
  lemma EmptyTree(s: Store, root: nat)
    requires 0 < root < |s.ram| && root in s.taken
    requires forall i :: 0 <= i < 256 ==> s.ram[root][i] == NIL
    ensures Good(s, root)
    ensures forall n :: Live(s.ram, root, n) ==> n == Root
    ensures forall p: nat :: p < USER_PAGES ==> Flat(s.ram, root)[p] == NIL
  {
    var m := s.ram;
    forall n | IsNode(n) && n.Child? ensures Slot(m, root, n) == NIL {
      EmptySlot(m, root, n);
    }
  }

  lemma {:induction false} EmptySlot(m: Ram, root: nat, n: Node)
    requires 0 < root < |m| && IsNode(n) && n.Child?
    requires forall i :: 0 <= i < 256 ==> m[root][i] == NIL
    ensures Slot(m, root, n) == NIL
  {
    if n.parent.Child? { EmptySlot(m, root, n.parent); }
  }
}
