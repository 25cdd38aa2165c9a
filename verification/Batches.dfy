/** Changes of the entries of many pages, one after the other. */
module Batches {
  import opened Basics
  import opened PageTable
  import opened TableSteps
  import opened Addresses
  import opened Entries

  /**
   The entry of page p became w and no other entry changed. The frame that the page owned and
   the frames `add` are taken but belong to no node.
   */
  ghost predicate Stepped(s: Store, s': Store, root: nat, p: nat, w: Word, add: set<nat>)
    requires p < USER_PAGES
  {
    match s
    case Store(m, taken) =>
      && Extends(s, s', root)
      && Good(s', root)
      && Flat(s'.ram, root) == Flat(m, root)[p := w]
      && Outside(s', root) == Outside(s, root) + Claimed(4, Flat(m, root)[p]) + add
  }

  /** The entries of the n pages from p changed, one step each. */
  ghost predicate Batch(s: Store, s': Store, root: nat, p: nat, n: nat, add: set<nat>)
    requires p + n <= USER_PAGES
  {
    match s
    case Store(m, taken) =>
      && Extends(s, s', root)
      && Good(s', root)
      && SameBut(Flat(m, root), Flat(s'.ram, root), p, n)
      && Outside(s', root) == Outside(s, root) + OwnedIn(Flat(m, root), p, n) + add
  }

  lemma BatchNone(s: Store, root: nat, p: nat)
    requires Good(s, root) && p <= USER_PAGES
    ensures Batch(s, s, root, p, 0, {})
  {
    GrownRefl(s, root);
  }

  lemma BatchStep(s: Store, s': Store, s'': Store, root: nat, p: nat, n: nat, w: Word, add: set<nat>, add': set<nat>)
    requires p + n < USER_PAGES
    requires Batch(s, s', root, p, n, add) && Stepped(s', s'', root, p + n, w, add')
    ensures Batch(s, s'', root, p, n + 1, add + add')
  {
    ExtendsTrans(s, s', s'', root);
    FlatStep(Flat(s.ram, root), Flat(s'.ram, root), p, n, w, Outside(s, root), add, add');
  }

  /** One more page, on flat maps. */
  lemma FlatStep(e: FlatMap, e': FlatMap, p: nat, n: nat, w: Word, out: set<nat>, add: set<nat>, add': set<nat>)
    requires SameBut(e, e', p, n) && forall q :: p <= q <= p + n ==> q in e
    ensures SameBut(e, e'[p + n := w], p, n + 1)
    ensures out + OwnedIn(e, p, n) + add + Claimed(4, e'[p + n]) + add' == out + OwnedIn(e, p, n + 1) + (add + add')
  {
    assert OwnedIn(e, p, n + 1) == OwnedIn(e, p, n) + Claimed(4, e'[p + n]);
  }

  /** The search for a free run may have added tables before. */
  lemma BatchAfterGrowth(s: Store, s': Store, s'': Store, root: nat, p: nat, n: nat, add: set<nat>)
    requires p + n <= USER_PAGES && Grown(s, s', root) && Batch(s', s'', root, p, n, add)
    ensures Batch(s, s'', root, p, n, add)
  {
    SameFlat(s.ram, s'.ram, root);
    ExtendsTrans(s, s', s'', root);
  }

  /** Writing an entry that claims no frame. */
  lemma UpdateSteps(s: Store, s': Store, root: nat, p: nat, w: Word)
    requires p < USER_PAGES && Updated(s, s', root, p, w) && !Claims(4, w)
    ensures Stepped(s, s', root, p, w, {})
  {
  }

  /** Taking a frame and clearing it leaves the tree alone. */
  lemma TakeFrame(s: Store, s': Store, root: nat, f: nat, t: Table)
    requires Good(s, root) && f !in s.taken && f < |s.ram|
    requires s' == Store(s.ram[f := t], s.taken + {f})
    ensures Good(s', root) && SameSlots(s.ram, s'.ram, root) && !Owns(s'.ram, root, f)
    ensures Outside(s', root) == Outside(s, root) + {f}
    ensures Extends(s, s', root)
  {
    Untouched(s, s', root);
    SameNodes(s.ram, s'.ram, root);
  }

  /** Frames mapped with PAGE_NOPHYS belong to nobody. */
  ghost function Stray(flags: set<nat>, frames: seq<nat>): (r: set<nat>) {
    if NOPHYS in flags then set f | f in frames else {}
  }

  /** One page of alloc or fork: a frame is taken, filled and assigned. */
  lemma AllocSteps(s: Store, s': Store, s'': Store, root: nat, p: nat, f: nat, flags: set<nat>, t: Table)
    requires Good(s, root) && p < USER_PAGES && f !in s.taken && 0 < f < |s.ram|
    requires s' == Store(s.ram[f := t], s.taken + {f})
    requires Updated(s', s'', root, p, Word(f, flags))
    ensures Stepped(s, s'', root, p, Word(f, flags), Stray(flags, [f]))
    ensures s''.ram[f] == t && f in s''.taken
  {
    TakeFrame(s, s', root, f, t);
    SameFlat(s.ram, s'.ram, root);
    ExtendsTrans(s, s', s'', root);
    assert !IsTable(s'.ram, root, f);
    OwnedFrame(s, root, p);
    NotOwned(s, root, p, f);
  }

  lemma NotOwned(s: Store, root: nat, p: nat, f: nat)
    requires Good(s, root) && p < USER_PAGES && f !in s.taken
    ensures f !in Claimed(4, Flat(s.ram, root)[p])
  {
    if Claims(4, Entry(s.ram, root, p)) { assert Live(s.ram, root, NodeOf(4, p)); }
  }

  /** The frame of an owning page is no table. */
  lemma LeafNoTable(s: Store, root: nat, p: nat)
    requires Good(s, root) && p < USER_PAGES && Claims(4, Flat(s.ram, root)[p])
    ensures !IsTable(s.ram, root, Flat(s.ram, root)[p].frame)
    ensures Flat(s.ram, root)[p].frame in s.taken && 0 < Flat(s.ram, root)[p].frame < |s.ram|
  {
    assert Live(s.ram, root, NodeOf(4, p)) && Tab(s.ram, root, NodeOf(4, p)) == Flat(s.ram, root)[p].frame;
  }

  /** The n pages from p map the frames `frames`: different ones, not taken before, and zero. */
  ghost predicate FreshPages(s: Store, s': Store, root: nat, p: nat, frames: seq<nat>, flags: set<nat>)
    requires p + |frames| <= USER_PAGES
  {
    Distinct(frames) && forall j :: 0 <= j < |frames| ==>
      && Flat(s'.ram, root)[p + j] == Word(frames[j], flags)
      && frames[j] !in s.taken && frames[j] in s'.taken && 0 < frames[j] < |s'.ram|
      && s'.ram[frames[j]] == Zeroes()
  }

  /** A frame without owner is no table. */
  lemma OutsideNoTable(s: Store, root: nat, f: nat)
    requires f in Outside(s, root)
    ensures !IsTable(s.ram, root, f)
  {
  }

  lemma FreshPagesStep(s: Store, s': Store, s'': Store, root: nat, p: nat, frames: seq<nat>, flags: set<nat>, f: nat,
                       add: set<nat>)
    requires p + |frames| < USER_PAGES && Good(s', root) && s.taken <= s'.taken
    requires FreshPages(s, s', root, p, frames, flags)
    requires Stepped(s', s'', root, p + |frames|, Word(f, flags), add)
    requires f !in s'.taken && f in s''.taken && 0 < f < |s'.ram| && s''.ram[f] == Zeroes()
    requires Stray(flags, frames) <= Outside(s', root)
    ensures FreshPages(s, s'', root, p, frames + [f], flags)
  {
    hide Good, TablesGrow, Live, Owns, Outside, Flat;
    var frames' := frames + [f];
    forall j | 0 <= j < |frames'|
      ensures && Flat(s''.ram, root)[p + j] == Word(frames'[j], flags)
              && frames'[j] !in s.taken && frames'[j] in s''.taken && 0 < frames'[j] < |s''.ram|
              && s''.ram[frames'[j]] == Zeroes()
    {
      if j < |frames| {
        var e := Flat(s'.ram, root)[p + j];
        assert Flat(s''.ram, root)[p + j] == e == Word(frames[j], flags);
        if NOPHYS !in flags {
          assert Claims(4, e);
          LeafNoTable(s', root, p + j);
        } else {
          assert frames[j] in Stray(flags, frames);
          OutsideNoTable(s', root, frames[j]);
        }
      }
    }
  }

  /** What alloc has done after |frames| pages. */
  ghost predicate Allocated(s: Store, s': Store, root: nat, p: nat, frames: seq<nat>, flags: set<nat>)
    requires p + |frames| <= USER_PAGES
  {
    match s
    case Store(_, _) =>
      && Batch(s, s', root, p, |frames|, Stray(flags, frames))
      && FreshPages(s, s', root, p, frames, flags)
  }

  lemma AllocatedNone(s: Store, root: nat, p: nat, flags: set<nat>)
    requires Good(s, root) && p <= USER_PAGES
    ensures Allocated(s, s, root, p, [], flags)
  {
    BatchNone(s, root, p);
    assert Stray(flags, []) == {};
  }

  lemma AllocatedStep(s: Store, s': Store, s'': Store, root: nat, p: nat, frames: seq<nat>, flags: set<nat>, f: nat)
    requires p + |frames| < USER_PAGES && Allocated(s, s', root, p, frames, flags)
    requires Stepped(s', s'', root, p + |frames|, Word(f, flags), Stray(flags, [f]))
    requires f !in s'.taken && f in s''.taken && 0 < f < |s'.ram| && s''.ram[f] == Zeroes()
    ensures Allocated(s, s'', root, p, frames + [f], flags)
  {
    hide Good, FreshPages, Outside, Flat, OwnedIn, SameBut, KeepsOthers, TablesGrow, Stepped;
    assert FreshPages(s, s'', root, p, frames + [f], flags) by {
      FreshPagesStep(s, s', s'', root, p, frames, flags, f, Stray(flags, [f]));
    }
    assert Batch(s, s'', root, p, |frames + [f]|, Stray(flags, frames + [f])) by {
      BatchStep(s, s', s'', root, p, |frames|, Word(f, flags), Stray(flags, frames), Stray(flags, [f]));
      assert Stray(flags, frames + [f]) == Stray(flags, frames) + Stray(flags, [f]);
    }
  }

  /** The search for a free run may have added tables before. */
  lemma AllocAfterGrowth(s: Store, s': Store, s'': Store, root: nat, p: nat, frames: seq<nat>, flags: set<nat>)
    requires p + |frames| <= USER_PAGES && Grown(s, s', root) && Allocated(s', s'', root, p, frames, flags)
    ensures Allocated(s, s'', root, p, frames, flags)
  {
    hide Good, Outside, Flat, OwnedIn, SameBut, KeepsOthers, TablesGrow;
    BatchAfterGrowth(s, s', s'', root, p, |frames|, Stray(flags, frames));
  }

  /** A batch leaves no frame behind exactly when it strayed none and none of its pages owned one. */
  lemma NothingLost(s: Store, s': Store, root: nat, p: nat, n: nat, stray: set<nat>)
    requires p + n <= USER_PAGES && Good(s, root) && Batch(s, s', root, p, n, stray) && stray !! s.taken
    ensures Outside(s', root) == Outside(s, root) <==>
              stray == {} && forall q :: p <= q < p + n ==> !Claims(4, Flat(s.ram, root)[q])
  {
    hide Extends, Good, SameBut;
    var e := Flat(s.ram, root);
    OwnedNone(e, p, n);
    assert stray != {} ==> Outside(s', root) != Outside(s, root) by {
      if f :| f in stray { assert f in Outside(s', root) && f !in Outside(s, root); }
    }
    if !(forall q :: p <= q < p + n ==> !Claims(4, e[q])) {
      var q :| p <= q < p + n && Claims(4, e[q]);
      OwnedSome(e, p, n, q);
      OwnedOutside(s, root, q);
    }
  }

  /**
   An alloc leaves no frame behind exactly when it has no PAGE_NOPHYS and no page of the range owned one:
   with PAGE_NOPHYS every frame it takes belongs to nobody.
   */
  lemma AllocLoses(s: Store, s': Store, root: nat, p: nat, frames: seq<nat>, flags: set<nat>, pageFlags: set<nat>)
    requires p + |frames| <= USER_PAGES && Good(s, root) && frames != []
    requires Batch(s, s', root, p, |frames|, Stray(flags, frames)) && FreshPages(s, s', root, p, frames, pageFlags)
    ensures Outside(s', root) == Outside(s, root) <==>
              NOPHYS !in flags && forall q :: p <= q < p + |frames| ==> !Claims(4, Flat(s.ram, root)[q])
    ensures NOPHYS in flags ==> forall f :: f in frames ==> f in Outside(s', root) && f !in Outside(s, root)
  {
    hide Good, Flat, Extends, SameBut, OwnedIn;
    NothingLost(s, s', root, p, |frames|, Stray(flags, frames));
    if NOPHYS in flags { assert frames[0] in Stray(flags, frames); }
  }

  lemma {:induction false} OwnedNone(e: FlatMap, p: nat, n: nat)
    requires forall q :: p <= q < p + n ==> q in e
    ensures (forall q :: p <= q < p + n ==> !Claims(4, e[q])) ==> OwnedIn(e, p, n) == {}
  {
    if n > 0 { OwnedNone(e, p, n - 1); }
  }

  lemma {:induction false} OwnedSome(e: FlatMap, p: nat, n: nat, q: nat)
    requires (forall q :: p <= q < p + n ==> q in e) && p <= q < p + n && Claims(4, e[q])
    ensures e[q].frame in OwnedIn(e, p, n)
  {
    if q < p + n - 1 { OwnedSome(e, p, n - 1, q); }
  }

  /** An owned frame does not count as left behind. */
  lemma OwnedOutside(s: Store, root: nat, p: nat)
    requires Good(s, root) && p < USER_PAGES && Claims(4, Flat(s.ram, root)[p])
    ensures Flat(s.ram, root)[p].frame !in Outside(s, root)
    ensures Flat(s.ram, root)[p].frame in s.taken
  {
    var N := NodeOf(4, p);
    assert Live(s.ram, root, N) && Tab(s.ram, root, N) == Flat(s.ram, root)[p].frame;
  }

  /** A run of unmapped pages owns nothing; one page more owns what that page owns. */
  lemma UnmappedOwnsNothing(m: Ram, root: nat, p: nat, n: nat)
    requires p + n <= USER_PAGES && UnmappedRun(m, root, p, n)
    ensures OwnedIn(Flat(m, root), p, n) == {}
    ensures p + n < USER_PAGES ==> OwnedIn(Flat(m, root), p, n + 1) == Claimed(4, Flat(m, root)[p + n])
  {
    forall q | p <= q < p + n ensures Flat(m, root)[q] == NIL {
      assert Unmapped(m, root, q);
    }
    OwnedNone(Flat(m, root), p, n);
  }

  /** The frame that map puts into its j-th page; without a target the pages get a marker. */
  function MapFrame(target: nat, arbitrary: bool, j: nat): (f: nat) {
    if arbitrary then 0xAA0_0000_0000 else target + j
  }

  /** What map has done after n pages. */
  ghost predicate Mapped(s: Store, s': Store, root: nat, p: nat, n: nat, target: nat, arbitrary: bool, flags: set<nat>)
    requires p + n <= USER_PAGES
  {
    && Batch(s, s', root, p, n, {})
    && forall j :: 0 <= j < n ==> Flat(s'.ram, root)[p + j] == Word(MapFrame(target, arbitrary, j), flags)
  }

  lemma MappedStep(s: Store, s': Store, s'': Store, root: nat, p: nat, n: nat, target: nat, arbitrary: bool,
                   flags: set<nat>)
    requires p + n < USER_PAGES && NOPHYS in flags && Mapped(s, s', root, p, n, target, arbitrary, flags)
    requires Updated(s', s'', root, p + n, Word(MapFrame(target, arbitrary, n), flags))
    ensures Mapped(s, s'', root, p, n + 1, target, arbitrary, flags)
  {
    hide Good, Extends, Outside, Flat, SameBut;
    var w := Word(MapFrame(target, arbitrary, n), flags);
    UpdateSteps(s', s'', root, p + n, w);
    var none: set<nat> := {};
    BatchStep(s, s', s'', root, p, n, w, none, none);
    assert none + none == none;
  }

  lemma MapAfterGrowth(s: Store, s': Store, s'': Store, root: nat, p: nat, n: nat, target: nat, arbitrary: bool,
                       flags: set<nat>)
    requires p + n <= USER_PAGES && Grown(s, s', root) && Mapped(s', s'', root, p, n, target, arbitrary, flags)
    ensures Mapped(s, s'', root, p, n, target, arbitrary, flags)
    ensures Outside(s'', root) == Outside(s, root) + OwnedIn(Flat(s.ram, root), p, n)
  {
    hide Good, Outside, Flat, OwnedIn, SameBut, Extends, Grown;
    BatchAfterGrowth(s, s', s'', root, p, n, {});
  }

  /** The physical address that the hardware reaches at address v. */
  ghost function Physical(m: Ram, root: nat, v: nat): nat
    requires v / 4096 < USER_PAGES
  {
    4096 * Flat(m, root)[v / 4096].frame + v % 4096
  }

  /** In a range of pages with consecutive frames addresses lead as far into the frames as into the range. */
  lemma Translates(m: Ram, root: nat, start: nat, n: nat, paddr: nat, v: nat)
    requires start + n <= USER_PAGES && 4096 * start + paddr % 4096 <= v < 4096 * (start + n)
    requires forall q :: start <= q < start + n ==> Flat(m, root)[q].frame == paddr / 4096 + (q - start)
    ensures v / 4096 < USER_PAGES && Physical(m, root, v) == paddr + (v - 4096 * start - paddr % 4096)
  {
    hide Flat;
    assert start <= v / 4096 < start + n;
    assert Flat(m, root)[v / 4096].frame == paddr / 4096 + (v / 4096 - start);
  }

  lemma RunOwnsNothing(m: Ram, root: nat, first: nat, last: nat, n: nat, p: nat)
    requires LowestRun(m, root, first, last, n, true, p)
    ensures OwnedIn(Flat(m, root), p, n) == {}
    ensures p + n < USER_PAGES ==> OwnedIn(Flat(m, root), p, n + 1) == Claimed(4, Flat(m, root)[p + n])
  {
    UnmappedOwnsNothing(m, root, p, n);
  }
}
