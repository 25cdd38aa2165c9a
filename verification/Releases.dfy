/** Clearing the entries of a range of pages and giving their frames back. */
module Releases {
  import opened Basics
  import opened PageTable
  import opened TableSteps
  import opened Addresses
  import opened Entries
  import opened Batches

  /** The frames that the n pages from p own, in the order of the pages. */
  ghost function OwnedSeq(e: FlatMap, p: nat, n: nat): (r: seq<nat>)
    requires forall q :: p <= q < p + n ==> q in e
  {
    if n == 0 then []
    else OwnedSeq(e, p, n - 1) + if Claims(4, e[p + n - 1]) then [e[p + n - 1].frame] else []
  }

  /** Frames that belong to others or to pages outside the range keep their contents. */
  ghost predicate KeepsFrames(s: Store, s': Store, root: nat, p: nat, n: nat) {
    && |s'.ram| == |s.ram|
    && (forall f: nat :: f in Outside(s, root) && f < |s.ram| ==> s'.ram[f] == s.ram[f])
    && (forall q: nat :: q < USER_PAGES && !(p <= q < p + n) && Claims(4, Flat(s.ram, root)[q])
          && Flat(s.ram, root)[q].frame < |s.ram|
          ==> s'.ram[Flat(s.ram, root)[q].frame] == s.ram[Flat(s.ram, root)[q].frame])
  }

  /** Page p lost its entry; the frame it owned is left to nobody for now. */
  ghost predicate Cleared(s: Store, s': Store, root: nat, p: nat)
    requires p < USER_PAGES
  {
    && Good(s', root)
    && Flat(s'.ram, root) == Flat(s.ram, root)[p := NIL]
    && Outside(s', root) == Outside(s, root) + Claimed(4, Flat(s.ram, root)[p])
    && KeepsFrames(s, s', root, p, 1)
  }

  /** The frame of an owning page is filled with a pattern before the entry goes. */
  lemma Scrub(s: Store, s': Store, root: nat, p: nat, t: Table)
    requires Good(s, root) && p < USER_PAGES && Claims(4, Flat(s.ram, root)[p])
    requires Flat(s.ram, root)[p].frame < |s.ram|
    requires s' == Store(s.ram[Flat(s.ram, root)[p].frame := t], s.taken)
    ensures Good(s', root) && Flat(s'.ram, root) == Flat(s.ram, root)
    ensures Outside(s', root) == Outside(s, root) && KeepsFrames(s, s', root, p, 1)
  {
    LeafNoTable(s, root, p);
    Untouched(s, s', root);
    SameFlat(s.ram, s'.ram, root);
    OwnedOutside(s, root, p);
    forall q: nat | q < USER_PAGES && q != p && Claims(4, Flat(s.ram, root)[q])
      ensures Flat(s.ram, root)[q].frame != Flat(s.ram, root)[p].frame
    {
      DistinctFrames(s, root, p, q);
    }
  }

  lemma DistinctFrames(s: Store, root: nat, p: nat, q: nat)
    requires Good(s, root) && p < USER_PAGES && q < USER_PAGES && p != q
    requires Claims(4, Flat(s.ram, root)[p]) && Claims(4, Flat(s.ram, root)[q])
    ensures Flat(s.ram, root)[p].frame != Flat(s.ram, root)[q].frame
  {
    SamePage(p, q);
    assert Live(s.ram, root, NodeOf(4, p)) && Live(s.ram, root, NodeOf(4, q));
  }

  lemma UpdateKeeps(s: Store, s': Store, root: nat, p: nat)
    requires Good(s, root) && p < USER_PAGES && Updated(s, s', root, p, NIL)
    ensures KeepsFrames(s, s', root, p, 1)
  {
    hide Good, Flat, TablesGrow, Live;
    forall f: nat | f in Outside(s, root) && f < |s.ram| ensures s'.ram[f] == s.ram[f] {
      assert !IsTable(s.ram, root, f) by { TableOwned(s.ram, root, f); }
    }
    forall q: nat | q < USER_PAGES && q != p && Claims(4, Flat(s.ram, root)[q])
        && Flat(s.ram, root)[q].frame < |s.ram|
      ensures s'.ram[Flat(s.ram, root)[q].frame] == s.ram[Flat(s.ram, root)[q].frame]
    {
      LeafNoTable(s, root, q);
    }
  }

  lemma TableOwned(m: Ram, root: nat, f: nat)
    requires !Owns(m, root, f)
    ensures !IsTable(m, root, f)
  {
  }

  /** Scrubbing and unassigning one page. */
  lemma ClearSteps(s: Store, s': Store, s'': Store, root: nat, p: nat)
    requires Good(s, root) && p < USER_PAGES && Good(s', root) && Flat(s'.ram, root) == Flat(s.ram, root)
    requires Outside(s', root) == Outside(s, root) && KeepsFrames(s, s', root, p, 1)
    requires Updated(s', s'', root, p, NIL)
    ensures Cleared(s, s'', root, p)
  {
    hide Good, Flat, Outside, Extends;
    UpdateKeeps(s', s'', root, p);
  }

  /** What the frame of a page holds stays while its entry is cleared. */
  lemma ClearKeepsFrame(s: Store, s': Store, root: nat, p: nat)
    requires Good(s, root) && p < USER_PAGES && Claims(4, Flat(s.ram, root)[p]) && Updated(s, s', root, p, NIL)
    ensures var f := Flat(s.ram, root)[p].frame; f < |s.ram| == |s'.ram| && s'.ram[f] == s.ram[f]
  {
    hide Good, Flat, Outside, TablesGrow;
    LeafNoTable(s, root, p);
  }

  /** What free has done after n pages: the frames of `pending` wait to be given back. */
  ghost predicate Freeing(s: Store, s': Store, root: nat, p: nat, n: nat, pending: seq<nat>)
    requires p + n <= USER_PAGES
  {
    && Good(s', root)
    && SameBut(Flat(s.ram, root), Flat(s'.ram, root), p, n)
    && (forall q :: p <= q < p + n ==> Flat(s'.ram, root)[q] == NIL)
    && Outside(s', root) == Outside(s, root) + (set f | f in pending)
    && Distinct(pending) && (forall f :: f in pending ==> f !in Outside(s, root))
    && KeepsFrames(s, s', root, p, n)
  }

  lemma FreeingNone(s: Store, root: nat, p: nat)
    requires Good(s, root) && p <= USER_PAGES
    ensures Freeing(s, s, root, p, 0, [])
    ensures OwnedSeq(Flat(s.ram, root), p, 0) == []
  {
  }

  lemma PendingTaken(s: Store, s': Store, root: nat, p: nat, n: nat, pending: seq<nat>)
    requires p + n <= USER_PAGES && Freeing(s, s', root, p, n, pending)
    ensures Good(s', root) && (pending != [] ==> pending[0] in s'.taken)
  {
    if pending != [] { assert pending[0] in Outside(s', root); }
  }

  lemma FreeingStep(s: Store, s': Store, s'': Store, root: nat, p: nat, n: nat, pending: seq<nat>, pending': seq<nat>)
    requires p + n < USER_PAGES && Freeing(s, s', root, p, n, pending) && Cleared(s', s'', root, p + n)
    requires var e := Flat(s.ram, root)[p + n];
             pending' == pending + if Claims(4, e) then [e.frame] else []
    ensures Freeing(s, s'', root, p, n + 1, pending')
  {
    hide Good, Flat, Outside, KeepsFrames;
    var e := Flat(s.ram, root)[p + n];
    assert Flat(s'.ram, root)[p + n] == e;
    if Claims(4, e) { OwnedOutside(s', root, p + n); }
    FreeingKeeps(s, s', s'', root, p, n);
    assert (set f | f in pending') == (set f | f in pending) + Claimed(4, e);
  }

  /** The same for the frame that ClearPage returns, where 0 stands for none. */
  lemma FreedStep(s: Store, s': Store, s'': Store, root: nat, p: nat, n: nat, pending: seq<nat>, f: nat)
    requires p + n < USER_PAGES && Freeing(s, s', root, p, n, pending) && Cleared(s', s'', root, p + n)
    requires Claimed(4, Flat(s'.ram, root)[p + n]) == if f == 0 then {} else {f}
    ensures Freeing(s, s'', root, p, n + 1, if f == 0 then pending else pending + [f])
    ensures Good(s'', root)
    ensures OwnedSeq(Flat(s.ram, root), p, n + 1)
         == OwnedSeq(Flat(s.ram, root), p, n) + if f == 0 then [] else [f]
  {
    hide Good, Flat, Outside, KeepsFrames, Cleared;
    var e := Flat(s.ram, root)[p + n];
    assert Flat(s'.ram, root)[p + n] == e;
    assert f != 0 ==> f in Claimed(4, e);
    var more := if Claims(4, e) then [e.frame] else [];
    assert more == if f == 0 then [] else [f];
    assert pending + more == if f == 0 then pending else pending + [f];
    FreeingStep(s, s', s'', root, p, n, pending, pending + more);
  }

  lemma FreeingKeeps(s: Store, s': Store, s'': Store, root: nat, p: nat, n: nat)
    requires p + n < USER_PAGES && KeepsFrames(s, s', root, p, n) && KeepsFrames(s', s'', root, p + n, 1)
    requires SameBut(Flat(s.ram, root), Flat(s'.ram, root), p, n)
    requires Outside(s, root) <= Outside(s', root)
    ensures KeepsFrames(s, s'', root, p, n + 1)
  {
    hide Flat, Outside;
    forall q: nat | q < USER_PAGES && !(p <= q < p + n + 1) && Claims(4, Flat(s.ram, root)[q])
        && Flat(s.ram, root)[q].frame < |s.ram|
      ensures s''.ram[Flat(s.ram, root)[q].frame] == s.ram[Flat(s.ram, root)[q].frame]
    {
      assert Flat(s'.ram, root)[q] == Flat(s.ram, root)[q];
    }
  }

  /** Giving back the first pending frame. */
  lemma Release(s: Store, s': Store, s'': Store, root: nat, p: nat, n: nat, pending: seq<nat>)
    requires p + n <= USER_PAGES && pending != [] && Freeing(s, s', root, p, n, pending)
    requires s'' == Store(s'.ram, s'.taken - {pending[0]})
    ensures Freeing(s, s'', root, p, n, pending[1..])
  {
    hide Flat, KeepsFrames, SameBut;
    var f, rest := pending[0], pending[1..];
    assert pending == [f] + rest;
    assert f !in rest && Distinct(rest) by {
      assert forall i :: 0 <= i < |rest| ==> rest[i] == pending[i + 1];
    }
    assert f in Outside(s', root) && Outside(s'', root) == Outside(s', root) - {f};
    assert (set g | g in rest) == (set g | g in pending) - {f};
    assert KeepsFrames(s, s'', root, p, n) by { KeepsRam(s, s', s'', root, p, n); }
  }

  lemma KeepsRam(s: Store, s': Store, s'': Store, root: nat, p: nat, n: nat)
    requires KeepsFrames(s, s', root, p, n) && s''.ram == s'.ram
    ensures KeepsFrames(s, s'', root, p, n)
  {
    hide Flat, Outside;
  }

  /** No frame is given back twice. */
  lemma OwnedSeqDistinct(s: Store, root: nat, p: nat, n: nat)
    requires Good(s, root) && p + n <= USER_PAGES
    ensures Distinct(OwnedSeq(Flat(s.ram, root), p, n))
    ensures forall f :: f in OwnedSeq(Flat(s.ram, root), p, n) <==>
              exists q: nat :: p <= q < p + n && Claims(4, Flat(s.ram, root)[q]) && Flat(s.ram, root)[q].frame == f
    decreases n
  {
    hide Good, Flat;
    if n > 0 {
      OwnedSeqDistinct(s, root, p, n - 1);
      var e := Flat(s.ram, root);
      if Claims(4, e[p + n - 1]) {
        forall q: nat | p <= q < p + n - 1 && Claims(4, e[q]) ensures e[q].frame != e[p + n - 1].frame {
          DistinctFrames(s, root, q, p + n - 1);
        }
        assert e[p + n - 1].frame !in OwnedSeq(e, p, n - 1);
      }
    }
  }
}
