/** The flat map from pages to raw entries, and what changes of single entries add up to. */
module Entries {
  import opened PageTable
  import opened TableSteps
  import opened Addresses

  type FlatMap = imap<nat, Word>

  /** Pages other than the n pages from p keep their raw entries. */
  ghost predicate SameBut(e: FlatMap, e': FlatMap, p: nat, n: nat) {
    e'.Keys == e.Keys && forall q :: q in e && !(p <= q < p + n) ==> e'[q] == e[q]
  }

  /** The frames that the n pages from p own. */
  ghost function OwnedIn(e: FlatMap, p: nat, n: nat): (r: set<nat>)
    requires forall q :: p <= q < p + n ==> q in e
  {
    if n == 0 then {} else OwnedIn(e, p, n - 1) + Claimed(4, e[p + n - 1])
  }

  /**
   The entry of page p became w. No other entry changed, tables may have been added, and the
   frame that the page owned is left to nobody.
   */
  ghost predicate Updated(s: Store, s': Store, root: nat, p: nat, w: Word)
    requires p < USER_PAGES
  {
    match s
    case Store(m, taken) =>
      && Extends(s, s', root)
      && Good(s', root)
      && Flat(s'.ram, root) == Flat(m, root)[p := w]
      && Outside(s', root) == Outside(s, root) + Claimed(4, Flat(m, root)[p]) - Claimed(4, w)
  }

  /** An owning entry names a frame other than 0, so 0 can stand for "owns nothing". */
  lemma OwnedFrame(s: Store, root: nat, p: nat)
    requires Good(s, root) && p < USER_PAGES
    ensures var e := Flat(s.ram, root)[p];
            Claimed(4, e) == if NOPHYS in e.flags || e.frame == 0 then {} else {e.frame}
  {
    if Claims(4, Entry(s.ram, root, p)) { assert Live(s.ram, root, NodeOf(4, p)); }
  }

  lemma SameFlat(m: Ram, m': Ram, root: nat)
    requires SameEntries(m, m', root)
    ensures Flat(m', root) == Flat(m, root)
  {
    forall p: nat | p < USER_PAGES ensures Entry(m', root, p) == Entry(m, root, p) {
    }
  }

  /** The write of the entry of page p updates the flat map. */
  lemma FlatUpdate(m: Ram, m': Ram, root: nat, p: nat, w: Word)
    requires p < USER_PAGES && Differs(m, m', root, NodeOf(4, p), w)
    ensures Flat(m', root) == Flat(m, root)[p := w]
  {
    forall q: nat | q < USER_PAGES ensures Entry(m', root, q) == if q == p then w else Entry(m, root, q) {
      SamePage(p, q);
    }
  }

  lemma OwnedEntry(m: Ram, root: nat, p: nat)
    requires p < USER_PAGES
    ensures Claimed(4, Flat(m, root)[p]) == OwnedBy(m, root, NodeOf(4, p))
  {
  }

  /** The word w may be put in the entry of a page: the frame it claims is taken and not owned yet. */
  ghost predicate MayClaim(s: Store, root: nat, w: Word) {
    Claims(4, w) ==> w.frame in Outside(s, root) && 0 < w.frame < |s.ram|
  }

  /** findTableEnsure followed by the write of the entry; the word found there is the old entry. */
  lemma Update(s: Store, s': Store, s'': Store, root: nat, p: nat, t: nat, w: Word)
    requires p < USER_PAGES && Grown(s, s', root) && MayClaim(s, root, w)
    requires Live(s'.ram, root, NodeOf(3, p)) && t == TableAt(s'.ram, root, p) < |s'.ram|
    requires s'' == Store(WithWord(s'.ram, t, p % 512, w), s'.taken)
    ensures Updated(s, s'', root, p, w)
    ensures s'.ram[t][p % 512] == Flat(s.ram, root)[p]
  {
    hide Differs;
    var N := NodeOf(4, p);
    PageNode(p);
    assert CanSet(s', root, N, w);
    SetEntry(s', s'', root, N, w);
    FlatUpdate(s'.ram, s''.ram, root, p, w);
    SameFlat(s.ram, s'.ram, root);
    OwnedEntry(s'.ram, root, p);
    ExtendsTrans(s, s', s'', root);
  }

  /** The flat map gets the word whatever frame it names. */
  lemma UpdateFlat(s: Store, s': Store, m'': Ram, root: nat, p: nat, t: nat, w: Word)
    requires p < USER_PAGES && Grown(s, s', root)
    requires Live(s'.ram, root, NodeOf(3, p)) && t == TableAt(s'.ram, root, p) < |s'.ram|
    requires m'' == WithWord(s'.ram, t, p % 512, w)
    ensures Flat(m'', root) == Flat(s.ram, root)[p := w] && s'.ram[t][p % 512] == Flat(s.ram, root)[p]
  {
    hide Differs, Outside;
    PageNode(p);
    assert OneWordWritten(s'.ram, m'', root, NodeOf(4, p), w);
    Graft(s'.ram, m'', root, NodeOf(4, p), w);
    FlatUpdate(s'.ram, m'', root, p, w);
    SameFlat(s.ram, s'.ram, root);
  }

  /** Page p has no entry. */
  predicate Unmapped(m: Ram, root: nat, p: nat) {
    Entry(m, root, p) == NIL
  }

  ghost predicate UnmappedRun(m: Ram, root: nat, p: nat, n: nat) {
    forall q :: p <= q < p + n ==> Unmapped(m, root, q)
  }

  /** A missing page table leaves its 512 pages unmapped. */
  lemma MissingTable(m: Ram, root: nat, b: nat)
    requires 512 * b < USER_PAGES && TableAt(m, root, 512 * b) == 0
    ensures UnmappedRun(m, root, 512 * b, 512)
    ensures 512 * b + 512 <= USER_PAGES
  {
    forall q | 512 * b <= q < 512 * b + 512 ensures Unmapped(m, root, q) {
      InBlock(m, root, b, q - 512 * b);
    }
  }

  /** No run of `amount` unmapped pages lies between the pages lo and hi. */
  ghost predicate NoRunWithin(m: Ram, root: nat, lo: nat, hi: nat, amount: nat) {
    forall p :: lo <= p && p + amount <= hi ==> !UnmappedRun(m, root, p, amount)
  }

  /**
   What a search for `amount` unmapped pages from page `first` promises. The run it finds is the
   lowest one; when it finds none, no run ends at or before page `last`.
   */
  ghost predicate LowestRun(m: Ram, root: nat, first: nat, last: nat, amount: nat, found: bool, start: nat) {
    if found then
      && first <= start && start + amount <= USER_PAGES
      && UnmappedRun(m, root, start, amount)
      && forall p :: first <= p < start ==> !UnmappedRun(m, root, p, amount)
    else
      NoRunWithin(m, root, first, last, amount)
  }

  /** How far a search has come: the run of n pages from p is unmapped and the pages before it hold no run. */
  ghost predicate Scanned(m: Ram, root: nat, first: nat, p: nat, n: nat, amount: nat) {
    && first <= p && n < amount
    && UnmappedRun(m, root, p, n)
    && (p == first || !Unmapped(m, root, p - 1))
    && NoRunWithin(m, root, first, p + n, amount)
  }

  /** `more` unmapped pages behind the run: either it is long enough and the lowest, or the search goes on. */
  lemma ScanFree(m: Ram, root: nat, first: nat, last: nat, p: nat, n: nat, more: nat, amount: nat)
    requires Scanned(m, root, first, p, n, amount) && UnmappedRun(m, root, p + n, more)
    requires p + n + more <= USER_PAGES
    ensures n + more < amount ==> Scanned(m, root, first, p, n + more, amount)
    ensures n + more >= amount ==> LowestRun(m, root, first, last, amount, true, p)
  {
    forall q | first <= q < p ensures !UnmappedRun(m, root, q, amount) {
      if q + amount > p { assert !Unmapped(m, root, p - 1); }
    }
  }

  /** A mapped page behind the run: the search starts over behind it. */
  lemma ScanMapped(m: Ram, root: nat, first: nat, p: nat, n: nat, amount: nat)
    requires Scanned(m, root, first, p, n, amount) && !Unmapped(m, root, p + n)
    ensures Scanned(m, root, first, p + n + 1, 0, amount)
  {
  }

  lemma ScanStart(m: Ram, root: nat, first: nat, amount: nat)
    requires amount > 0
    ensures Scanned(m, root, first, first, 0, amount)
  {
  }

  /** The search has come to the end. */
  lemma ScanEnd(m: Ram, root: nat, first: nat, last: nat, p: nat, n: nat, amount: nat)
    requires Scanned(m, root, first, p, n, amount) && last <= p + n
    ensures LowestRun(m, root, first, last, amount, false, 0)
  {
  }

  /** What a search that answers page `start` has found; page 0 also stands for nothing. */
  ghost predicate SearchGives(m: Ram, root: nat, first: nat, last: nat, amount: nat, start: nat) {
    LowestRun(m, root, first, last, amount, true, start)
      || (start == 0 && LowestRun(m, root, first, last, amount, false, 0))
  }

  /** A lowest run does not depend on which tables exist. */
  lemma SameLowestRun(s: Store, s': Store, root: nat, first: nat, last: nat, amount: nat, found: bool, start: nat)
    requires amount > 0 && last <= USER_PAGES && Grown(s, s', root)
             && LowestRun(s'.ram, root, first, last, amount, found, start)
    ensures LowestRun(s.ram, root, first, last, amount, found, start) && (found ==> start + amount <= USER_PAGES)
  {
    hide Extends, Good, Outside;
    forall p: nat | p < USER_PAGES ensures Unmapped(s.ram, root, p) <==> Unmapped(s'.ram, root, p) {
      assert IsNode(NodeOf(4, p));
    }
    forall p: nat | p + amount <= USER_PAGES && !UnmappedRun(s'.ram, root, p, amount)
      ensures !UnmappedRun(s.ram, root, p, amount)
    {
      var q :| p <= q < p + amount && !Unmapped(s'.ram, root, q);
      assert !Unmapped(s.ram, root, q);
    }
  }
}
