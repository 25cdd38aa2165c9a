/** What the elementary writes of the paging code do to the tree and to the frames it owns. */
module TableSteps {
  import opened PageTable

  /** Frames that were taken and are no tables of the tree keep their contents. */
  ghost predicate KeepsOthers(s: Store, s': Store, root: nat) {
    match s
    case Store(m, taken) =>
      && |s'.ram| == |m|
      && forall f: nat :: f in taken && f < |m| && !IsTable(m, root, f) ==> s'.ram[f] == m[f]
  }

  /** The entries of all pages are the same. */
  ghost predicate SameEntries(m: Ram, m': Ram, root: nat) {
    forall n :: IsNode(n) && Depth(n) == 4 ==> Slot(m', root, n) == Slot(m, root, n)
  }

  /** Tables stay where they are; new ones sit in frames that were not taken before. */
  ghost predicate TablesGrow(s: Store, s': Store, root: nat) {
    match s
    case Store(m, taken) =>
      && (forall n :: Live(m, root, n) && Depth(n) < 4 ==>
            Live(s'.ram, root, n) && Tab(s'.ram, root, n) == Tab(m, root, n))
      && (forall n :: Live(s'.ram, root, n) && Depth(n) < 4 ==> Live(m, root, n) || Tab(s'.ram, root, n) !in taken)
  }

  /** Taken frames stay taken, tables stay, and frames other than tables keep their contents. */
  ghost predicate Extends(s: Store, s': Store, root: nat) {
    s.taken <= s'.taken && TablesGrow(s, s', root) && KeepsOthers(s, s', root)
  }

  /** From s to s' the tree only got new empty tables. */
  ghost predicate Grown(s: Store, s': Store, root: nat) {
    match s
    case Store(m, taken) =>
      && Extends(s, s', root)
      && Good(s', root)
      && Outside(s', root) == Outside(s, root)
      && SameEntries(m, s'.ram, root)
  }

  lemma ExtendsTrans(s: Store, s': Store, s'': Store, root: nat)
    requires Extends(s, s', root) && Extends(s', s'', root)
    ensures Extends(s, s'', root)
  {
    forall f: nat | f in s.taken && f < |s.ram| && !IsTable(s.ram, root, f) ensures s''.ram[f] == s.ram[f] {
      assert !IsTable(s'.ram, root, f);
    }
  }

  lemma GrownRefl(s: Store, root: nat)
    requires Good(s, root)
    ensures Grown(s, s, root)
  {
  }

  lemma GrownTrans(s: Store, s': Store, s'': Store, root: nat)
    requires Grown(s, s', root) && Grown(s', s'', root)
    ensures Grown(s, s'', root)
  {
    ExtendsTrans(s, s', s'', root);
  }

  /** An empty slot of an existing table, and a frame that nobody has taken. */
  ghost predicate CanLink(s: Store, root: nat, N: Node, f: nat) {
    && Good(s, root)
    && IsNode(N) && 0 < Depth(N) < 4 && Live(s.ram, root, N.parent) && Slot(s.ram, root, N) == NIL
    && f !in s.taken && 0 < f < |s.ram|
  }

  /** Slot i of table t filled with a link to f, and f taken and zeroed. */
  ghost function Linked(s: Store, t: nat, i: nat, f: nat): (s': Store)
    requires t < |s.ram| && f < |s.ram| && i < 512
  {
    Store(s.ram[t := s.ram[t][i := Word(f, LINK)]][f := Zeroes()], s.taken + {f})
  }

  lemma LinkOwns(s: Store, s': Store, root: nat, N: Node, f: nat)
    requires CanLink(s, root, N, f) && |s'.ram| == |s.ram| && s'.taken == s.taken + {f}
    requires Differs(s.ram, s'.ram, root, N, Word(f, LINK))
    ensures Good(s', root) && Outside(s', root) == Outside(s, root)
    ensures SameEntries(s.ram, s'.ram, root) && TablesGrow(s, s', root)
    ensures Live(s'.ram, root, N) && Tab(s'.ram, root, N) == f
  {
    GraftedNodes(s.ram, s'.ram, root, N, Word(f, LINK));
    GraftedTree(s.ram, s'.ram, root, N, Word(f, LINK));
  }

  /** findTableEnsure fills one empty slot with a link to a fresh zeroed frame. */
  lemma Link(s: Store, s': Store, root: nat, N: Node, f: nat)
    requires CanLink(s, root, N, f)
    requires s' == Linked(s, Tab(s.ram, root, N.parent), N.index, f)
    ensures Grown(s, s', root)
    ensures Live(s'.ram, root, N) && Tab(s'.ram, root, N) == f
  {
    Graft(s.ram, s'.ram, root, N, Word(f, LINK));
    LinkOwns(s, s', root, N, f);
    assert IsTable(s.ram, root, Tab(s.ram, root, N.parent));
  }

  /** The frame that word w lets page N own must be taken and not owned yet. */
  ghost predicate CanSet(s: Store, root: nat, N: Node, w: Word) {
    && Good(s, root) && IsNode(N) && Depth(N) == 4 && Live(s.ram, root, N.parent)
    && (Claims(4, w) ==> w.frame in Outside(s, root) && 0 < w.frame < |s.ram|)
  }

  function WithWord(m: Ram, t: nat, i: nat, w: Word): (m': Ram)
    requires t < |m| && i < 512
  {
    m[t := m[t][i := w]]
  }

  lemma Rewrite(m: Ram, t: nat, i: nat, w: Word, w': Word)
    requires t < |m| && i < 512
    ensures WithWord(WithWord(m, t, i, w), t, i, w') == WithWord(m, t, i, w')
    ensures WithWord(m, t, i, m[t][i]) == m
  {
    assert m[t][i := w][i := w'] == m[t][i := w'];
    assert m[t][i := m[t][i]] == m[t];
  }

  lemma SetOwns(s: Store, s': Store, root: nat, N: Node, w: Word)
    requires CanSet(s, root, N, w) && |s'.ram| == |s.ram| && s'.taken == s.taken
    requires Differs(s.ram, s'.ram, root, N, w)
    ensures Good(s', root)
    ensures Outside(s', root) == Outside(s, root) + OwnedBy(s.ram, root, N) - Claimed(4, w)
    ensures TablesGrow(s, s', root)
  {
    GraftedNodes(s.ram, s'.ram, root, N, w);
    GraftedTree(s.ram, s'.ram, root, N, w);
    if Live(s.ram, root, N) { assert Owns(s.ram, root, Tab(s.ram, root, N)); }
  }

  /** Writing the entry of one page: the page gets w, it owns what w claims and releases what it owned. */
  lemma SetEntry(s: Store, s': Store, root: nat, N: Node, w: Word)
    requires CanSet(s, root, N, w)
    requires s' == Store(WithWord(s.ram, Tab(s.ram, root, N.parent), N.index, w), s.taken)
    ensures Good(s', root) && Differs(s.ram, s'.ram, root, N, w)
    ensures Outside(s', root) == Outside(s, root) + OwnedBy(s.ram, root, N) - Claimed(4, w)
    ensures Extends(s, s', root)
  {
    Graft(s.ram, s'.ram, root, N, w);
    SetOwns(s, s', root, N, w);
    assert IsTable(s.ram, root, Tab(s.ram, root, N.parent));
  }

  /** Writing frames that are no tables of the tree leaves the tree alone. */
  lemma Untouched(s: Store, s': Store, root: nat)
    requires Good(s, root) && |s'.ram| == |s.ram|
    requires forall f: nat :: f < |s.ram| && IsTable(s.ram, root, f) ==> s'.ram[f] == s.ram[f]
    requires forall n :: Live(s.ram, root, n) ==> Tab(s.ram, root, n) in s'.taken
    ensures Good(s', root) && SameSlots(s.ram, s'.ram, root)
    ensures forall f: nat :: Owns(s'.ram, root, f) <==> Owns(s.ram, root, f)
    ensures forall f: nat :: IsTable(s'.ram, root, f) <==> IsTable(s.ram, root, f)
  {
    forall n | Live(s.ram, root, n) && Depth(n) < 4 ensures IsTable(s.ram, root, Tab(s.ram, root, n)) {
    }
    Agree(s.ram, s'.ram, root);
    SameNodes(s.ram, s'.ram, root);
  }

  lemma SameNodes(m: Ram, m': Ram, root: nat)
    requires SameSlots(m, m', root)
    ensures forall n :: Live(m', root, n) <==> Live(m, root, n)
    ensures forall n :: Live(m, root, n) ==> Tab(m', root, n) == Tab(m, root, n)
  {
    forall n | IsNode(n) && n.Child? ensures Slot(m', root, n) == Slot(m, root, n) {
    }
  }
}
