/**
 The 4-level page-table tree of a user address space, read as a pure function of physical memory.

 Physical memory is a sequence of frames of 512 words. A 64-bit word is split into the frame
 number in its upper 52 bits and the set of its low 12 bits that are set. A node of the tree is
 the path of slot numbers that leads to it: the root, then up to three tables, then a page.
 */
module PageTable {

  const NOPHYS := 9              // bit of PAGE_NOPHYS

  datatype Word = Word(frame: nat, flags: set<nat>)

  const NIL := Word(0, {})

  /** PAGE_PRESENT, PAGE_WRITE and PAGE_USER, the flags of a link between tables. */
  const LINK: set<nat> := {0, 1, 2}

  type Table = t: seq<Word> | |t| == 512 witness seq(512, _ => NIL)
  type Ram = seq<Table>

  function Zeroes(): (t: Table)
    ensures forall i :: 0 <= i < 512 ==> t[i] == NIL
  {
    seq(512, _ => NIL)
  }

  datatype Node = Root | Child(parent: Node, index: nat)

  /** 0 for the root, 1 to 3 for tables, 4 for pages. */
  function Depth(n: Node): nat {
    match n
    case Root => 0
    case Child(p, _) => Depth(p) + 1
  }

  /** The nodes of the user half: slots are below 512, those of the root below 256. */
  predicate IsNode(n: Node) {
    match n
    case Root => true
    case Child(p, i) => IsNode(p) && Depth(p) < 4 && i < 512 && (p.Root? ==> i < 256)
  }

  /** The word that the parent of a node holds for it, NIL if the parent does not exist. */
  function Slot(m: Ram, root: nat, n: Node): Word
    requires n.Child?
    decreases n, 0
  {
    var t := Tab(m, root, n.parent);
    if 0 < t < |m| && n.index < 512 then m[t][n.index] else NIL
  }

  /** The frame of a node, 0 if the node does not exist. */
  function Tab(m: Ram, root: nat, n: Node): nat
    decreases n, 1
  {
    if n.Root? then root else Slot(m, root, n).frame
  }

  /** Word w makes a node at this depth the owner of a frame. */
  predicate Claims(depth: nat, w: Word) {
    w != NIL && (depth == 4 ==> NOPHYS !in w.flags)
  }

  /** The node exists and owns the frame Tab(m, root, n). */
  predicate Live(m: Ram, root: nat, n: Node) {
    IsNode(n) && (n.Root? || Claims(Depth(n), Slot(m, root, n)))
  }

  ghost predicate Owns(m: Ram, root: nat, f: nat) {
    exists n :: Live(m, root, n) && Tab(m, root, n) == f
  }

  ghost predicate IsTable(m: Ram, root: nat, f: nat) {
    exists n :: Live(m, root, n) && Depth(n) < 4 && Tab(m, root, n) == f
  }

  /** Every link is flagged as one, every owned frame exists, and no frame serves two nodes. */
  ghost predicate ValidTree(m: Ram, root: nat) {
    && (forall n :: Live(m, root, n) && 0 < Depth(n) < 4 ==> LINK <= Slot(m, root, n).flags)
    && (forall n :: Live(m, root, n) ==> 0 < Tab(m, root, n) < |m|)
    && (forall n, n' :: Live(m, root, n) && Live(m, root, n') && Tab(m, root, n) == Tab(m, root, n') ==> n == n')
  }

  /** Physical memory together with the frames that the frame allocator has handed out. */
  datatype Store = Store(ram: Ram, taken: set<nat>)

  /** A valid tree all of whose frames are taken from the frame allocator. */
  ghost predicate Good(s: Store, root: nat) {
    match s
    case Store(m, taken) =>
      ValidTree(m, root) && forall n :: Live(m, root, n) ==> Tab(m, root, n) in taken
  }

  /** The taken frames that no node of this tree owns. */
  ghost function Outside(s: Store, root: nat): (r: set<nat>) {
    set f | f in s.taken && !Owns(s.ram, root, f)
  }

  ghost predicate SameSlots(m: Ram, m': Ram, root: nat) {
    forall n :: IsNode(n) && n.Child? ==> Slot(m', root, n) == Slot(m, root, n)
  }

  /** The slots of m' are those of m, except that node N holds w. */
  ghost predicate Differs(m: Ram, m': Ram, root: nat, N: Node, w: Word) {
    forall n :: IsNode(n) && n.Child? ==> Slot(m', root, n) == if n == N then w else Slot(m, root, n)
  }

  /** m' has the same tables as m. */
  ghost predicate TablesAgree(m: Ram, m': Ram, root: nat) {
    && |m'| == |m|
    && forall n :: Live(m, root, n) && Depth(n) < 4 && Tab(m, root, n) < |m|
         ==> m'[Tab(m, root, n)] == m[Tab(m, root, n)]
  }

  /** Writing frames that are no tables of the tree changes no slot. */
  lemma {:induction false} AgreeAt(m: Ram, m': Ram, root: nat, n: Node)
    requires ValidTree(m, root) && TablesAgree(m, m', root) && IsNode(n) && n.Child?
    ensures Slot(m', root, n) == Slot(m, root, n)
  {
    if n.parent.Child? { AgreeAt(m, m', root, n.parent); }
    if Tab(m, root, n.parent) > 0 { assert Live(m, root, n.parent); }
  }

  lemma Agree(m: Ram, m': Ram, root: nat)
    requires ValidTree(m, root) && TablesAgree(m, m', root)
    ensures SameSlots(m, m', root)
  {
    forall n | IsNode(n) && n.Child? ensures Slot(m', root, n) == Slot(m, root, n) {
      AgreeAt(m, m', root, n);
    }
  }

  /** Word `index` of the table of the parent of N becomes w; the other tables of the tree stay. */
  ghost predicate OneWordWritten(m: Ram, m': Ram, root: nat, N: Node, w: Word)
    requires |m'| == |m| && IsNode(N) && N.Child?
  {
    forall n :: Live(m, root, n) && Depth(n) < 4 && Tab(m, root, n) < |m| ==>
      m'[Tab(m, root, n)] == if n == N.parent then m[Tab(m, root, n)][N.index := w] else m[Tab(m, root, n)]
  }

  /**
   Node N gets the word w, in the slot its parent has for it. When that creates a table the slot
   was empty and the new table is zero.
   */
  ghost predicate Grafted(m: Ram, m': Ram, root: nat, N: Node, w: Word) {
    && |m'| == |m| && IsNode(N) && N.Child? && Live(m, root, N.parent)
    && OneWordWritten(m, m', root, N, w)
    && (Depth(N) < 4 ==> Slot(m, root, N) == NIL && 0 < w.frame < |m| && m'[w.frame] == Zeroes())
  }

  lemma {:induction false} GraftAt(m: Ram, m': Ram, root: nat, N: Node, w: Word, n: Node)
    requires ValidTree(m, root) && Grafted(m, m', root, N, w) && IsNode(n) && n.Child?
    ensures Slot(m', root, n) == if n == N then w else Slot(m, root, n)
  {
    if n.parent.Child? { GraftAt(m, m', root, N, w, n.parent); }
    if Tab(m, root, n.parent) > 0 { assert Live(m, root, n.parent); }
  }

  lemma Graft(m: Ram, m': Ram, root: nat, N: Node, w: Word)
    requires ValidTree(m, root) && Grafted(m, m', root, N, w)
    ensures Differs(m, m', root, N, w)
  {
    forall n | IsNode(n) && n.Child? ensures Slot(m', root, n) == if n == N then w else Slot(m, root, n) {
      GraftAt(m, m', root, N, w, n);
    }
  }

  /** From m to m' the tree gave up the frames `gone` and got the frames `come`. */
  ghost predicate OwnsChange(m: Ram, m': Ram, root: nat, gone: set<nat>, come: set<nat>) {
    forall f: nat :: Owns(m', root, f) <==> f in come || (Owns(m, root, f) && f !in gone)
  }

  /** The frame that node n owns, if it is live. */
  ghost function OwnedBy(m: Ram, root: nat, n: Node): (s: set<nat>) {
    if Live(m, root, n) then {Tab(m, root, n)} else {}
  }

  /** The frame that the word w makes a node at this depth own, if any. */
  ghost function Claimed(depth: nat, w: Word): (s: set<nat>) {
    if Claims(depth, w) then {w.frame} else {}
  }

  /** The nodes of m' are those of m, except that N owns what w claims. */
  ghost predicate NodesDiffer(m: Ram, m': Ram, root: nat, N: Node, w: Word) {
    && (forall n :: n != N ==> (Live(m', root, n) <==> Live(m, root, n)))
    && (forall n :: n != N && Live(m, root, n) ==> Tab(m', root, n) == Tab(m, root, n))
    && (Live(m', root, N) <==> Claims(Depth(N), w))
    && Tab(m', root, N) == w.frame
  }

  lemma GraftedNodes(m: Ram, m': Ram, root: nat, N: Node, w: Word)
    requires IsNode(N) && N.Child? && Differs(m, m', root, N, w)
    ensures NodesDiffer(m, m', root, N, w)
  {
    forall n | n != N
      ensures (Live(m', root, n) <==> Live(m, root, n)) && (Live(m, root, n) ==> Tab(m', root, n) == Tab(m, root, n))
    {
      if IsNode(n) && n.Child? { assert Slot(m', root, n) == Slot(m, root, n); }
    }
  }

  /** What one changed slot does to the tree and to the frames it owns. */
  lemma GraftedTree(m: Ram, m': Ram, root: nat, N: Node, w: Word)
    requires ValidTree(m, root) && |m'| == |m| && IsNode(N) && N.Child?
    requires Differs(m, m', root, N, w)
    requires Claims(Depth(N), w) ==> 0 < w.frame < |m| && !Owns(m, root, w.frame)
    requires Depth(N) < 4 && w != NIL ==> LINK <= w.flags
    ensures ValidTree(m', root)
    ensures OwnsChange(m, m', root, OwnedBy(m, root, N), Claimed(Depth(N), w))
  {
    GraftedNodes(m, m', root, N, w);
    GraftedOwns(m, m', root, N, w);
    forall n | Live(m', root, n) && 0 < Depth(n) < 4 ensures LINK <= Slot(m', root, n).flags {
      assert Slot(m', root, n) == if n == N then w else Slot(m, root, n);
    }
  }

  lemma GraftedOwns(m: Ram, m': Ram, root: nat, N: Node, w: Word)
    requires ValidTree(m, root) && IsNode(N) && N.Child? && NodesDiffer(m, m', root, N, w)
    ensures OwnsChange(m, m', root, OwnedBy(m, root, N), Claimed(Depth(N), w))
  {
    forall f: nat
      ensures Owns(m', root, f) <==>
                f in Claimed(Depth(N), w) || (Owns(m, root, f) && f !in OwnedBy(m, root, N))
    {
      if Owns(m', root, f) {
        var n :| Live(m', root, n) && Tab(m', root, n) == f;
        if n != N { assert Live(m, root, n) && Tab(m, root, n) == f; }
      }
      if f in Claimed(Depth(N), w) { assert Live(m', root, N) && Tab(m', root, N) == f; }
      if Owns(m, root, f) && f !in OwnedBy(m, root, N) {
        var n :| Live(m, root, n) && Tab(m, root, n) == f;
        assert Live(m', root, n) && Tab(m', root, n) == f;
      }
    }
  }
}
