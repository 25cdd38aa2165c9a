/** Copying an address space page by page into a second tree over the same memory. */
module Forks {
  import opened PageTable
  import opened TableSteps
  import opened Addresses
  import opened Entries
  import opened Batches

  /**
   Entry e' of the child is a copy of entry e of the parent. Entries that own no frame are the
   same; an owning one has the same flags and a frame of its own with the same contents.
   */
  ghost predicate CopyOf(s0: Store, s: Store, e: Word, e': Word) {
    if Claims(4, e) then
      && e'.flags == e.flags && e'.frame !in s0.taken && 0 < e'.frame < |s.ram| && e.frame < |s0.ram|
      && s.ram[e'.frame] == s0.ram[e.frame]
    else e' == e
  }

  /**
   What fork has done up to page v. The frames that were taken before are those the child does
   not own, and none of them changed.
   */
  ghost predicate Forked(s0: Store, s: Store, root: nat, child: nat, v: nat)
    requires v <= USER_PAGES
  {
    && Good(s, child) && Outside(s, child) == s0.taken
    && |s.ram| == |s0.ram| && (forall f: nat :: f in s0.taken && f < |s0.ram| ==> s.ram[f] == s0.ram[f])
    && (forall q: nat :: q < v ==> CopyOf(s0, s, Flat(s0.ram, root)[q], Flat(s.ram, child)[q]))
    && (forall q: nat :: v <= q < USER_PAGES ==> Flat(s.ram, child)[q] == NIL)
  }

  /** The parent keeps its tree, its entries and the contents of its frames. */
  lemma ForkedParent(s0: Store, s: Store, root: nat, child: nat, v: nat)
    requires Good(s0, root) && v <= USER_PAGES && Forked(s0, s, root, child, v)
    ensures Good(s, root) && SameSlots(s0.ram, s.ram, root) && Flat(s.ram, root) == Flat(s0.ram, root)
  {
    hide Flat, CopyOf;
    assert s0.taken <= s.taken;
    forall f: nat | f < |s0.ram| && IsTable(s0.ram, root, f) ensures s.ram[f] == s0.ram[f] {
      assert f in s0.taken;
    }
    Untouched(s0, s, root);
    SameFlat(s0.ram, s.ram, root);
  }

  /** No frame belongs to both. */
  lemma ForkedDisjoint(s0: Store, s: Store, root: nat, child: nat, v: nat, f: nat)
    requires Good(s0, root) && v <= USER_PAGES && Forked(s0, s, root, child, v)
    ensures !(Owns(s.ram, root, f) && Owns(s.ram, child, f))
  {
    ForkedParent(s0, s, root, child, v);
    SameNodes(s0.ram, s.ram, root);
    if Owns(s.ram, root, f) {
      var n :| Live(s.ram, root, n) && Tab(s.ram, root, n) == f;
      assert Live(s0.ram, root, n) && f in s0.taken;
    }
  }

  /** Changes in the child's tables leave the frames of its pages and all earlier frames alone. */
  lemma ForkKeeps(s0: Store, s: Store, s': Store, root: nat, child: nat, v: nat)
    requires v <= USER_PAGES && Forked(s0, s, root, child, v) && Extends(s, s', child)
    ensures |s'.ram| == |s0.ram| && (forall f: nat :: f in s0.taken && f < |s0.ram| ==> s'.ram[f] == s0.ram[f])
    ensures forall q: nat :: q < v ==> CopyOf(s0, s', Flat(s0.ram, root)[q], Flat(s.ram, child)[q])
  {
    hide Good, Flat, TablesGrow, Live;
    forall f: nat | f in s0.taken && f < |s0.ram| ensures s'.ram[f] == s0.ram[f] {
      assert f in Outside(s, child) && !IsTable(s.ram, child, f);
    }
    forall q: nat | q < v ensures CopyOf(s0, s', Flat(s0.ram, root)[q], Flat(s.ram, child)[q]) {
      var e := Flat(s0.ram, root)[q];
      assert CopyOf(s0, s, e, Flat(s.ram, child)[q]);
      if Claims(4, e) { LeafNoTable(s, child, q); }
    }
  }

  lemma ForkGrown(s0: Store, s: Store, s': Store, root: nat, child: nat, v: nat)
    requires v <= USER_PAGES && Forked(s0, s, root, child, v) && Grown(s, s', child)
    ensures Forked(s0, s', root, child, v)
  {
    hide Good, Flat, Extends, CopyOf, Outside;
    ForkKeeps(s0, s, s', root, child, v);
    SameFlat(s.ram, s'.ram, child);
  }

  /** The entry of page v is filled in. */
  lemma ForkStep(s0: Store, s: Store, s': Store, root: nat, child: nat, v: nat, w: Word)
    requires v < USER_PAGES && Forked(s0, s, root, child, v) && Stepped(s, s', child, v, w, {})
    requires CopyOf(s0, s', Flat(s0.ram, root)[v], w)
    ensures Forked(s0, s', root, child, v + 1)
  {
    hide Good, Flat, Extends, CopyOf, Outside;
    ForkKeeps(s0, s, s', root, child, v);
  }

  /** Pages that the parent does not map are passed over. */
  lemma ForkSkip(s0: Store, s: Store, root: nat, child: nat, v: nat, n: nat)
    requires v + n <= USER_PAGES && Forked(s0, s, root, child, v)
    requires forall q: nat :: v <= q < v + n ==> Flat(s0.ram, root)[q] == NIL
    ensures Forked(s0, s, root, child, v + n)
  {
    hide Good, Flat, Outside;
  }

  /** The table that findTableEnsure gives the child for new pages is zero. */
  lemma ForkTable(s0: Store, s: Store, root: nat, child: nat, b: nat)
    requires 512 * b < USER_PAGES && Forked(s0, s, root, child, 512 * b)
    requires 0 < TableAt(s.ram, child, 512 * b) < |s.ram|
    ensures s.ram[TableAt(s.ram, child, 512 * b)] == Zeroes()
  {
    hide Good, Outside, CopyOf;
    var t := s.ram[TableAt(s.ram, child, 512 * b)];
    forall i: nat | i < 512 ensures t[i] == NIL {
      InBlock(s.ram, child, b, i);
      assert Flat(s.ram, child)[512 * b + i] == NIL;
    }
  }

  /**
   The position of the walk over the parent's tables: at the start of a page table, and at the
   start of every bigger region that is missing.
   */
  ghost predicate AtStart(m: Ram, root: nat, v: nat) {
    && v <= USER_PAGES && v % Span(3) == 0
    && (v < USER_PAGES ==> forall d :: 1 <= d <= 2 && Slot(m, root, NodeOf(d, v)) == NIL ==> v % Span(d) == 0)
  }

  /** A skip passes over exactly the missing region: nothing in it is mapped. */
  lemma Skipped(m: Ram, root: nat, v: nat, d: nat, q: nat)
    requires v < USER_PAGES && 1 <= d <= 3 && AtStart(m, root, v) && Slot(m, root, NodeOf(d, v)) == NIL
    requires v <= q < v + Span(d)
    ensures q < USER_PAGES && Entry(m, root, q) == NIL && TableAt(m, root, q) == 0
  {
    assert v % Span(d) == 0;
    SameSpan(d, v, q);
    SameNode(d, v, q);
    NothingBelow(m, root, d, q);
  }

  lemma SameSpan(d: nat, v: nat, q: nat)
    requires v < USER_PAGES && 1 <= d <= 3 && v % Span(d) == 0 && v <= q < v + Span(d)
    ensures q / Span(d) == v / Span(d) && q < USER_PAGES && v + Span(d) <= USER_PAGES
  {
  }

  /** After a skip, or after a table, the walk is again at the start of what is missing there. */
  lemma NextStart(m: Ram, root: nat, v: nat, d: nat)
    requires v < USER_PAGES && 1 <= d <= 3 && AtStart(m, root, v) && v % Span(d) == 0
    requires forall k :: 1 <= k < d ==> Slot(m, root, NodeOf(k, v)) != NIL
    ensures AtStart(m, root, v + Span(d))
  {
    var v' := v + Span(d);
    SameSpan(d, v, v);
    SpanDivides(d, v);
    forall k | v' < USER_PAGES && 1 <= k <= 2 && Slot(m, root, NodeOf(k, v')) == NIL ensures v' % Span(k) == 0 {
      if k < d {
        SameNode(k, v, v');
        NextInSpan(k, d, v);
      }
    }
  }

  lemma SpanDivides(d: nat, v: nat)
    requires 1 <= d <= 3 && v % Span(d) == 0
    ensures forall k :: d <= k <= 3 ==> (v + Span(d)) % Span(k) == 0
  {
    var x := v / Span(d) + 1;
    if d == 1 {
      Divisible(1, x);
      Divisible(2, 512 * x);
      Divisible(3, 0x4_0000 * x);
    } else if d == 2 {
      Divisible(2, x);
      Divisible(3, 512 * x);
    } else {
      Divisible(3, x);
    }
  }

  lemma Divisible(k: nat, x: nat)
    requires 1 <= k <= 3
    ensures (Span(k) * x) % Span(k) == 0
  {
    if k == 1 {
      assert (0x800_0000 * x) % 0x800_0000 == 0;
    } else if k == 2 {
      assert (0x4_0000 * x) % 0x4_0000 == 0;
    } else {
      assert (0x200 * x) % 0x200 == 0;
    }
  }

  lemma NextInSpan(k: nat, d: nat, v: nat)
    requires 1 <= k < d <= 3 && v % Span(d) == 0
    ensures (v + Span(d)) % Span(k) == 0 || (v + Span(d)) / Span(k) == v / Span(k)
  {
  }

  /** A new child owns its root and maps nothing. */
  lemma ForkNone(s0: Store, s: Store, root: nat, child: nat)
    requires Good(s, child) && child !in s0.taken && s.taken == s0.taken + {child} && |s.ram| == |s0.ram|
    requires forall f: nat :: f < |s.ram| && f != child ==> s.ram[f] == s0.ram[f]
    requires forall p: nat :: p < USER_PAGES ==> Flat(s.ram, child)[p] == NIL
    requires forall n :: Live(s.ram, child, n) ==> n == Root
    ensures Forked(s0, s, root, child, 0)
  {
    assert Live(s.ram, child, Root) && Tab(s.ram, child, Root) == child;
    forall f: nat ensures Owns(s.ram, child, f) <==> f == child {
    }
  }

  /** The first i entries of page table b are copied into the child's table t. */
  ghost predicate Filling(s0: Store, s: Store, root: nat, child: nat, b: nat, i: nat, t: nat)
    requires 512 * b + i <= USER_PAGES
  {
    && Forked(s0, s, root, child, 512 * b + i)
    && Live(s.ram, child, NodeOf(3, 512 * b)) && t == TableAt(s.ram, child, 512 * b) < |s.ram|
  }

  lemma FillSkip(s0: Store, s: Store, root: nat, child: nat, b: nat, i: nat, t: nat)
    requires 512 * b + i < USER_PAGES && Filling(s0, s, root, child, b, i, t)
    requires Flat(s0.ram, root)[512 * b + i] == NIL
    ensures Filling(s0, s, root, child, b, i + 1, t) && Good(s, child)
  {
    hide Flat, CopyOf, Live, TableAt, Outside, Good;
    ForkSkip(s0, s, root, child, 512 * b + i, 1);
  }

  /** The write of an entry that owns nothing. */
  lemma ForkSame(s0: Store, s: Store, s': Store, root: nat, child: nat, b: nat, i: nat, t: nat, e: Word)
    requires 512 * b < USER_PAGES && i < 512 && 512 * b + i < USER_PAGES && Filling(s0, s, root, child, b, i, t)
    requires s' == Store(WithWord(s.ram, t, i, e), s.taken)
    requires e == Flat(s0.ram, root)[512 * b + i] && NOPHYS in e.flags
    ensures Filling(s0, s', root, child, b, i + 1, t) && Good(s', child)
  {
    hide Flat, Outside, Extends, Good, Forked, Grown, Live, Updated, TableAt;
    var p := 512 * b + i;
    ForkPlace(b, i);
    ForkBlank(s0, s, root, child, p);
    SamePlace(s, child, b, i);
    GrownRefl(s, child);
    Update(s, s, s', child, p, t, e);
    UpdateSteps(s, s', child, p, e);
    ForkStep(s0, s, s', root, child, p, e);
    TableStays(s, s', child, b, p, e);
  }

  /** A frame is taken, filled with the parent's contents and entered. */
  lemma ForkCopy(s0: Store, s: Store, s': Store, s'': Store, root: nat, child: nat, b: nat, i: nat, t: nat, e: Word,
                 f: nat)
    requires 512 * b < USER_PAGES && i < 512 && 512 * b + i < USER_PAGES && Filling(s0, s, root, child, b, i, t)
    requires e == Flat(s0.ram, root)[512 * b + i] && Claims(4, e) && e.frame in s0.taken
             && e.frame < |s0.ram| == |s.ram|
    requires f !in s.taken && 0 < f < |s.ram| && s' == Store(s.ram[f := s.ram[e.frame]], s.taken + {f})
    requires s'' == Store(WithWord(s'.ram, t, i, Word(f, e.flags)), s'.taken)
    ensures Filling(s0, s'', root, child, b, i + 1, t) && Good(s'', child)
  {
    hide Flat, Outside, Extends, Good, Forked, Grown, Live, Updated, TableAt, Stepped;
    var p, w, c := 512 * b + i, Word(f, e.flags), s.ram[e.frame];
    ForkPlace(b, i);
    ForkBlank(s0, s, root, child, p);
    TakeFrame(s, s', child, f, c);
    SameNodes(s.ram, s'.ram, child);
    assert TableAt(s'.ram, child, 512 * b) == t by { SameTab(s.ram, s'.ram, child, b); }
    SamePlace(s', child, b, i);
    GrownRefl(s', child);
    Update(s', s', s'', child, p, t, w);
    AllocSteps(s, s', s'', child, p, f, e.flags, c);
    assert CopyOf(s0, s'', e, w);
    ForkStep(s0, s, s'', root, child, p, w);
    TableStays(s', s'', child, b, p, w);
  }

  lemma ForkBlank(s0: Store, s: Store, root: nat, child: nat, p: nat)
    requires p < USER_PAGES && Forked(s0, s, root, child, p)
    ensures Good(s, child) && Flat(s.ram, child)[p] == NIL && |s.ram| == |s0.ram| && s0.taken <= s.taken
    ensures forall f: nat :: f in s0.taken && f < |s0.ram| ==> s.ram[f] == s0.ram[f]
  {
  }

  lemma SamePlace(s: Store, child: nat, b: nat, i: nat)
    requires 512 * b < USER_PAGES && i < 512
    ensures TableAt(s.ram, child, 512 * b + i) == TableAt(s.ram, child, 512 * b)
  {
    ForkPlace(b, i);
  }

  lemma SameTab(m: Ram, m': Ram, root: nat, b: nat)
    requires SameSlots(m, m', root) && 512 * b < USER_PAGES
    ensures TableAt(m', root, 512 * b) == TableAt(m, root, 512 * b)
  {
    var n := NodeOf(3, 512 * b);
    assert IsNode(n) && n.Child?;
  }

  lemma ForkPlace(b: nat, i: nat)
    requires 512 * b < USER_PAGES && i < 512
    ensures 512 * b + i < USER_PAGES && NodeOf(3, 512 * b + i) == NodeOf(3, 512 * b) && (512 * b + i) % 512 == i
  {
    hide NodeOf;
    SameTable(512 * b + i, 512 * b);
  }

  lemma TableStays(s: Store, s': Store, child: nat, b: nat, p: nat, w: Word)
    requires p < USER_PAGES && Updated(s, s', child, p, w) && Live(s.ram, child, NodeOf(3, 512 * b))
    ensures Live(s'.ram, child, NodeOf(3, 512 * b)) && TableAt(s'.ram, child, 512 * b) == TableAt(s.ram, child, 512 * b)
    ensures Good(s', child)
  {
  }

  /** The words of a page table of the parent are its entries, still as they were at the start. */
  lemma ForkSource(s0: Store, s: Store, root: nat, child: nat, b: nat, i: nat, t': nat)
    requires Good(s0, root) && 512 * b < USER_PAGES && i < 512 && 0 < TableAt(s0.ram, root, 512 * b)
    requires 512 * b + i < USER_PAGES && Filling(s0, s, root, child, b, i, t')
    ensures t' < |s.ram|
    ensures var t, e := TableAt(s0.ram, root, 512 * b), Flat(s0.ram, root)[512 * b + i];
            && t < |s.ram| == |s0.ram| && s.ram[t][i] == e
            && (Claims(4, e) ==> e.frame in s0.taken && e.frame < |s0.ram|)
  {
    hide Good, Flat, Outside, CopyOf, TableAt;
    SourceTable(s0, root, b, i);
    if Claims(4, Flat(s0.ram, root)[512 * b + i]) { LeafNoTable(s0, root, 512 * b + i); }
  }

  lemma SourceTable(s0: Store, root: nat, b: nat, i: nat)
    requires Good(s0, root) && 512 * b < USER_PAGES && i < 512 && 0 < TableAt(s0.ram, root, 512 * b)
    ensures 512 * b + i < USER_PAGES
    ensures var t := TableAt(s0.ram, root, 512 * b);
            t in s0.taken && t < |s0.ram| && s0.ram[t][i] == Flat(s0.ram, root)[512 * b + i]
  {
    assert Live(s0.ram, root, NodeOf(3, 512 * b));
    InBlock(s0.ram, root, b, i);
  }

  /** The tables in `visited` are those that exist below page v, each once and in order. */
  ghost predicate Visited(m: Ram, root: nat, visited: seq<nat>, v: nat) {
    && (forall i, j :: 0 <= i < j < |visited| ==> visited[i] < visited[j])
    && (forall b: nat :: b in visited ==> 512 * b < v)
    && (forall b: nat :: 512 * b < v ==> (b in visited <==> TableAt(m, root, 512 * b) != 0))
  }

  /** The walk of fork has come to page v. */
  ghost predicate Walked(s0: Store, s: Store, root: nat, child: nat, v: nat, visited: seq<nat>)
    requires v <= USER_PAGES
  {
    AtStart(s0.ram, root, v) && Forked(s0, s, root, child, v) && Visited(s0.ram, root, visited, v)
  }

  lemma WalkNone(s0: Store, s: Store, root: nat, child: nat)
    requires Good(s, child) && child !in s0.taken && s.taken == s0.taken + {child} && |s.ram| == |s0.ram|
    requires forall f: nat :: f < |s.ram| && f != child ==> s.ram[f] == s0.ram[f]
    requires forall p: nat :: p < USER_PAGES ==> Flat(s.ram, child)[p] == NIL
    requires forall n :: Live(s.ram, child, n) ==> n == Root
    ensures Walked(s0, s, root, child, 0, [])
  {
    hide Forked;
    ForkNone(s0, s, root, child);
  }

  /** The tables above the missing one at depth d exist. */
  ghost predicate WalkAbove(m: Ram, root: nat, d: nat, v: nat)
    requires d <= 4
  {
    forall k :: 1 <= k < d ==> Slot(m, root, NodeOf(k, v)) != NIL
  }

  lemma WalkAboveLive(m: Ram, m': Ram, root: nat, v: nat, d: nat)
    requires v < USER_PAGES && 1 <= d <= 3 && SameSlots(m, m', root) && Live(m', root, NodeOf(d - 1, v))
    requires Slot(m', root, NodeOf(d, v)) == NIL
    ensures WalkAbove(m, root, d, v) && Slot(m, root, NodeOf(d, v)) == NIL
  {
    if d == 3 && Slot(m, root, NodeOf(1, v)) == NIL { assert Tab(m, root, NodeOf(1, v)) == 0; }
  }

  /** The number of the page table at which the walk stands. */
  lemma WalkBlock(m: Ram, m': Ram, root: nat, v: nat) returns (b: nat)
    requires AtStart(m, root, v) && v < USER_PAGES && SameSlots(m, m', root)
    ensures v == 512 * b && TableAt(m', root, v) == TableAt(m, root, v)
  {
    b := v / 512;
    SameTab(m, m', root, b);
  }

  lemma WalkSkip(s0: Store, s: Store, root: nat, child: nat, v: nat, d: nat, visited: seq<nat>)
    requires v < USER_PAGES && 1 <= d <= 3 && AtStart(s0.ram, root, v) && Slot(s0.ram, root, NodeOf(d, v)) == NIL
    requires WalkAbove(s0.ram, root, d, v)
    requires Forked(s0, s, root, child, v) && Visited(s0.ram, root, visited, v)
    ensures v + Span(d) <= USER_PAGES && AtStart(s0.ram, root, v + Span(d))
    ensures Forked(s0, s, root, child, v + Span(d)) && Visited(s0.ram, root, visited, v + Span(d))
  {
    hide Forked;
    assert v % Span(d) == 0;
    SameSpan(d, v, v);
    NextStart(s0.ram, root, v, d);
    forall q: nat | v <= q < v + Span(d) ensures Flat(s0.ram, root)[q] == NIL && TableAt(s0.ram, root, q) == 0 {
      Skipped(s0.ram, root, v, d, q);
    }
    ForkSkip(s0, s, root, child, v, Span(d));
  }

  lemma WalkTable(m: Ram, root: nat, b: nat, visited: seq<nat>)
    requires 512 * b < USER_PAGES && AtStart(m, root, 512 * b) && TableAt(m, root, 512 * b) != 0
    requires Visited(m, root, visited, 512 * b)
    ensures AtStart(m, root, 512 * b + 512) && Visited(m, root, visited + [b], 512 * b + 512)
  {
    hide Visited;
    forall k | 1 <= k < 3 ensures Slot(m, root, NodeOf(k, 512 * b)) != NIL {
      if Slot(m, root, NodeOf(k, 512 * b)) == NIL { NothingBelow(m, root, k, 512 * b); }
    }
    NextStart(m, root, 512 * b, 3);
    VisitedStep(m, root, b, visited);
  }

  lemma VisitedStep(m: Ram, root: nat, b: nat, visited: seq<nat>)
    requires TableAt(m, root, 512 * b) != 0 && Visited(m, root, visited, 512 * b)
    ensures Visited(m, root, visited + [b], 512 * b + 512)
  {
    hide TableAt;
    var visited' := visited + [b];
    forall i, j | 0 <= i < j < |visited'| ensures visited'[i] < visited'[j] {
      assert visited'[i] in visited;
    }
    forall c: nat | 512 * c < 512 * b + 512 ensures c in visited' <==> TableAt(m, root, 512 * c) != 0 {
      assert c == b || 512 * c < 512 * b;
    }
  }
}
