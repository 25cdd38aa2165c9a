/**
 Virtual pages of the user half and the nodes of the tree they lead to. Addresses are counted in
 pages: page p starts at the address 4096 * p.
 */
module Addresses {
  import opened PageTable

  const USER_PAGES := 0x8_0000_0000

  /** The pages below one node at depth d. */
  function Span(d: nat): (s: nat)
    requires d <= 4
    ensures s > 0
  {
    match d
    case 0 => 0x10_0000_0000
    case 1 => 0x800_0000
    case 2 => 0x4_0000
    case 3 => 0x200
    case _ => 1
  }

  /** The node at depth d on the way from the root to page p. */
  function NodeOf(d: nat, p: nat): (n: Node)
    requires d <= 4
    ensures Depth(n) == d
    ensures p < USER_PAGES ==> IsNode(n)
  {
    if d == 0 then Root else Child(NodeOf(d - 1, p), p / Span(d) % 512)
  }

  /** The raw entry of page p. */
  function Entry(m: Ram, root: nat, p: nat): (w: Word) {
    Slot(m, root, NodeOf(4, p))
  }

  /** The frame of the page table over page p, 0 if there is none. */
  function TableAt(m: Ram, root: nat, p: nat): (t: nat) {
    Tab(m, root, NodeOf(3, p))
  }

  /** The flat map from pages to raw entries that the tree stands for. */
  ghost function Flat(m: Ram, root: nat): (e: imap<nat, Word>)
    ensures forall p: nat :: p in e <==> p < USER_PAGES
  {
    imap p: nat | p < USER_PAGES :: Entry(m, root, p)
  }

  lemma PageNode(p: nat)
    ensures NodeOf(4, p) == Child(NodeOf(3, p), p % 512)
  {
    assert p / 1 == p;
  }

  lemma SpanUp(d: nat, p: nat)
    requires 1 <= d <= 4
    ensures p / Span(d) / 512 == p / Span(d - 1)
  {
    if d == 1 {
      assert p / 0x800_0000 / 512 == p / 0x10_0000_0000;
    } else if d == 2 {
      assert p / 0x4_0000 / 512 == p / 0x800_0000;
    } else if d == 3 {
      assert p / 0x200 / 512 == p / 0x4_0000;
    }
  }

  lemma SameDigits(x: nat, y: nat)
    ensures x == y <==> x / 512 == y / 512 && x % 512 == y % 512
  {
  }

  /** Two pages share a node exactly when they lie in the same span. */
  lemma {:induction false} SameNode(d: nat, p: nat, q: nat)
    requires d <= 4 && p < USER_PAGES && q < USER_PAGES
    ensures NodeOf(d, p) == NodeOf(d, q) <==> p / Span(d) == q / Span(d)
  {
    if d > 0 {
      SameNode(d - 1, p, q);
      SpanUp(d, p);
      SpanUp(d, q);
      SameDigits(p / Span(d), q / Span(d));
    }
  }

  /** Different pages are different nodes. */
  lemma SamePage(p: nat, q: nat)
    requires p < USER_PAGES && q < USER_PAGES
    ensures NodeOf(4, p) == NodeOf(4, q) <==> p == q
  {
    SameNode(4, p, q);
  }

  /** Pages share a page table exactly when they lie in the same 512. */
  lemma SameTable(p: nat, q: nat)
    requires p < USER_PAGES && q < USER_PAGES
    ensures NodeOf(3, p) == NodeOf(3, q) <==> p / 512 == q / 512
  {
    SameNode(3, p, q);
  }

  /** The raw entry of a page is the word at its index in its page table. */
  lemma InTable(m: Ram, root: nat, p: nat)
    ensures Entry(m, root, p) == if 0 < TableAt(m, root, p) < |m| then m[TableAt(m, root, p)][p % 512] else NIL
  {
  }

  /** Page i of the b-th page table. */
  lemma InBlock(m: Ram, root: nat, b: nat, i: nat)
    requires 512 * b < USER_PAGES && i < 512
    ensures 512 * b + i < USER_PAGES && TableAt(m, root, 512 * b + i) == TableAt(m, root, 512 * b)
    ensures var t := TableAt(m, root, 512 * b);
            Entry(m, root, 512 * b + i) == if 0 < t < |m| then m[t][i] else NIL
  {
    assert (512 * b + i) / 512 == b && (512 * b + i) % 512 == i;
    SameTable(512 * b + i, 512 * b);
    InTable(m, root, 512 * b + i);
  }

  /** Nothing below a missing node is mapped. */
  lemma {:induction false} NothingBelow(m: Ram, root: nat, d: nat, p: nat)
    requires 1 <= d <= 4 && Slot(m, root, NodeOf(d, p)) == NIL
    ensures Entry(m, root, p) == NIL
    ensures d <= 3 ==> TableAt(m, root, p) == 0
    decreases 4 - d
  {
    if d < 4 {
      assert Tab(m, root, NodeOf(d, p)) == 0;
      NothingBelow(m, root, d + 1, p);
    }
  }
}
