/**
 Bitmaps made of 32-bit words, as the frame pieces and the heap slabs keep them.
 A word is the sequence of its bits, lowest first: `word | (1 << i)` is `word[i := true]`,
 `word & ~(1 << i)` is `word[i := false]`, and the word -1 is the one with every bit set.
 */
module Bitmap {

  const WORD_BITS := 32

  type Word = w: seq<bool> | |w| == WORD_BITS witness seq(WORD_BITS, _ => false)

  /** The bit that stands for item `i`; items past the end count as clear. */
  predicate Taken(words: seq<Word>, i: nat) {
    i / WORD_BITS < |words| && words[i / WORD_BITS][i % WORD_BITS]
  }

  /** The items below `n` whose bit is set. */
  ghost function TakenSet(words: seq<Word>, n: nat): (s: set<nat>) {
    set i: nat | i < n && Taken(words, i)
  }

  /** The numbers from `start` up, `amount` of them. */
  ghost function Range(start: nat, amount: nat): (s: set<nat>)
    ensures forall i: nat :: i in s <==> start <= i < start + amount
    ensures |s| == amount
    decreases amount
  {
    if amount == 0 then {} else Range(start, amount - 1) + {start + amount - 1}
  }

  /** `amount` consecutive items from `start`, all clear and all below `n`. */
  ghost predicate FreeRun(words: seq<Word>, n: nat, start: nat, amount: nat) {
    start + amount <= n && forall i: nat :: start <= i < start + amount ==> !Taken(words, i)
  }

  /** `words` with the bit of item `k` set to `b`. */
  ghost function Put(words: seq<Word>, k: nat, b: bool): (after: seq<Word>)
    requires k / WORD_BITS < |words|
    ensures forall i: nat :: Taken(after, i) <==> if i == k then b else Taken(words, i)
  {
    var after := words[k / WORD_BITS := words[k / WORD_BITS][k % WORD_BITS := b]];
    assert forall i: nat :: Taken(after, i) <==> if i == k then b else Taken(words, i) by {
      forall i: nat ensures Taken(after, i) <==> if i == k then b else Taken(words, i) {
        assert i == WORD_BITS * (i / WORD_BITS) + i % WORD_BITS;
      }
    }
    after
  }

  /** A free run fits into the clear items, so it is no longer than their number. */
  lemma FreeRunFits(words: seq<Word>, n: nat, start: nat, amount: nat)
    requires FreeRun(words, n, start, amount)
    ensures amount <= n - |TakenSet(words, n)|
  {
    var all, run, taken := Range(0, n), Range(start, amount), TakenSet(words, n);
    assert run <= all - taken;
    SubsetSize(run, all - taken);
    assert taken <= all;
    assert |all - taken| == |all| - |taken|;
  }

  lemma {:induction false} SubsetSize<T>(a: set<T>, b: set<T>)
    requires a <= b
    ensures |a| <= |b|
  {
    if a != {} {
      var x :| x in a;
      SubsetSize(a - {x}, b - {x});
    }
  }
}
