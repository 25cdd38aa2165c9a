/**
 mod/core/netstack/checksum.hpp and its uses: the checksum of RFC 1071 over 16-bit words in memory
 order, lowest byte first, for TCP segments and IPv4 headers.
 */
module Checksums {
  import opened Basics

  const ONES := 0xFFFF

  function Word(lo: Byte, hi: Byte): (w: nat)
    ensures w <= ONES
  {
    lo as int + 256 * (hi as int)
  }

  /** The sum of the 16-bit words; a last single byte counts as a word. */
  function WordSum(b: seq<Byte>): (s: nat)
    ensures 2 * s <= ONES * (|b| + 1)
  {
    if |b| == 0 then 0 else if |b| == 1 then b[0] as int else Word(b[0], b[1]) + WordSum(b[2..])
  }

  /** Sums of pieces add up, when all but the last have even length. */
  lemma {:induction false} WordSumSplit(a: seq<Byte>, b: seq<Byte>)
    requires |a| % 2 == 0
    ensures WordSum(a + b) == WordSum(a) + WordSum(b)
  {
    if a == [] {
      assert a + b == b;
    } else {
      assert (a + b)[2..] == a[2..] + b;
      WordSumSplit(a[2..], b);
    }
  }

  /** What byte number i adds. */
  function Worth(x: Byte, i: nat): nat {
    if i % 2 == 0 then x else 256 * x
  }

  /** The sum of the bytes by their places. */
  function ByteSum(b: seq<Byte>): nat {
    if b == [] then 0 else ByteSum(b[..|b| - 1]) + Worth(b[|b| - 1], |b| - 1)
  }

  lemma OneOrTwo(lo: Byte, hi: Byte)
    ensures WordSum([lo]) == lo && WordSum([lo, hi]) == lo + 256 * hi
  {
    assert [lo, hi][2..] == [];
  }

  /** What a byte behind an even number of bytes adds, and the one after it. */
  lemma Behind(p: seq<Byte>, x: Byte, y: Byte)
    requires |p| % 2 == 0
    ensures WordSum(p + [x]) == WordSum(p) + x
    ensures WordSum(p + [x, y]) == WordSum(p) + x + 256 * y
  {
    hide WordSum;
    OneOrTwo(x, y);
    WordSumSplit(p, [x]);
    WordSumSplit(p, [x, y]);
  }

  lemma Parity(n: nat)
    ensures n % 2 == 1 ==> (n - 1) % 2 == 0
    ensures n % 2 == 0 && n > 0 ==> n >= 2 && (n - 2) % 2 == 0 && (n - 1) % 2 == 1
  {
  }

  /** What the last byte adds. */
  lemma WordSumLast(b: seq<Byte>)
    requires b != []
    ensures WordSum(b) == WordSum(b[..|b| - 1]) + Worth(b[|b| - 1], |b| - 1)
  {
    hide WordSum;
    var n := |b|;
    Parity(n);
    if n % 2 == 1 {
      LastOdd(b[..n - 1], b[n - 1], b);
    } else {
      LastEven(b[..n - 2], b[n - 2], b[n - 1], b, b[..n - 1]);
    }
  }

  lemma LastOdd(p: seq<Byte>, x: Byte, b: seq<Byte>)
    requires |p| % 2 == 0 && |b| == |p| + 1 && b[..|p|] == p && b[|p|] == x
    ensures WordSum(b) == WordSum(p) + x
  {
    hide WordSum;
    assert b == p + [x];
    Behind(p, x, 0);
  }

  lemma LastEven(p: seq<Byte>, y: Byte, x: Byte, b: seq<Byte>, c: seq<Byte>)
    requires |p| % 2 == 0 && |b| == |p| + 2 && b[..|p|] == p && b[|p|] == y && b[|p| + 1] == x && c == b[..|p| + 1]
    ensures WordSum(b) == WordSum(c) + 256 * x
  {
    hide WordSum;
    assert b == p + [y, x];
    assert c == p + [y];
    Behind(p, y, x);
  }

  lemma {:induction false} WordSumIs(b: seq<Byte>)
    ensures WordSum(b) == ByteSum(b)
  {
    if b != [] {
      WordSumLast(b);
      hide WordSum;
      WordSumIs(b[..|b| - 1]);
    }
  }

  lemma {:induction false} ByteSumPut(b: seq<Byte>, i: nat, x: Byte)
    requires i < |b|
    ensures ByteSum(b[i := x]) == ByteSum(b) - Worth(b[i], i) + Worth(x, i)
  {
    var n := |b| - 1;
    if i < n {
      assert b[i := x][..n] == b[..n][i := x];
      ByteSumPut(b[..n], i, x);
    } else {
      assert b[i := x][..n] == b[..n];
    }
  }

  /** A word written over a zero word at an even place adds its value. */
  lemma WordSumPut(b: seq<Byte>, k: nat, lo: Byte, hi: Byte)
    requires k % 2 == 0 && k + 1 < |b| && b[k] == b[k + 1] == 0
    ensures WordSum(b[k := lo][k + 1 := hi]) == WordSum(b) + Word(lo, hi)
  {
    var b', rest := b[k := lo][k + 1 := hi], b[k + 2..];
    assert b == b[..k] + ([b[k], b[k + 1]] + rest) && b' == b[..k] + ([lo, hi] + rest);
    WordSumSplit(b[..k], [b[k], b[k + 1]] + rest);
    WordSumSplit(b[..k], [lo, hi] + rest);
    WordSumSplit([b[k], b[k + 1]], rest);
    WordSumSplit([lo, hi], rest);
  }

  /** sum_bytes. The 32-bit total does not overflow. */
  method SumBytes(b: seq<Byte>) returns (total: nat)
    requires |b| < 0x1_0000
    ensures total == ByteSum(b) == WordSum(b) < 0x8000_0000
  {
    hide WordSum, ByteSum;
    WordSumIs(b);
    total := 0;
    var i := 0;
    var none: seq<Byte> := [];
    assert b[..0] == none && WordSum(none) == 0 by { NoBytes(); }
    while i < |b| / 2
      invariant 0 <= i <= |b| / 2 && total == WordSum(b[..2 * i])
    {
      var w := [b[2 * i], b[2 * i + 1]];
      assert b[..2 * i + 2] == b[..2 * i] + w;
      WordSumSplit(b[..2 * i], w);
      OneOrTwo(b[2 * i], b[2 * i + 1]);
      total := total + Word(b[2 * i], b[2 * i + 1]);
      i := i + 1;
    }
    if |b| % 2 == 1 {
      assert b == b[..2 * i] + [b[2 * i]];
      WordSumSplit(b[..2 * i], [b[2 * i]]);
      OneOrTwo(b[2 * i], 0);
      total := total + b[|b| - 1];
    } else {
      assert b[..2 * i] == b;
    }
  }

  lemma NoBytes()
    ensures WordSum([]) == 0
  {
  }

  /** The value that folding ends with: between 1 and 65535 for every total but 0. */
  function Residue(total: nat): (r: nat)
    ensures r <= ONES && (r == 0 <==> total == 0)
  {
    if total == 0 then 0 else 1 + (total - 1) % ONES
  }

  /** One round of folding keeps the residue. */
  lemma FoldKeeps(total: nat)
    ensures Residue(total % 0x1_0000 + total / 0x1_0000) == Residue(total)
  {
    var hi, lo := total / 0x1_0000, total % 0x1_0000;
    assert total == lo + hi + ONES * hi;
    if total > 0 { ModShift(lo + hi - 1, hi); }
  }

  lemma ModShift(x: nat, k: nat)
    ensures (x + ONES * k) % ONES == x % ONES
  {
  }

  function Swap(w: nat): (r: nat)
    requires w <= ONES
    ensures r <= ONES && (r == 0 <==> w == 0)
  {
    w % 256 * 256 + w / 256
  }

  /** to_checksum: the loop ends, and only the residue matters. */
  method ToChecksum(sum: nat) returns (c: nat)
    ensures c == Swap(ONES - Residue(sum))
  {
    var total: nat := sum;
    while total / 0x1_0000 > 0
      invariant Residue(total) == Residue(sum)
      decreases total
    {
      FoldKeeps(total);
      total := total % 0x1_0000 + total / 0x1_0000;
    }
    assert total <= ONES && Residue(total) == total;
    c := Swap(ONES - total);
  }

  /** What the receivers ask for: the sum is not zero and a multiple of 65535. */
  predicate Accepted(sum: nat) {
    sum > 0 && sum % ONES == 0
  }

  lemma AcceptedExact(sum: nat)
    ensures Swap(ONES - Residue(sum)) == 0 <==> Accepted(sum)
  {
    if sum > 0 {
      var r := (sum - 1) % ONES;
      assert sum == (sum - 1) / ONES * ONES + r + 1;
      if r == ONES - 1 { ModShift(0, (sum - 1) / ONES + 1); } else { ModShift(r + 1, (sum - 1) / ONES); }
    }
  }

  /** A sum to which the complement of its residue is added is accepted. */
  lemma ComplementAccepted(sum: nat)
    ensures Accepted(sum + (ONES - Residue(sum)))
  {
    if sum > 0 {
      var q := (sum - 1) / ONES;
      assert sum + (ONES - Residue(sum)) == 0 + ONES * (q + 1);
      ModShift(0, q + 1);
    }
  }

  /** The bytes that storing the value c in a big-endian field puts in memory. */
  function Stored(c: nat): (r: (Byte, Byte))
    requires c <= ONES
  {
    (c / 256, c % 256)
  }

  /** The two byte swaps cancel: the word in memory is the complement itself. */
  lemma StoredWord(c: nat)
    requires c <= ONES
    ensures Word(Stored(Swap(c)).0, Stored(Swap(c)).1) == c
  {
    var hi, lo := c / 256, c % 256;
    assert Swap(c) == lo * 256 + hi;
    assert Swap(c) / 256 == lo && Swap(c) % 256 == hi;
  }

  /** The header with its checksum, at byte k, filled in for the sum of the packet without it. */
  function Filled(header: seq<Byte>, k: nat, sum: nat): (h: seq<Byte>)
    requires k + 1 < |header|
  {
    var w := Stored(Swap(ONES - Residue(sum)));
    header[k := w.0][k + 1 := w.1]
  }

  lemma FilledSum(header: seq<Byte>, k: nat, sum: nat)
    requires k % 2 == 0 && k + 1 < |header| && header[k] == header[k + 1] == 0
    ensures WordSum(Filled(header, k, sum)) == WordSum(header) + (ONES - Residue(sum))
  {
    var w := Stored(Swap(ONES - Residue(sum)));
    StoredWord(ONES - Residue(sum));
    WordSumPut(header, k, w.0, w.1);
  }

  /**
   sendSegment: the checksum over pseudo header, header and payload, summed piece by piece. What is
   sent is accepted by the receiver, which sums header and payload in one go, whatever the payload.
   */
  method BuildSegment(pseudo: seq<Byte>, header: seq<Byte>, payload: seq<Byte>) returns (segment: seq<Byte>)
    requires |pseudo| == 12 && |header| == 20 && header[16] == header[17] == 0 && |payload| < 0x1_0000 - 20
    ensures |segment| == 20 + |payload| && segment[..16] == header[..16] && segment[18..] == header[18..] + payload
    ensures Accepted(WordSum(pseudo) + WordSum(segment))
  {
    hide Residue, Swap, Stored, WordSum;
    var a := SumBytes(pseudo);
    var b := SumBytes(header);
    var c := SumBytes(payload);
    var checksum := ToChecksum(a + b + c);
    var w := Stored(checksum);
    var filled := header[16 := w.0][17 := w.1];
    assert filled == Filled(header, 16, a + b + c);
    segment := filled + payload;
    FilledSum(header, 16, a + b + c);
    WordSumSplit(filled, payload);
    ComplementAccepted(a + b + c);
  }

  /** The check of TCPLayer::parse. */
  method CheckSegment(pseudo: seq<Byte>, segment: seq<Byte>) returns (ok: bool)
    requires |pseudo| == 12 && |segment| < 0x1_0000
    ensures ok <==> Accepted(WordSum(pseudo) + WordSum(segment))
  {
    var a := SumBytes(pseudo);
    var b := SumBytes(segment);
    var c := ToChecksum(a + b);
    AcceptedExact(a + b);
    ok := c == 0;
  }

  /** Sums that differ by less than 65535 are not both multiples of it. */
  lemma NearSums(sum: nat, sum': nat)
    requires Accepted(sum) && sum' != sum && sum' < sum + ONES && sum < sum' + ONES
    ensures !Accepted(sum')
  {
  }

  /** One changed byte, anywhere in a packet that was accepted, is always noticed. */
  lemma ChangedByteFails(before: nat, b: seq<Byte>, i: nat, x: Byte)
    requires i < |b| && x != b[i] && Accepted(before + WordSum(b))
    ensures !Accepted(before + WordSum(b[i := x]))
  {
    hide Accepted, WordSum, ByteSum;
    WordSumIs(b);
    WordSumIs(b[i := x]);
    ByteSumPut(b, i, x);
    NearSums(before + WordSum(b), before + WordSum(b[i := x]));
  }

  /** IPv4Layer::send: a header of 20 bytes with its checksum filled in is accepted by IPv4Layer::parse. */
  method FillHeader(header: seq<Byte>) returns (filled: seq<Byte>)
    requires |header| == 20
    ensures |filled| == 20 && filled[..10] == header[..10] && filled[12..] == header[12..]
    ensures Accepted(WordSum(filled))
  {
    hide Residue, Swap, Stored, WordSum;
    var blank := header[10 := 0][11 := 0];
    var sum := SumBytes(blank);
    var checksum := ToChecksum(sum);
    var w := Stored(checksum);
    filled := blank[10 := w.0][11 := w.1];
    assert filled == Filled(blank, 10, sum);
    FilledSum(blank, 10, sum);
    ComplementAccepted(sum);
  }

  /** The check of IPv4Layer::parse. */
  method CheckHeader(header: seq<Byte>) returns (ok: bool)
    requires |header| < 0x1_0000
    ensures ok <==> Accepted(WordSum(header))
  {
    var sum := SumBytes(header);
    var c := ToChecksum(sum);
    AcceptedExact(sum);
    ok := c == 0;
  }
}
