/** 32-bit sequence numbers of mod/core/netstack/socket/inet/tcp.cpp and their true order. */
module SequenceNumbers {

  const M := 0x1_0000_0000
  const HALF := 0x8000_0000

  type u32 = n: nat | n < M

  /** Addition of uint32_t. */
  function Add(s: u32, n: nat): (r: u32)
    requires n < M
  {
    if s + n < M then s + n else s + n - M
  }

  /** How many steps it takes from `from` to s: the position of s in a stream that starts at `from`. */
  function Pos(from: u32, s: u32): (k: nat)
    ensures k < M
  {
    if s >= from then s - from else s + M - from
  }

  predicate IsBefore(val: u32, start: u32) {
    if val == start then false
    else if val > start then 0xFFFF_FFFF - val + start <= 0x7FFF_FFFF
    else start - val <= 0x7FFF_FFFF
  }

  predicate IsBeforeOrEqual(val: u32, start: u32) {
    if val == start then true
    else if val > start then 0xFFFF_FFFF - val + start <= 0x7FFF_FFFF
    else start - val <= 0x7FFF_FFFF
  }

  predicate IsAfterOrEqual(val: u32, start: u32) {
    !IsBefore(val, start)
  }

  lemma PosAdd(from: u32, s: u32, n: nat)
    requires n < M && Pos(from, s) + n < M
    ensures Pos(from, Add(s, n)) == Pos(from, s) + n
  {
  }

  function Distance(i: nat, j: nat): (d: nat) {
    if i <= j then j - i else i - j
  }

  /**
   The numbers lie less than 2^31 apart, or exactly 2^31 with the numbers themselves in the opposite
   order of their positions.
   */
  predicate Comparable(from: u32, s: u32, t: u32) {
    var i, j := Pos(from, s), Pos(from, t);
    Distance(i, j) < HALF || (Distance(i, j) == HALF && (i < j <==> s > t))
  }

  /** The comparisons agree with the order of the positions exactly for such numbers. */
  lemma OrderExact(from: u32, s: u32, t: u32)
    ensures (IsBefore(s, t) <==> Pos(from, s) < Pos(from, t)) <==> Comparable(from, s, t)
    ensures (IsBeforeOrEqual(s, t) <==> Pos(from, s) <= Pos(from, t)) <==> Comparable(from, s, t)
  {
  }

  /** At a distance of 2^31 the order of the two numbers is decided by their size. */
  lemma OrderAtHalf()
    ensures !IsBefore(0, HALF) && IsBefore(HALF, 0) && Pos(0, 0) < Pos(0, HALF)
    ensures IsBefore(HALF + 1, 0) && Pos(0, 0) < Pos(0, HALF + 1)
  {
  }
}
