/**
 mod/core/netstack/socket/inet/tcp.cpp: the data path of an established socket. Each event is what
 the code does between taking and releasing the socket lock.
 */
module Tcp {
  import opened Basics
  import opened SequenceNumbers

  const TX_SIZE := 4096
  const RX_SIZE := 8256
  const PROBE_SLACK := 64
  const RETRIES := 5

  type Mss = n: nat | 256 <= n <= 1460 witness 256     // clamped by readOptions
  type Bytes = d: seq<Byte> | |d| < 0x1_0000     // data_len is a uint16_t

  /** An entry of the retransmission queue. */
  datatype Segment = Segment(seqn: u32, ack: u32, data: Bytes, ackWith: u32, retries: nat)

  /** A segment on the wire, always with TCP_ACK. */
  datatype Packet = Packet(seqn: u32, ack: u32, window: nat, data: Bytes)

  /** The part of tcp_block that data transfer uses, the two buffers and the retransmission queue. */
  datatype Sock = Sock(sndUna: u32, sndNxt: u32, sndWnd: nat, sndMss: Mss, rcvNxt: u32,
                       sendingAck: bool, notify: bool, closed: bool, sendShut: bool, receiveShut: bool,
                       tx: seq<Byte>, rx: seq<Byte>, queue: seq<Segment>)

  /** getWindow. */
  function Window(s: Sock): (w: nat) {
    var room := RX_SIZE - 1 - |s.rx| - PROBE_SLACK;
    if room > 0 then room else 0
  }

  function PureAck(s: Sock, ack: u32): Packet {
    Packet(s.sndNxt, ack, Window(s), [])
  }

  /** sendSegment: the window is the current one, the acknowledgement that of the segment. */
  function Wire(s: Sock, g: Segment): Packet {
    Packet(g.seqn, g.ack, Window(s), g.data)
  }

  /** reset and _close. */
  function Closed(s: Sock): Sock {
    s.(closed := true, sendShut := true, receiveShut := true, queue := [])
  }

  /** The segments that an acknowledgement up to `ackn` leaves in the queue, in order. */
  function Unacked(queue: seq<Segment>, ackn: u32): (r: seq<Segment>)
    ensures forall g :: g in r <==> g in queue && !IsBeforeOrEqual(g.ackWith, ackn)
  {
    if queue == [] then []
    else
      var g, rest := queue[0], Unacked(queue[1..], ackn);
      assert queue == [g] + queue[1..];
      if IsBeforeOrEqual(g.ackWith, ackn) then rest else [g] + rest
  }

  lemma {:induction false} UnackedAppend(queue: seq<Segment>, g: Segment, ackn: u32)
    ensures Unacked(queue + [g], ackn)
         == Unacked(queue, ackn) + if IsBeforeOrEqual(g.ackWith, ackn) then [] else [g]
  {
    if queue == [] {
      assert queue + [g] == [g];
    } else {
      assert (queue + [g])[1..] == queue[1..] + [g];
      UnackedAppend(queue[1..], g, ackn);
    }
  }

  function Acked(s: Sock, p: Packet): Sock {
    var t := if IsAfterOrEqual(p.ack, s.sndUna) then s.(sndUna := p.ack, sndWnd := p.window) else s;
    t.(queue := Unacked(s.queue, p.ack))
  }

  /**
   In true positions: the acknowledged end moves to the larger of the two and the window follows it, exactly
   when the numbers are comparable.
   */
  lemma AckMoves(s: Sock, p: Packet, isn: u32)
    ensures var t, una, ack := Acked(s, p), Pos(isn, s.sndUna), Pos(isn, p.ack);
            (&& Pos(isn, t.sndUna) == Max(una, ack)
             && t.sndWnd == if ack >= una then p.window else s.sndWnd) <==>
              Comparable(isn, p.ack, s.sndUna)
  {
    OrderExact(isn, p.ack, s.sndUna);
  }

  predicate Overflows(s: Sock, p: Packet) {
    p.data != [] && p.seqn == s.rcvNxt && |s.rx| + |p.data| > RX_SIZE - 1
  }

  predicate Accepts(s: Sock, p: Packet) {
    p.data != [] && p.seqn == s.rcvNxt && !Overflows(s, p)
  }

  function Accepted(s: Sock, p: Packet): Sock {
    var rx := if s.receiveShut then s.rx else s.rx + p.data;
    var t := s.(rcvNxt := Add(s.rcvNxt, |p.data|), rx := rx, sendingAck := true);
    t.(notify := t.notify || Window(t) < RX_SIZE / 2)
  }

  /** What the data of a packet does. */
  function Taken(s: Sock, p: Packet): Sock {
    if Overflows(s, p) then Closed(s) else if Accepts(s, p) then Accepted(s, p) else s
  }

  /** Data that was accepted before is acknowledged again, up to its own end. */
  predicate IsRepeat(s: Sock, p: Packet) {
    p.data != [] && p.seqn != s.rcvNxt && IsBeforeOrEqual(Add(p.seqn, |p.data|), s.rcvNxt)
  }

  datatype Event =
    | Write(data: seq<Byte>)        // sendTo puts a chunk in the transmit buffer
    | Pack                          // one round of package
    | CompAck                       // the end of package
    | Retransmit(index: nat)        // one round of retransmit
    | Receive(packet: Packet)       // packetReceived
    | Read(count: nat)              // receiveFrom takes a chunk from the receive buffer
    | WindowUpdate
    | Shut                          // shutdown of the receiving side
    | Reset                         // for a reason outside this model

  predicate Enabled(s: Sock, e: Event) {
    match e
    case Write(data) => !s.closed && !s.sendShut && |s.tx| + |data| <= TX_SIZE - 1
    case Pack => !s.closed && s.tx != [] && s.sndWnd != 0
    case CompAck => !s.closed && s.sendingAck
    case Retransmit(i) => !s.closed && i < |s.queue|
    case Receive(_) => true
    case Read(n) => n <= |s.rx|
    case WindowUpdate => !s.closed && s.notify
    case Shut => true
    case Reset => true
  }

  /** The size of the next segment. */
  function PackSize(s: Sock): (n: nat)
    ensures n <= |s.tx| && n < 0x1_0000
  {
    Min(Min(|s.tx|, s.sndWnd), s.sndMss)
  }

  function NextSegment(s: Sock): Segment {
    Segment(s.sndNxt, s.rcvNxt, s.tx[..PackSize(s)], Add(s.sndNxt, PackSize(s)), 0)
  }

  /** The socket after the event. */
  function After(s: Sock, e: Event): Sock
    requires Enabled(s, e)
  {
    match e
    case Write(data) => s.(tx := s.tx + data)
    case Pack =>
      s.(sndNxt := Add(s.sndNxt, PackSize(s)), sndWnd := s.sndWnd - PackSize(s), tx := s.tx[PackSize(s)..],
         queue := s.queue + [NextSegment(s)], sendingAck := false)
    case CompAck => s.(sendingAck := false)
    case Retransmit(i) =>
      if s.queue[i].retries + 1 > RETRIES then Closed(s)
      else s.(queue := s.queue[i := s.queue[i].(retries := s.queue[i].retries + 1)])
    case Receive(p) => if s.closed then s else Taken(Acked(s, p), p)
    case Read(n) => s.(rx := s.rx[n..])
    case WindowUpdate => s.(notify := false)
    case Shut => s.(receiveShut := true)
    case Reset => Closed(s)
  }

  /** The packets that the event sends. */
  function Sent(s: Sock, e: Event): set<Packet>
    requires Enabled(s, e)
  {
    match e
    case Pack => {Wire(s, NextSegment(s))}
    case CompAck => {PureAck(s, s.rcvNxt)}
    case Retransmit(i) => if s.queue[i].retries + 1 > RETRIES then {} else {Wire(s, s.queue[i])}
    case Receive(p) =>
      if !s.closed && IsRepeat(Acked(s, p), p) then {PureAck(Acked(s, p), Add(p.seqn, |p.data|))} else {}
    case WindowUpdate => {PureAck(s, s.rcvNxt)}
    case _ => {}
  }

  /** The bytes that the event puts in the receive stream. */
  function Gained(s: Sock, e: Event): seq<Byte>
    requires Enabled(s, e)
  {
    if e.Receive? && !s.closed && Accepts(s, e.packet) && !s.receiveShut then e.packet.data else []
  }
}
