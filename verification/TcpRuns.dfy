/**
 Two established sockets over a network that may lose, duplicate, reorder and delay packets: a
 packet that was ever sent may arrive at any time, any number of times, or never.
 */
module TcpRuns {
  import opened Basics
  import opened SequenceNumbers
  import opened Tcp

  /**
   One end of the connection: the socket, the sequence number of its first byte, the bytes its
   application wrote, the bytes its receive stream got, and all packets it ever sent.
   */
  datatype Side = Side(sock: Sock, isn: u32, wrote: seq<Byte>, got: seq<Byte>, net: set<Packet>)

  /** Event e may happen at side x; what it receives has been sent by side y. */
  predicate Can(x: Side, y: Side, e: Event) {
    Enabled(x.sock, e) && (e.Receive? ==> e.packet in y.net)
  }

  function Next(x: Side, e: Event): (x': Side)
    requires Enabled(x.sock, e)
  {
    Side(After(x.sock, e), x.isn, if e.Write? then x.wrote + e.data else x.wrote,
         x.got + Gained(x.sock, e), x.net + Sent(x.sock, e))
  }

  /** How many bytes x has put in segments. */
  function Nxt(x: Side): nat {
    Pos(x.isn, x.sock.sndNxt)
  }

  /** How many bytes of x the side y has accepted. */
  function Acc(x: Side, y: Side): nat {
    Pos(x.isn, y.sock.rcvNxt)
  }

  /** The data at sequence number `seqn` is what x wrote there, and x has sent that far. */
  predicate Genuine(x: Side, seqn: u32, data: seq<Byte>) {
    var k := Pos(x.isn, seqn);
    k + |data| <= Nxt(x) <= |x.wrote| && data == x.wrote[k..k + |data|]
  }

  /** x holds back exactly the bytes it has not sent; whatever it has sent or queued is genuine. */
  predicate SenderOk(x: Side) {
    && Nxt(x) <= |x.wrote| < M && x.sock.tx == x.wrote[Nxt(x)..]
    && (forall p :: p in x.net && p.data != [] ==> Genuine(x, p.seqn, p.data))
    && (forall g :: g in x.sock.queue ==> Genuine(x, g.seqn, g.data) && g.ackWith == Add(g.seqn, |g.data|))
  }

  /** y has accepted no more than x sent, and its receive stream is a prefix of what x wrote. */
  predicate ReceiverOk(x: Side, y: Side) {
    && |y.got| <= Acc(x, y) <= Nxt(x)
    && y.got <= x.wrote
    && (!y.sock.receiveShut ==> |y.got| == Acc(x, y))
    && |y.sock.rx| <= |y.got| && y.got[|y.got| - |y.sock.rx|..] == y.sock.rx
    && |y.sock.rx| <= RX_SIZE - 1
  }

  /** The stream from x to y is in order. */
  predicate InOrder(x: Side, y: Side) {
    SenderOk(x) && ReceiverOk(x, y)
  }

  // Steps of the sender

  /** What receiving a packet does to the parts of the socket. */
  lemma ReceiveParts(s: Sock, p: Packet)
    ensures var t := After(s, Receive(p));
            && t.sndNxt == s.sndNxt && t.tx == s.tx && (forall g :: g in t.queue ==> g in s.queue)
            && (s.receiveShut ==> t.receiveShut) && (s.closed ==> t.closed)
            && if !s.closed && Accepts(s, p)
               then t.rcvNxt == Add(s.rcvNxt, |p.data|) && t.rx == s.rx + Gained(s, Receive(p))
                    && t.receiveShut == s.receiveShut
               else t.rcvNxt == s.rcvNxt && t.rx == s.rx && Gained(s, Receive(p)) == []
    ensures forall q :: q in Sent(s, Receive(p)) ==> q.data == []
  {
    hide Acked, Taken, Accepts;
    AckedParts(s, p);
    TakenParts(Acked(s, p), p);
  }

  lemma AckedParts(s: Sock, p: Packet)
    ensures var t := Acked(s, p);
            && t.sndNxt == s.sndNxt && t.tx == s.tx && (forall g :: g in t.queue ==> g in s.queue)
            && t.rcvNxt == s.rcvNxt && t.rx == s.rx && t.receiveShut == s.receiveShut && t.closed == s.closed
            && (Accepts(t, p) <==> Accepts(s, p))
  {
    hide IsBefore, IsBeforeOrEqual;
  }

  lemma TakenParts(s: Sock, p: Packet)
    ensures var t := Taken(s, p);
            && t.sndNxt == s.sndNxt && t.tx == s.tx && (forall g :: g in t.queue ==> g in s.queue)
            && (s.receiveShut ==> t.receiveShut) && (s.closed ==> t.closed)
            && if Accepts(s, p)
               then t.rcvNxt == Add(s.rcvNxt, |p.data|) && t.rx == s.rx + (if s.receiveShut then [] else p.data)
                    && t.receiveShut == s.receiveShut
               else t.rcvNxt == s.rcvNxt && t.rx == s.rx
  {
    hide Add;
  }

  /** The sender's part only depends on what is still queued and what was sent. */
  lemma SenderSame(x: Side, x': Side)
    requires SenderOk(x) && x'.isn == x.isn && x'.wrote == x.wrote
    requires x'.sock.sndNxt == x.sock.sndNxt && x'.sock.tx == x.sock.tx
    requires forall g :: g in x'.sock.queue ==> Genuine(x, g.seqn, g.data) && g.ackWith == Add(g.seqn, |g.data|)
    requires forall p :: p in x'.net && p.data != [] ==> Genuine(x, p.seqn, p.data)
    ensures SenderOk(x')
  {
  }

  lemma SenderStep(x: Side, y: Side, e: Event)
    requires SenderOk(x) && Can(x, y, e) && |Next(x, e).wrote| < M
    ensures SenderOk(Next(x, e)) && Nxt(x) <= Nxt(Next(x, e)) && x.wrote <= Next(x, e).wrote
  {
    var x' := Next(x, e);
    match e
    case Pack => PackStep(x);
    case Write(data) => WriteStep(x, data);
    case Receive(p) =>
      ReceiveParts(x.sock, p);
      hide After, Genuine, Accepts, Sent;
      SenderSame(x, x');
    case Retransmit(i) => RetransmitStep(x, i);
    case _ =>
      hide Genuine;
      SenderSame(x, x');
  }

  lemma WriteStep(x: Side, data: seq<Byte>)
    requires SenderOk(x) && Enabled(x.sock, Write(data)) && |x.wrote| + |data| < M
    ensures SenderOk(Next(x, Write(data))) && x.wrote <= x.wrote + data
  {
    var x' := Next(x, Write(data));
    assert x'.sock.tx == x'.wrote[Nxt(x)..];
    forall s: u32, d: seq<Byte> | Genuine(x, s, d) ensures Genuine(x', s, d) {
    }
  }

  lemma RetransmitStep(x: Side, i: nat)
    requires SenderOk(x) && Enabled(x.sock, Retransmit(i))
    ensures SenderOk(Next(x, Retransmit(i))) && Nxt(Next(x, Retransmit(i))) == Nxt(x)
  {
    hide Genuine;
    var g := x.sock.queue[i];
    assert g in x.sock.queue;
    SenderSame(x, Next(x, Retransmit(i)));
  }

  lemma PackStep(x: Side)
    requires SenderOk(x) && Enabled(x.sock, Pack)
    ensures SenderOk(Next(x, Pack)) && Nxt(Next(x, Pack)) == Nxt(x) + PackSize(x.sock)
  {
    var x', n, k := Next(x, Pack), PackSize(x.sock), Nxt(x);
    PosAdd(x.isn, x.sock.sndNxt, n);
    assert x'.sock.tx == x'.wrote[Nxt(x')..];
    assert NextSegment(x.sock).data == x.wrote[k..k + n];
    assert Genuine(x', x.sock.sndNxt, NextSegment(x.sock).data);
    forall g | g in x.sock.queue ensures Genuine(x', g.seqn, g.data) {
      assert Genuine(x, g.seqn, g.data);
    }
    forall p | p in x.net && p.data != [] ensures Genuine(x', p.seqn, p.data) {
      assert Genuine(x, p.seqn, p.data);
    }
  }

  lemma ReceiverKept(x: Side, y: Side, e: Event)
    requires InOrder(x, y) && Can(x, y, e) && |Next(x, e).wrote| < M
    ensures InOrder(Next(x, e), y)
  {
    SenderStep(x, y, e);
  }

  // Steps of the receiver

  /** Below 2^32 bytes the number that y expects belongs to one byte of the stream only. */
  lemma ExpectedPlace(x: Side, y: Side, p: Packet)
    requires InOrder(x, y) && p in x.net && Accepts(y.sock, p)
    ensures Pos(x.isn, p.seqn) == Acc(x, y) && Acc(x, y) + |p.data| <= Nxt(x) <= |x.wrote|
    ensures p.data == x.wrote[Acc(x, y)..Acc(x, y) + |p.data|]
    ensures Pos(x.isn, Add(y.sock.rcvNxt, |p.data|)) == Acc(x, y) + |p.data|
  {
    assert Genuine(x, p.seqn, p.data);
    PosAdd(x.isn, y.sock.rcvNxt, |p.data|);
  }

  lemma ReceiveStep(x: Side, y: Side, p: Packet)
    requires InOrder(x, y) && p in x.net
    ensures ReceiverOk(x, Next(y, Receive(p)))
  {
    hide After, SenderOk, Sent, Add, Pos;
    var y' := Next(y, Receive(p));
    ReceiveParts(y.sock, p);
    if !y.sock.closed && Accepts(y.sock, p) {
      ExpectedPlace(x, y, p);
      if !y.sock.receiveShut { StreamGrows(x.wrote, y.got, y.sock.rx, p.data); }
      assert y'.got == y.got + Gained(y.sock, Receive(p));
    } else {
      assert y'.got == y.got;
    }
  }

  lemma StreamGrows(wrote: seq<Byte>, got: seq<Byte>, rx: seq<Byte>, data: seq<Byte>)
    requires got <= wrote && |rx| <= |got| && got[|got| - |rx|..] == rx
    requires |got| + |data| <= |wrote| && data == wrote[|got|..|got| + |data|]
    ensures got + data <= wrote && (got + data)[|got| - |rx|..] == rx + data
  {
  }

  lemma ReceiverStep(x: Side, y: Side, e: Event)
    requires InOrder(x, y) && Can(y, x, e)
    ensures InOrder(x, Next(y, e))
  {
    match e
    case Receive(p) => ReceiveStep(x, y, p);
    case _ => assert y.got + [] == y.got;
  }

  // Nothing is lost

  /** Byte number k of what x wrote is in a segment of the retransmission queue. */
  predicate Held(x: Side, k: nat) {
    exists i :: 0 <= i < |x.sock.queue| && HeldBy(x, x.sock.queue[i], k)
  }

  predicate HeldBy(x: Side, g: Segment, k: nat) {
    Pos(x.isn, g.seqn) <= k < Pos(x.isn, g.seqn) + |g.data|
  }

  /** Until x is reset, every byte it has sent and y has not accepted is still queued. */
  predicate NoneLost(x: Side, y: Side) {
    !x.sock.closed ==> forall k :: Acc(x, y) <= k < Nxt(x) ==> Held(x, k)
  }

  /** No acknowledgement of y, sent or queued, exceeds what y has accepted. */
  predicate AcksOk(x: Side, y: Side) {
    && (forall p :: p in y.net ==> Pos(x.isn, p.ack) <= Acc(x, y))
    && (forall g :: g in y.sock.queue ==> Pos(x.isn, g.ack) <= Acc(x, y))
  }

  /** The right edge of the receive window of y. */
  function Edge(x: Side, y: Side): nat {
    Acc(x, y) + Window(y.sock)
  }

  /** No edge that y advertised lies beyond its current one. */
  predicate EdgesOk(x: Side, y: Side) {
    forall p :: p in y.net ==> Pos(x.isn, p.ack) + p.window <= Edge(x, y)
  }

  /** Where a segment ends in the stream. */
  function End(isn: u32, g: Segment): nat {
    Pos(isn, g.seqn) + |g.data|
  }

  /** No segment of the queue is empty, and each ends before the later ones start. */
  predicate Layered(isn: u32, queue: seq<Segment>) {
    queue == [] || (&& queue[0].data != [] && Layered(isn, queue[1..])
                    && forall g :: g in queue[1..] ==> End(isn, queue[0]) <= Pos(isn, g.seqn))
  }

  predicate Complete(x: Side, y: Side) {
    InOrder(x, y) && Layered(x.isn, x.sock.queue) && NoneLost(x, y) && AcksOk(x, y) && EdgesOk(x, y)
  }

  /** The acknowledgement in p is rightly compared with every queued segment that y has not accepted. */
  predicate SafeAck(x: Side, y: Side, p: Packet) {
    forall g :: g in x.sock.queue && End(x.isn, g) > Acc(x, y) ==> Comparable(x.isn, g.ackWith, p.ack)
  }

  /** Data beyond what y has accepted is not taken for a repetition. */
  predicate SafeData(x: Side, y: Side, p: Packet) {
    p.data != [] && p.seqn != y.sock.rcvNxt && Pos(x.isn, p.seqn) + |p.data| > Acc(x, y) ==>
      Comparable(x.isn, Add(p.seqn, |p.data|), y.sock.rcvNxt)
  }

  /** When x handles a packet and stays open, these comparisons come out right. */
  predicate Safe(x: Side, y: Side, e: Event) {
    e.Receive? && !After(x.sock, e).closed ==> SafeAck(x, y, e.packet) && SafeData(y, x, e.packet)
  }

  /** An acknowledgement removes a segment that has not been accepted exactly when it is compared wrongly. */
  lemma AckRemoves(x: Side, y: Side, p: Packet, g: Segment)
    requires InOrder(x, y) && AcksOk(x, y) && p in y.net && g in x.sock.queue && End(x.isn, g) > Acc(x, y)
    ensures IsBeforeOrEqual(g.ackWith, p.ack) <==> !Comparable(x.isn, g.ackWith, p.ack)
  {
    assert Genuine(x, g.seqn, g.data);
    PosAdd(x.isn, g.seqn, |g.data|);
    OrderExact(x.isn, g.ackWith, p.ack);
  }

  lemma {:induction false} LayeredAppend(isn: u32, queue: seq<Segment>, g: Segment)
    requires Layered(isn, queue) && g.data != [] && forall h :: h in queue ==> End(isn, h) <= Pos(isn, g.seqn)
    ensures Layered(isn, queue + [g])
  {
    if queue != [] {
      assert (queue + [g])[1..] == queue[1..] + [g];
      LayeredAppend(isn, queue[1..], g);
    }
  }

  lemma {:induction false} LayeredUnacked(isn: u32, queue: seq<Segment>, ackn: u32)
    requires Layered(isn, queue)
    ensures Layered(isn, Unacked(queue, ackn))
  {
    if queue != [] {
      var rest := Unacked(queue[1..], ackn);
      LayeredUnacked(isn, queue[1..], ackn);
      assert ([queue[0]] + rest)[1..] == rest;
    }
  }

  /** Counting a retry changes no place. */
  lemma {:induction false} LayeredRetry(isn: u32, queue: seq<Segment>, i: nat, n: nat)
    requires Layered(isn, queue) && i < |queue|
    ensures Layered(isn, queue[i := queue[i].(retries := n)])
  {
    var g := queue[i].(retries := n);
    var queue' := queue[i := g];
    if i == 0 {
      assert queue'[1..] == queue[1..];
    } else {
      assert queue'[1..] == queue[1..][i - 1 := g];
      LayeredRetry(isn, queue[1..], i - 1, n);
      assert queue[i] in queue[1..];
    }
  }

  /** No byte is in two segments of the queue. */
  lemma {:induction false} OneHolder(isn: u32, queue: seq<Segment>, g: Segment, h: Segment, k: nat)
    requires Layered(isn, queue) && g in queue && h in queue
    requires Pos(isn, g.seqn) <= k < End(isn, g) && Pos(isn, h.seqn) <= k < End(isn, h)
    ensures g == h
  {
    assert queue == [queue[0]] + queue[1..];
    if g != queue[0] && h != queue[0] { OneHolder(isn, queue[1..], g, h, k); }
  }

  lemma QueueStep(x: Side, y: Side, e: Event)
    requires InOrder(x, y) && Layered(x.isn, x.sock.queue) && Can(x, y, e)
    ensures Layered(x.isn, After(x.sock, e).queue)
  {
    match e
    case Receive(p) =>
      ReceiveKeepsQueue(x.sock, p);
      ReceiveClosed(x.sock, p);
      LayeredUnacked(x.isn, x.sock.queue, p.ack);
    case Retransmit(i) => LayeredRetry(x.isn, x.sock.queue, i, x.sock.queue[i].retries + 1);
    case Pack =>
      forall h | h in x.sock.queue ensures End(x.isn, h) <= Nxt(x) {
        assert Genuine(x, h.seqn, h.data);
      }
      LayeredAppend(x.isn, x.sock.queue, NextSegment(x.sock));
    case _ =>
  }

  /** A socket that a packet closes has an empty queue; one that was closed before does not change. */
  lemma ReceiveClosed(s: Sock, p: Packet)
    ensures var t := After(s, Receive(p)); t.closed ==> t.queue == [] || t == s
  {
    AckedParts(s, p);
    hide Acked;
  }

  /** A queue that keeps every segment with unaccepted bytes loses nothing. */
  lemma StillHeld(x: Side, x': Side, y: Side)
    requires NoneLost(x, y) && Nxt(x') == Nxt(x) && x'.isn == x.isn && (!x'.sock.closed ==> !x.sock.closed)
    requires !x'.sock.closed ==> forall g, k :: g in x.sock.queue && Acc(x, y) <= k && HeldBy(x, g, k) ==> Held(x', k)
    ensures NoneLost(x', y)
  {
    if !x'.sock.closed {
      forall k | Acc(x, y) <= k < Nxt(x) ensures Held(x', k) {
        assert Held(x, k);
        var i :| 0 <= i < |x.sock.queue| && HeldBy(x, x.sock.queue[i], k);
      }
    }
  }

  lemma ReceiveKeepsQueue(s: Sock, p: Packet)
    ensures var t := After(s, Receive(p));
            && (t.closed ==> s.closed || Overflows(s, p))
            && (!t.closed ==> !s.closed && t.queue == Unacked(s.queue, p.ack))
  {
    hide Add, Pos, IsBefore;
    ghost var a := Acked(s, p);
    assert a.closed == s.closed && a.queue == Unacked(s.queue, p.ack) && (Overflows(a, p) <==> Overflows(s, p));
    hide Acked;
  }

  /**
   The exact condition: when a socket that stays open handles a packet, nothing is lost if and only if
   the acknowledgement is rightly compared with every queued segment that was not accepted.
   */
  lemma ReceiveExact(x: Side, y: Side, p: Packet)
    requires Complete(x, y) && p in y.net && !After(x.sock, Receive(p)).closed
    ensures NoneLost(Next(x, Receive(p)), y) <==> SafeAck(x, y, p)
  {
    hide After, Sent, Layered;
    var x' := Next(x, Receive(p));
    ReceiveParts(x.sock, p);
    ReceiveKeepsQueue(x.sock, p);
    if SafeAck(x, y, p) {
      SafeKeeps(x, x', y, p);
    } else {
      var g :| g in x.sock.queue && End(x.isn, g) > Acc(x, y) && !Comparable(x.isn, g.ackWith, p.ack);
      AckRemoves(x, y, p, g);
      LosesLast(x, x', y, g);
    }
  }

  lemma SafeKeeps(x: Side, x': Side, y: Side, p: Packet)
    requires Complete(x, y) && p in y.net && SafeAck(x, y, p) && x'.isn == x.isn && Nxt(x') == Nxt(x)
    requires !x.sock.closed && x'.sock.queue == Unacked(x.sock.queue, p.ack)
    ensures NoneLost(x', y)
  {
    hide Layered;
    forall g, k | !x'.sock.closed && g in x.sock.queue && Acc(x, y) <= k && HeldBy(x, g, k) ensures Held(x', k) {
      AckRemoves(x, y, p, g);
      assert g in x'.sock.queue;
      var i :| 0 <= i < |x'.sock.queue| && x'.sock.queue[i] == g;
    }
    StillHeld(x, x', y);
  }

  /** Without segment g its last byte is held by nobody. */
  lemma LosesLast(x: Side, x': Side, y: Side, g: Segment)
    requires SenderOk(x) && Layered(x.isn, x.sock.queue) && g in x.sock.queue && End(x.isn, g) > Acc(x, y)
    requires x'.isn == x.isn && Nxt(x') == Nxt(x) && !x'.sock.closed && g !in x'.sock.queue
    requires forall h :: h in x'.sock.queue ==> h in x.sock.queue
    ensures !NoneLost(x', y)
  {
    hide Layered;
    var k := End(x.isn, g) - 1;
    assert Genuine(x, g.seqn, g.data) && g.data != [] by { NotEmpty(x.isn, x.sock.queue, g); }
    assert Acc(x, y) <= k < Nxt(x');
    if Held(x', k) {
      var i :| 0 <= i < |x'.sock.queue| && HeldBy(x', x'.sock.queue[i], k);
      OneHolder(x.isn, x.sock.queue, g, x'.sock.queue[i], k);
    }
  }

  lemma {:induction false} NotEmpty(isn: u32, queue: seq<Segment>, g: Segment)
    requires Layered(isn, queue) && g in queue
    ensures g.data != []
  {
    assert queue == [queue[0]] + queue[1..];
    if g != queue[0] { NotEmpty(isn, queue[1..], g); }
  }

  lemma ReceiveLosesNothing(x: Side, y: Side, p: Packet)
    requires Complete(x, y) && p in y.net && Safe(x, y, Receive(p))
    ensures NoneLost(Next(x, Receive(p)), y)
  {
    hide After, Sent, Layered, InOrder;
    if !After(x.sock, Receive(p)).closed { ReceiveExact(x, y, p); }
  }

  lemma PackLosesNothing(x: Side, y: Side)
    requires Complete(x, y) && Enabled(x.sock, Pack)
    ensures NoneLost(Next(x, Pack), y)
  {
    var x' := Next(x, Pack);
    PackStep(x);
    forall k | Acc(x, y) <= k < Nxt(x') ensures Held(x', k) {
      if k < Nxt(x) {
        assert Held(x, k);
        var i :| 0 <= i < |x.sock.queue| && HeldBy(x, x.sock.queue[i], k);
        assert HeldBy(x', x'.sock.queue[i], k);
      } else {
        assert HeldBy(x', x'.sock.queue[|x.sock.queue|], k);
      }
    }
  }

  lemma RetransmitLosesNothing(x: Side, y: Side, i: nat)
    requires Complete(x, y) && Enabled(x.sock, Retransmit(i))
    ensures NoneLost(Next(x, Retransmit(i)), y)
  {
    var x' := Next(x, Retransmit(i));
    if !x'.sock.closed {
      forall k | Acc(x, y) <= k < Nxt(x) ensures Held(x', k) {
        assert Held(x, k);
        var j :| 0 <= j < |x.sock.queue| && HeldBy(x, x.sock.queue[j], k);
        assert HeldBy(x', x'.sock.queue[j], k);
      }
    }
  }

  lemma SenderLosesNothing(x: Side, y: Side, e: Event)
    requires Complete(x, y) && Can(x, y, e) && Safe(x, y, e)
    ensures NoneLost(Next(x, e), y)
  {
    match e
    case Receive(p) => ReceiveLosesNothing(x, y, p);
    case Pack => PackLosesNothing(x, y);
    case Retransmit(i) => RetransmitLosesNothing(x, y, i);
    case Reset =>
    case _ => SameQueue(x, Next(x, e), y);
  }

  lemma SameQueue(x: Side, x': Side, y: Side)
    requires NoneLost(x, y) && Nxt(x') == Nxt(x) && x'.isn == x.isn
    requires x'.sock.closed == x.sock.closed && x'.sock.queue == x.sock.queue
    ensures NoneLost(x', y)
  {
    forall g, k | g in x.sock.queue && Acc(x, y) <= k && HeldBy(x, g, k) ensures Held(x', k) {
      var i :| 0 <= i < |x.sock.queue| && x.sock.queue[i] == g;
      assert HeldBy(x', x'.sock.queue[i], k);
    }
    StillHeld(x, x', y);
  }

  /** A step of the sender. */
  lemma SenderCompletes(x: Side, y: Side, e: Event)
    requires Complete(x, y) && Can(x, y, e) && Safe(x, y, e) && |Next(x, e).wrote| < M
    ensures Complete(Next(x, e), y)
  {
    hide After, Sent, NoneLost, InOrder, Enabled, Safe, Layered;
    ReceiverKept(x, y, e);
    QueueStep(x, y, e);
    SenderLosesNothing(x, y, e);
  }

  /** Data that y takes for a repetition has been accepted, exactly when the comparison is right. */
  lemma RepeatAccepted(x: Side, y: Side, p: Packet)
    requires InOrder(x, y) && p in x.net && IsRepeat(y.sock, p)
    ensures Pos(x.isn, Add(p.seqn, |p.data|)) <= Acc(x, y) <==> SafeData(x, y, p)
  {
    assert Genuine(x, p.seqn, p.data);
    PosAdd(x.isn, p.seqn, |p.data|);
    OrderExact(x.isn, Add(p.seqn, |p.data|), y.sock.rcvNxt);
  }

  /** Steps of y never take back what it accepted or the space it announced. */
  lemma EdgeMoves(x: Side, y: Side, e: Event)
    requires InOrder(x, y) && Can(y, x, e)
    ensures Acc(x, y) <= Acc(x, Next(y, e)) && Edge(x, y) <= Edge(x, Next(y, e))
  {
    if e.Receive? {
      hide After, Sent, SenderOk;
      ReceiveParts(y.sock, e.packet);
      if !y.sock.closed && Accepts(y.sock, e.packet) { ExpectedPlace(x, y, e.packet); }
    }
  }

  /** What y sends carries no acknowledgement beyond what it accepted, and no window beyond its own. */
  lemma SentAcks(x: Side, y: Side, e: Event, q: Packet)
    requires InOrder(x, y) && AcksOk(x, y) && Can(y, x, e) && Safe(y, x, e) && q in Sent(y.sock, e)
    ensures Pos(x.isn, q.ack) <= Acc(x, y) && q.window == Window(y.sock)
  {
    match e
    case Receive(p) =>
      AckedParts(y.sock, p);
      RepeatStaysOpen(y.sock, p);
      hide Acked, SenderOk, Add, After;
      RepeatAccepted(x, y, p);
    case Retransmit(i) => assert y.sock.queue[i] in y.sock.queue;
    case _ =>
  }

  /** A repetition does not close the socket. */
  lemma RepeatStaysOpen(s: Sock, p: Packet)
    requires !s.closed && IsRepeat(s, p)
    ensures !After(s, Receive(p)).closed
  {
    AckedParts(s, p);
    hide Acked, Add, IsBeforeOrEqual;
  }

  /** Entries that an event adds to the queue, or changes, keep such an acknowledgement. */
  lemma QueuedAcks(x: Side, y: Side, e: Event, g: Segment)
    requires AcksOk(x, y) && Can(y, x, e) && g in After(y.sock, e).queue
    ensures Pos(x.isn, g.ack) <= Acc(x, y)
  {
    match e
    case Receive(p) => ReceiveParts(y.sock, p);
    case Retransmit(i) => assert y.sock.queue[i] in y.sock.queue;
    case _ =>
  }

  /** A step of the receiver. */
  lemma ReceiverCompletes(x: Side, y: Side, e: Event)
    requires Complete(x, y) && Can(y, x, e) && Safe(y, x, e)
    ensures Complete(x, Next(y, e))
  {
    hide After, Sent, SenderOk, ReceiverOk, Enabled, Window, Pos, Safe, Layered;
    ReceiverStep(x, y, e);
    EdgeMoves(x, y, e);
    forall q | q in Sent(y.sock, e) ensures Pos(x.isn, q.ack) <= Acc(x, y) && q.window == Window(y.sock) {
      SentAcks(x, y, e, q);
    }
    forall g | g in After(y.sock, e).queue ensures Pos(x.isn, g.ack) <= Acc(x, y) {
      QueuedAcks(x, y, e, g);
    }
  }

  /** A packet that ends within an edge y once had is never too long for its buffer. */
  lemma WithinEdge(x: Side, y: Side, p: Packet)
    requires ReceiverOk(x, y) && Pos(x.isn, p.seqn) + |p.data| <= Edge(x, y)
    ensures !Overflows(y.sock, p)
  {
  }

  // Whole runs

  datatype Connection = Connection(a: Side, b: Side)
  datatype Step = Step(atA: bool, event: Event)

  predicate Fresh(x: Side, y: Side) {
    && x.sock.sndUna == x.sock.sndNxt == x.isn && y.sock.rcvNxt == x.isn
    && x.sock.tx == x.sock.rx == x.wrote == x.got == [] && x.sock.queue == [] && x.net == {}
    && !x.sock.closed && !x.sock.receiveShut && !x.sock.sendShut
  }

  /** Both sides have just reached TCP_ESTABLISHED. */
  predicate Established(c: Connection) {
    Fresh(c.a, c.b) && Fresh(c.b, c.a)
  }

  predicate Moves(c: Connection, c': Connection, s: Step) {
    if s.atA then Can(c.a, c.b, s.event) && c' == Connection(Next(c.a, s.event), c.b)
    else Can(c.b, c.a, s.event) && c' == Connection(c.a, Next(c.b, s.event))
  }

  predicate Run(states: seq<Connection>, steps: seq<Step>) {
    && |states| == |steps| + 1 && Established(states[0])
    && forall i :: 0 <= i < |steps| ==> Moves(states[i], states[i + 1], steps[i])
  }

  /** Each side writes fewer than 2^32 bytes. */
  predicate Short(c: Connection) {
    |c.a.wrote| < M && |c.b.wrote| < M
  }

  predicate StepSafe(c: Connection, s: Step) {
    if s.atA then Safe(c.a, c.b, s.event) else Safe(c.b, c.a, s.event)
  }

  predicate AllSafe(states: seq<Connection>, steps: seq<Step>)
    requires Run(states, steps)
  {
    forall i :: 0 <= i < |steps| ==> StepSafe(states[i], steps[i])
  }

  /** Nothing is lost in either direction. */
  predicate BothComplete(c: Connection) {
    Complete(c.a, c.b) && Complete(c.b, c.a)
  }

  lemma MoveInOrder(c: Connection, c': Connection, s: Step)
    requires InOrder(c.a, c.b) && InOrder(c.b, c.a) && Moves(c, c', s) && Short(c')
    ensures InOrder(c'.a, c'.b) && InOrder(c'.b, c'.a) && c'.a.isn == c.a.isn && c'.b.isn == c.b.isn
    ensures Edge(c.a, c.b) <= Edge(c'.a, c'.b) && Edge(c.b, c.a) <= Edge(c'.b, c'.a)
  {
    hide InOrder, Can, Next;
    if s.atA {
      MoveSide(c.a, c.b, s.event);
    } else {
      MoveSide(c.b, c.a, s.event);
    }
  }

  lemma MoveSide(x: Side, y: Side, e: Event)
    requires InOrder(x, y) && InOrder(y, x) && Can(x, y, e) && |Next(x, e).wrote| < M
    ensures InOrder(Next(x, e), y) && InOrder(y, Next(x, e)) && Next(x, e).isn == x.isn
    ensures Edge(x, y) <= Edge(Next(x, e), y) && Edge(y, x) <= Edge(y, Next(x, e))
  {
    hide InOrder, After, Sent, Enabled;
    ReceiverKept(x, y, e);
    ReceiverStep(y, x, e);
    EdgeMoves(y, x, e);
  }

  lemma MoveShort(c: Connection, c': Connection, s: Step)
    requires Moves(c, c', s) && Short(c')
    ensures Short(c)
  {
    hide After, Sent, Enabled;
  }

  lemma {:induction false} InOrderAt(states: seq<Connection>, steps: seq<Step>, i: nat)
    requires Run(states, steps) && i <= |steps| && Short(states[i])
    ensures InOrder(states[i].a, states[i].b) && InOrder(states[i].b, states[i].a)
  {
    if i == 0 {
      EstablishedComplete(states[0]);
    } else {
      assert Moves(states[i - 1], states[i], steps[i - 1]);
      hide InOrder, Moves, Edge, Short, Established;
      MoveShort(states[i - 1], states[i], steps[i - 1]);
      InOrderAt(states, steps, i - 1);
      MoveInOrder(states[i - 1], states[i], steps[i - 1]);
    }
  }

  /** The right edge of the receive window never moves left. */
  lemma {:induction false} EdgeNeverMovesLeft(states: seq<Connection>, steps: seq<Step>, i: nat, j: nat)
    requires Run(states, steps) && i <= j <= |steps| < |states| && Short(states[j])
    ensures states[j].a.isn == states[i].a.isn && states[j].b.isn == states[i].b.isn
    ensures Edge(states[i].a, states[i].b) <= Edge(states[j].a, states[j].b)
    ensures Edge(states[i].b, states[i].a) <= Edge(states[j].b, states[j].a)
    decreases j - i
  {
    hide *;
    if i < j {
      EdgeStep(states, steps, j);
      EdgeNeverMovesLeft(states, steps, i, j - 1);
    }
  }

  lemma EdgeStep(states: seq<Connection>, steps: seq<Step>, j: nat)
    requires Run(states, steps) && 0 < j <= |steps| && Short(states[j])
    ensures states[j].a.isn == states[j - 1].a.isn && states[j].b.isn == states[j - 1].b.isn && Short(states[j - 1])
    ensures Edge(states[j - 1].a, states[j - 1].b) <= Edge(states[j].a, states[j].b)
    ensures Edge(states[j - 1].b, states[j - 1].a) <= Edge(states[j].b, states[j].a)
  {
    hide InOrder, Edge, Short, Established, Moves;
    assert Moves(states[j - 1], states[j], steps[j - 1]);
    MoveShort(states[j - 1], states[j], steps[j - 1]);
    InOrderAt(states, steps, j - 1);
    MoveInOrder(states[j - 1], states[j], steps[j - 1]);
  }

  lemma EstablishedComplete(c: Connection)
    requires Established(c)
    ensures BothComplete(c)
  {
    hide Complete;
    FreshComplete(c.a, c.b);
    FreshComplete(c.b, c.a);
  }

  lemma FreshComplete(x: Side, y: Side)
    requires Fresh(x, y) && Fresh(y, x)
    ensures Complete(x, y)
  {
    assert Nxt(x) == 0 && Acc(x, y) == 0;
    FreshInOrder(x, y);
    hide InOrder, Held, Window;
    assert NoneLost(x, y) && AcksOk(x, y) && EdgesOk(x, y);
  }

  lemma FreshInOrder(x: Side, y: Side)
    requires Fresh(x, y) && Fresh(y, x)
    ensures InOrder(x, y)
  {
    var none: seq<Byte> := [];
    assert x.wrote == none && y.got == none && x.sock.tx == none && y.sock.rx == none && none[0..] == none;
    FreshSender(x, none);
    FreshReceiver(x, y, none);
  }

  lemma FreshSender(x: Side, none: seq<Byte>)
    requires none == [] && x.wrote == none && x.sock.tx == none && x.sock.queue == [] && x.sock.sndNxt == x.isn
    requires forall p :: p in x.net ==> p.data == []
    ensures SenderOk(x)
  {
    hide Genuine;
    assert Nxt(x) == 0 && x.wrote[0..] == none;
  }

  lemma FreshReceiver(x: Side, y: Side, none: seq<Byte>)
    requires none == [] && x.wrote == none && y.got == none && y.sock.rx == none
    requires x.sock.sndNxt == x.isn && y.sock.rcvNxt == x.isn
    ensures ReceiverOk(x, y)
  {
    assert Nxt(x) == 0 && Acc(x, y) == 0 && y.got[0..] == none;
  }

  /**
   Whatever the network does to the packets, the bytes in each receive stream are a prefix of the
   bytes that the other side's application wrote.
   */
  lemma ReceivedIsPrefix(states: seq<Connection>, steps: seq<Step>)
    requires Run(states, steps) && Short(states[|steps|])
    ensures states[|steps|].b.got <= states[|steps|].a.wrote
    ensures states[|steps|].a.got <= states[|steps|].b.wrote
  {
    InOrderAt(states, steps, |steps|);
  }

  /** Data within an edge that was current at any time before is never answered with a reset. */
  lemma AdvertisedIsSafe(states: seq<Connection>, steps: seq<Step>, i: nat, j: nat, p: Packet)
    requires Run(states, steps) && i <= j <= |steps| && Short(states[j])
    ensures Pos(states[i].a.isn, p.seqn) + |p.data| <= Edge(states[i].a, states[i].b) ==>
              !Overflows(states[j].b.sock, p)
    ensures Pos(states[i].b.isn, p.seqn) + |p.data| <= Edge(states[i].b, states[i].a) ==>
              !Overflows(states[j].a.sock, p)
  {
    hide Edge, SenderOk, ReceiverOk, Overflows, Moves, Short, Pos;
    InOrderAt(states, steps, j);
    EdgeNeverMovesLeft(states, steps, i, j);
    var c := states[j];
    if Pos(c.a.isn, p.seqn) + |p.data| <= Edge(c.a, c.b) { WithinEdge(c.a, c.b, p); }
    if Pos(c.b.isn, p.seqn) + |p.data| <= Edge(c.b, c.a) { WithinEdge(c.b, c.a, p); }
  }

  /**
   When these comparisons come out right, nothing is lost: until a side is reset, every byte it sent
   that the other has not accepted is queued, and the rest is in its transmit buffer.
   */
  lemma {:induction false} NothingIsLost(states: seq<Connection>, steps: seq<Step>, k: nat)
    requires Run(states, steps) && Short(states[|steps|]) && AllSafe(states, steps) && k <= |steps|
    ensures BothComplete(states[k]) && Short(states[k])
    decreases k
  {
    hide BothComplete, Moves, Short, Established, StepSafe;
    ShortAt(states, steps, k, |steps|);
    if k == 0 {
      EstablishedComplete(states[0]);
    } else {
      assert Moves(states[k - 1], states[k], steps[k - 1]) && StepSafe(states[k - 1], steps[k - 1]);
      NothingIsLost(states, steps, k - 1);
      MoveCompletes(states[k - 1], states[k], steps[k - 1]);
    }
  }

  lemma {:induction false} ShortAt(states: seq<Connection>, steps: seq<Step>, i: nat, j: nat)
    requires Run(states, steps) && i <= j <= |steps| && Short(states[j])
    ensures Short(states[i])
    decreases j - i
  {
    hide Moves, Short, Established;
    if i < j {
      assert Moves(states[j - 1], states[j], steps[j - 1]);
      MoveShort(states[j - 1], states[j], steps[j - 1]);
      ShortAt(states, steps, i, j - 1);
    }
  }

  /** A run loses nothing, in either direction and at any time, if and only if all its steps are safe. */
  lemma LossExact(states: seq<Connection>, steps: seq<Step>)
    requires Run(states, steps) && Short(states[|steps|])
    ensures (forall k :: 0 <= k < |states| ==> BothComplete(states[k])) <==> AllSafe(states, steps)
  {
    hide BothComplete, Moves, Short, Established, StepSafe;
    if AllSafe(states, steps) {
      forall k | 0 <= k < |states| ensures BothComplete(states[k]) {
        NothingIsLost(states, steps, k);
      }
    }
    if forall k :: 0 <= k < |states| ==> BothComplete(states[k]) {
      forall i | 0 <= i < |steps| ensures StepSafe(states[i], steps[i]) {
        assert BothComplete(states[i]) && BothComplete(states[i + 1]);
        ShortAt(states, steps, i + 1, |steps|);
        MoveExact(states[i], states[i + 1], steps[i]);
      }
    }
  }

  /** A peer that stays within an edge that any packet ever advertised never causes the overflow reset. */
  lemma AdvertisedOnWireIsSafe(states: seq<Connection>, steps: seq<Step>, q: Packet, p: Packet)
    requires Run(states, steps) && Short(states[|steps|]) && AllSafe(states, steps)
    ensures var c := states[|steps|];
            && (q in c.b.net && Pos(c.a.isn, p.seqn) + |p.data| <= Pos(c.a.isn, q.ack) + q.window ==>
                  !Overflows(c.b.sock, p))
            && (q in c.a.net && Pos(c.b.isn, p.seqn) + |p.data| <= Pos(c.b.isn, q.ack) + q.window ==>
                  !Overflows(c.a.sock, p))
  {
    hide Moves, Short, StepSafe, AllSafe, Complete, Overflows, Pos;
    NothingIsLost(states, steps, |steps|);
    var c := states[|steps|];
    WireEdge(c.a, c.b, q, p);
    WireEdge(c.b, c.a, q, p);
  }

  lemma WireEdge(x: Side, y: Side, q: Packet, p: Packet)
    requires Complete(x, y)
    ensures q in y.net && Pos(x.isn, p.seqn) + |p.data| <= Pos(x.isn, q.ack) + q.window ==> !Overflows(y.sock, p)
  {
    hide SenderOk, ReceiverOk, Overflows, NoneLost, AcksOk, Layered, Pos;
    if q in y.net && Pos(x.isn, p.seqn) + |p.data| <= Pos(x.isn, q.ack) + q.window { WithinEdge(x, y, p); }
  }

  lemma MoveCompletes(c: Connection, c': Connection, s: Step)
    requires BothComplete(c) && Moves(c, c', s) && Short(c') && StepSafe(c, s)
    ensures BothComplete(c')
  {
    hide Complete, Can, Next, Safe;
    if s.atA {
      SenderCompletes(c.a, c.b, s.event);
      ReceiverCompletes(c.b, c.a, s.event);
    } else {
      SenderCompletes(c.b, c.a, s.event);
      ReceiverCompletes(c.a, c.b, s.event);
    }
  }

  /** A step keeps everything if and only if it is safe. */
  lemma MoveExact(c: Connection, c': Connection, s: Step)
    requires BothComplete(c) && Moves(c, c', s) && Short(c')
    ensures BothComplete(c') <==> StepSafe(c, s)
  {
    if StepSafe(c, s) { MoveCompletes(c, c', s); }
    hide Complete, Can, Next, Safe;
    if BothComplete(c') {
      if s.atA { SafeNeeded(c.a, c.b, s.event); } else { SafeNeeded(c.b, c.a, s.event); }
    }
  }

  lemma SafeNeeded(x: Side, y: Side, e: Event)
    requires Complete(x, y) && Complete(y, x) && Can(x, y, e) && Complete(Next(x, e), y) && Complete(y, Next(x, e))
    ensures Safe(x, y, e)
  {
    hide Next, After, InOrder, Layered, NoneLost, AcksOk, EdgesOk, SafeAck, SafeData;
    if e.Receive? && !After(x.sock, e).closed {
      ReceiveExact(x, y, e.packet);
      if !SafeData(y, x, e.packet) { WrongAckSent(x, y, e.packet); }
    }
  }

  /** Data beyond what x has accepted that is taken for a repetition is acknowledged all the same. */
  lemma WrongAckSent(x: Side, y: Side, p: Packet)
    requires InOrder(y, x) && p in y.net && !After(x.sock, Receive(p)).closed && !SafeData(y, x, p)
    ensures !AcksOk(y, Next(x, Receive(p)))
  {
    var q := PureAck(Acked(x.sock, p), Add(p.seqn, |p.data|));
    AckedParts(x.sock, p);
    ReceiveParts(x.sock, p);
    ReceiveKeepsQueue(x.sock, p);
    assert Genuine(y, p.seqn, p.data);
    PosAdd(y.isn, p.seqn, |p.data|);
    OrderExact(y.isn, Add(p.seqn, |p.data|), x.sock.rcvNxt);
    hide After, Acked, Add, Pos, SenderOk, ReceiverOk;
    assert q in Sent(x.sock, Receive(p));
    assert q in Next(x, Receive(p)).net;
  }

  /** A connection of fewer than 2^31 bytes in each direction. */
  predicate BelowHalf(c: Connection) {
    |c.a.wrote| < HALF && |c.b.wrote| < HALF
  }

  /** It loses nothing, with no further condition. */
  lemma {:induction false} NothingIsLostBelowHalf(states: seq<Connection>, steps: seq<Step>, k: nat)
    requires Run(states, steps) && BelowHalf(states[|steps|]) && k <= |steps|
    ensures BothComplete(states[k]) && BelowHalf(states[k])
    ensures forall i :: 0 <= i < k ==> StepSafe(states[i], steps[i])
    decreases k
  {
    hide Moves, BothComplete, Established, StepSafe;
    WroteGrows(states, steps, k, |steps|);
    if k == 0 {
      EstablishedComplete(states[0]);
    } else {
      NothingIsLostBelowHalf(states, steps, k - 1);
      assert Moves(states[k - 1], states[k], steps[k - 1]);
      HalfIsSafe(states[k - 1], states[k], steps[k - 1]);
      MoveCompletes(states[k - 1], states[k], steps[k - 1]);
    }
  }

  /** And whoever stays within an edge that some packet advertised is not reset. */
  lemma AdvertisedBelowHalf(states: seq<Connection>, steps: seq<Step>, q: Packet, p: Packet)
    requires Run(states, steps) && BelowHalf(states[|steps|])
    ensures var c := states[|steps|];
            && (q in c.b.net && Pos(c.a.isn, p.seqn) + |p.data| <= Pos(c.a.isn, q.ack) + q.window ==>
                  !Overflows(c.b.sock, p))
            && (q in c.a.net && Pos(c.b.isn, p.seqn) + |p.data| <= Pos(c.b.isn, q.ack) + q.window ==>
                  !Overflows(c.a.sock, p))
  {
    hide Run, StepSafe, Overflows, Pos;
    NothingIsLostBelowHalf(states, steps, |steps|);
    AdvertisedOnWireIsSafe(states, steps, q, p);
  }

  lemma HalfIsSafe(c: Connection, c': Connection, s: Step)
    requires BothComplete(c) && BelowHalf(c) && Moves(c, c', s)
    ensures StepSafe(c, s)
  {
    hide Complete, Safe, Next;
    if s.atA { SideBelowHalf(c.a, c.b, s.event); } else { SideBelowHalf(c.b, c.a, s.event); }
  }

  lemma SideBelowHalf(x: Side, y: Side, e: Event)
    requires Complete(x, y) && Complete(y, x) && |x.wrote| < HALF && |y.wrote| < HALF && Can(x, y, e)
    ensures Safe(x, y, e)
  {
    hide Layered, NoneLost, EdgesOk, After, Add, IsBefore, Pos;
    if e.Receive? {
      forall g | g in x.sock.queue && End(x.isn, g) > Acc(x, y) ensures Comparable(x.isn, g.ackWith, e.packet.ack) {
        assert Genuine(x, g.seqn, g.data);
        PosAdd(x.isn, g.seqn, |g.data|);
      }
      DataBelowHalf(y, x, e.packet);
    }
  }

  lemma DataBelowHalf(x: Side, y: Side, p: Packet)
    requires InOrder(x, y) && |x.wrote| < HALF && p in x.net
    ensures SafeData(x, y, p)
  {
    if p.data != [] {
      assert Genuine(x, p.seqn, p.data);
      PosAdd(x.isn, p.seqn, |p.data|);
    }
  }

  lemma {:induction false} WroteGrows(states: seq<Connection>, steps: seq<Step>, i: nat, j: nat)
    requires Run(states, steps) && i <= j <= |steps|
    ensures |states[i].a.wrote| <= |states[j].a.wrote| && |states[i].b.wrote| <= |states[j].b.wrote|
    decreases j - i
  {
    if i < j {
      hide After, Sent, Enabled, Established;
      assert Moves(states[j - 1], states[j], steps[j - 1]);
      WroteGrows(states, steps, i, j - 1);
    }
  }
}
