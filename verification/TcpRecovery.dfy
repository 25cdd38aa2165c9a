/**
 What runs of two sockets do besides losing nothing: acknowledgements move the sender on as far as they
 reach, and retransmission brings everything to the peer that was sent.
 */
module TcpRecovery {
  import opened Basics
  import opened SequenceNumbers
  import opened Tcp
  import opened TcpRuns

  // Acknowledgements

  /** What an event does to the acknowledged end of x, in true positions. */
  lemma UnaStep(x: Side, y: Side, e: Event)
    requires Complete(x, y) && Can(x, y, e) && |x.wrote| < HALF && Pos(x.isn, x.sock.sndUna) <= Acc(x, y)
    ensures var una, una' := Pos(x.isn, x.sock.sndUna), Pos(x.isn, Next(x, e).sock.sndUna);
            && una' == (if e.Receive? && !x.sock.closed then Max(una, Pos(x.isn, e.packet.ack)) else una)
            && una' <= Acc(x, y)
    ensures e.Receive? && !x.sock.closed ==>
              Next(x, e).sock.sndWnd
              == if Pos(x.isn, e.packet.ack) >= Pos(x.isn, x.sock.sndUna) then e.packet.window else x.sock.sndWnd
  {
    hide Layered, NoneLost, EdgesOk, SenderOk, Unacked, Sent;
    assert Acc(x, y) < HALF by { AccBelow(x, y); }
    match e
    case Receive(p) =>
      assert Pos(x.isn, p.ack) <= Acc(x, y);
      AckMoves(x.sock, p, x.isn);
      hide Acked, Pos, Add;
    case _ =>
  }

  lemma AccBelow(x: Side, y: Side)
    requires InOrder(x, y)
    ensures Acc(x, y) <= |x.wrote|
  {
  }

  /** The largest acknowledgement that a side has handled in the first k steps, in true positions. */
  function Largest(states: seq<Connection>, steps: seq<Step>, atA: bool, k: nat): nat
    requires Run(states, steps) && k <= |steps|
  {
    if k == 0 then 0
    else
      var x, s := if atA then states[k - 1].a else states[k - 1].b, steps[k - 1];
      Max(Largest(states, steps, atA, k - 1),
          if s.atA == atA && s.event.Receive? && !x.sock.closed then Pos(x.isn, s.event.packet.ack) else 0)
  }

  predicate UnaOk(c: Connection, a: nat, b: nat) {
    && Pos(c.a.isn, c.a.sock.sndUna) == a <= Acc(c.a, c.b)
    && Pos(c.b.isn, c.b.sock.sndUna) == b <= Acc(c.b, c.a)
  }

  lemma UnaMoves(c: Connection, c': Connection, s: Step, a: nat, b: nat)
    requires BothComplete(c) && BelowHalf(c) && Moves(c, c', s) && UnaOk(c, a, b)
    ensures var atA := s.atA && s.event.Receive? && !c.a.sock.closed;
            var atB := !s.atA && s.event.Receive? && !c.b.sock.closed;
            UnaOk(c', if atA then Max(a, Pos(c.a.isn, s.event.packet.ack)) else a,
                  if atB then Max(b, Pos(c.b.isn, s.event.packet.ack)) else b)
  {
    hide After, Sent, InOrder, Layered, NoneLost, AcksOk, EdgesOk, Enabled;
    if s.atA {
      UnaStep(c.a, c.b, s.event);
      EdgeMoves(c.b, c.a, s.event);
    } else {
      UnaStep(c.b, c.a, s.event);
      EdgeMoves(c.a, c.b, s.event);
    }
  }

  /**
   Below 2^31 bytes the acknowledged end of each side is the largest acknowledgement it has handled, and
   never beyond what its peer has accepted.
   */
  lemma {:induction false} UnaIsLargest(states: seq<Connection>, steps: seq<Step>, k: nat)
    requires Run(states, steps) && BelowHalf(states[|steps|]) && k <= |steps|
    ensures UnaOk(states[k], Largest(states, steps, true, k), Largest(states, steps, false, k))
    decreases k
  {
    if k > 0 {
      assert Moves(states[k - 1], states[k], steps[k - 1]);
      hide Moves, BothComplete, BelowHalf, UnaOk, Established, StepSafe;
      NothingIsLostBelowHalf(states, steps, k - 1);
      UnaIsLargest(states, steps, k - 1);
      UnaMoves(states[k - 1], states[k], steps[k - 1], Largest(states, steps, true, k - 1),
               Largest(states, steps, false, k - 1));
    }
  }

  // Segments stay whole

  /** Place k is not inside any segment that x has sent or queued. */
  predicate Between(x: Side, k: nat) {
    && (forall p :: p in x.net ==> !(Pos(x.isn, p.seqn) < k < Pos(x.isn, p.seqn) + |p.data|))
    && (forall g :: g in x.sock.queue ==> !(Pos(x.isn, g.seqn) < k < End(x.isn, g)))
  }

  /** No segment begins or ends inside another, y has accepted whole segments, and none is too long for y. */
  predicate Sliced(x: Side, y: Side) {
    && (forall p :: p in x.net && p.data != [] ==>
          Between(x, Pos(x.isn, p.seqn)) && Between(x, Pos(x.isn, p.seqn) + |p.data|))
    && (forall g :: g in x.sock.queue ==>
          Between(x, Pos(x.isn, g.seqn)) && Between(x, End(x.isn, g)) && |g.data| <= 1460)
    && Between(x, Acc(x, y))
  }

  /** The data is that of a queued segment. */
  predicate Queued(x: Side, seqn: u32, data: seq<Byte>) {
    exists g :: g in x.sock.queue && g.seqn == seqn && g.data == data
  }

  /** A step that sends and queues nothing but what was queued before. */
  lemma SameSegments(x: Side, x': Side, y: Side)
    requires Sliced(x, y) && x'.isn == x.isn
    requires forall p :: p in x'.net && p.data != [] ==> p in x.net || Queued(x, p.seqn, p.data)
    requires forall g :: g in x'.sock.queue ==> Queued(x, g.seqn, g.data)
    ensures Sliced(x', y)
  {
    hide Pos, Queued;
    forall k | Between(x, k) ensures Between(x', k) {
      BetweenKept(x, x', k);
    }
    forall p | p in x'.net && p.data != []
      ensures Between(x, Pos(x.isn, p.seqn)) && Between(x, Pos(x.isn, p.seqn) + |p.data|)
    {
      if p !in x.net { QueuedEnds(x, y, p.seqn, p.data); }
    }
    forall g | g in x'.sock.queue
      ensures Between(x, Pos(x.isn, g.seqn)) && Between(x, End(x.isn, g)) && |g.data| <= 1460
    {
      QueuedEnds(x, y, g.seqn, g.data);
    }
  }

  lemma QueuedEnds(x: Side, y: Side, seqn: u32, data: seq<Byte>)
    requires Sliced(x, y) && Queued(x, seqn, data)
    ensures Between(x, Pos(x.isn, seqn)) && Between(x, Pos(x.isn, seqn) + |data|) && |data| <= 1460
  {
    hide Between, Pos;
  }

  lemma BetweenKept(x: Side, x': Side, k: nat)
    requires Between(x, k) && x'.isn == x.isn
    requires forall p :: p in x'.net && p.data != [] ==> p in x.net || Queued(x, p.seqn, p.data)
    requires forall g :: g in x'.sock.queue ==> Queued(x, g.seqn, g.data)
    ensures Between(x', k)
  {
    hide Pos;
  }

  lemma PackSliced(x: Side, y: Side)
    requires InOrder(x, y) && Sliced(x, y) && Enabled(x.sock, Pack)
    ensures Sliced(Next(x, Pack), y)
  {
    var x', g := Next(x, Pack), NextSegment(x.sock);
    assert x'.sock.queue == x.sock.queue + [g] && x'.net == x.net + {Wire(x.sock, g)} && |g.data| <= 1460;
    NothingBeyond(x);
    AccWithin(x, y);
    hide After, Sent, Pos, InOrder, NextSegment;
    OneMoreSegment(x, x', y, g, Wire(x.sock, g));
  }

  /** x' has a new segment g, sent as p, behind all those of x. */
  predicate Grows(x: Side, x': Side, g: Segment, p: Packet) {
    && x'.isn == x.isn && x'.sock.queue == x.sock.queue + [g] && x'.net == x.net + {p}
    && g.seqn == p.seqn == x.sock.sndNxt && p.data == g.data
    && (forall p :: p in x.net && p.data != [] ==> Pos(x.isn, p.seqn) + |p.data| <= Nxt(x))
    && (forall g :: g in x.sock.queue ==> End(x.isn, g) <= Nxt(x))
  }

  lemma BetweenMore(x: Side, x': Side, g: Segment, p: Packet, k: nat)
    requires Grows(x, x', g, p) && Between(x, k) && k <= Nxt(x)
    ensures Between(x', k)
  {
    hide Pos;
  }

  lemma NewEnds(x: Side, x': Side, g: Segment, p: Packet)
    requires Grows(x, x', g, p)
    ensures Between(x', Nxt(x)) && Between(x', End(x.isn, g))
  {
    hide Pos;
  }

  lemma OneMoreSegment(x: Side, x': Side, y: Side, g: Segment, p: Packet)
    requires Sliced(x, y) && Acc(x, y) <= Nxt(x) && Grows(x, x', g, p) && |g.data| <= 1460
    ensures Sliced(x', y)
  {
    hide Pos, Between;
    NewEnds(x, x', g, p);
    BetweenMore(x, x', g, p, Acc(x, y));
    forall q | q in x'.net && q.data != []
      ensures Between(x', Pos(x'.isn, q.seqn)) && Between(x', Pos(x'.isn, q.seqn) + |q.data|)
    {
      if q in x.net {
        BetweenMore(x, x', g, p, Pos(x.isn, q.seqn));
        BetweenMore(x, x', g, p, Pos(x.isn, q.seqn) + |q.data|);
      }
    }
    forall h | h in x'.sock.queue
      ensures Between(x', Pos(x'.isn, h.seqn)) && Between(x', End(x'.isn, h)) && |h.data| <= 1460
    {
      if h in x.sock.queue {
        BetweenMore(x, x', g, p, Pos(x.isn, h.seqn));
        BetweenMore(x, x', g, p, End(x.isn, h));
      }
    }
  }

  lemma AccWithin(x: Side, y: Side)
    requires InOrder(x, y)
    ensures Acc(x, y) <= Nxt(x)
  {
  }

  /** All that was sent or queued ends where the next segment starts, at the latest. */
  lemma NothingBeyond(x: Side)
    requires SenderOk(x)
    ensures forall p :: p in x.net && p.data != [] ==> Pos(x.isn, p.seqn) + |p.data| <= Nxt(x)
    ensures forall g :: g in x.sock.queue ==> End(x.isn, g) <= Nxt(x)
  {
    hide Pos;
  }

  lemma SliceSender(x: Side, y: Side, e: Event)
    requires InOrder(x, y) && Sliced(x, y) && Can(x, y, e)
    ensures Sliced(Next(x, e), y)
  {
    var x' := Next(x, e);
    match e
    case Pack => PackSliced(x, y);
    case Receive(p) =>
      ReceiveParts(x.sock, p);
      hide After, Sent, InOrder, Sliced;
      SameSegments(x, x', y);
    case Retransmit(i) =>
      assert x.sock.queue[i] in x.sock.queue;
      hide InOrder, Sliced;
      SameSegments(x, x', y);
    case _ =>
      hide InOrder, Sliced;
      SameSegments(x, x', y);
  }

  lemma SliceReceiver(x: Side, y: Side, e: Event)
    requires InOrder(x, y) && Sliced(x, y) && Can(y, x, e)
    ensures Sliced(x, Next(y, e))
  {
    match e
    case Receive(p) =>
      ReceiveParts(y.sock, p);
      hide After, Sent;
      if !y.sock.closed && Accepts(y.sock, p) { ExpectedPlace(x, y, p); }
      hide Pos, Between, InOrder;
    case _ =>
  }

  predicate BothSliced(c: Connection) {
    Sliced(c.a, c.b) && Sliced(c.b, c.a)
  }

  lemma SliceMoves(c: Connection, c': Connection, s: Step)
    requires InOrder(c.a, c.b) && InOrder(c.b, c.a) && BothSliced(c) && Moves(c, c', s)
    ensures BothSliced(c')
  {
    hide InOrder, Sliced, Next, Can;
    if s.atA {
      SliceSender(c.a, c.b, s.event);
      SliceReceiver(c.b, c.a, s.event);
    } else {
      SliceSender(c.b, c.a, s.event);
      SliceReceiver(c.a, c.b, s.event);
    }
  }

  lemma FreshSliced(x: Side, y: Side)
    requires Fresh(x, y)
    ensures Sliced(x, y)
  {
  }

  lemma EstablishedSliced(c: Connection)
    requires Established(c)
    ensures BothSliced(c)
  {
    hide Sliced;
    FreshSliced(c.a, c.b);
    FreshSliced(c.b, c.a);
  }

  /** In every run the peer has accepted whole segments, and segments do not overlap. */
  lemma {:induction false} SlicedAt(states: seq<Connection>, steps: seq<Step>, k: nat)
    requires Run(states, steps) && Short(states[|steps|]) && k <= |steps|
    ensures BothSliced(states[k])
    decreases k
  {
    hide Moves, InOrder, BothSliced, Short, Established;
    if k == 0 {
      EstablishedSliced(states[0]);
    } else {
      assert Moves(states[k - 1], states[k], steps[k - 1]);
      SlicedAt(states, steps, k - 1);
      ShortAt(states, steps, k - 1, |steps|);
      InOrderAt(states, steps, k - 1);
      SliceMoves(states[k - 1], states[k], steps[k - 1]);
    }
  }

  // Recovery

  /** From c the connection can come to c'. */
  ghost predicate Continues(c: Connection, c': Connection) {
    exists states, steps :: Path(states, steps) && states[0] == c && states[|steps|] == c'
  }

  predicate Path(states: seq<Connection>, steps: seq<Step>) {
    && |states| == |steps| + 1
    && forall i :: 0 <= i < |steps| ==> Moves(states[i], states[i + 1], steps[i])
  }

  lemma Stays(c: Connection)
    ensures Continues(c, c)
  {
    var steps: seq<Step> := [];
    assert Path([c], steps) && [c][|steps|] == c;
  }

  lemma GoesOn(c: Connection, d: Connection, d': Connection, s: Step)
    requires Continues(c, d) && Moves(d, d', s)
    ensures Continues(c, d')
  {
    hide Moves;
    var states, steps :| Path(states, steps) && states[0] == c && states[|steps|] == d;
    var states', steps' := states + [d'], steps + [s];
    forall i | 0 <= i < |steps'| ensures Moves(states'[i], states'[i + 1], steps'[i]) {
      if i < |steps| { assert Moves(states[i], states[i + 1], steps[i]); }
    }
    assert Path(states', steps') && states'[0] == c && states'[|steps'|] == d';
  }

  /** x can retransmit every segment that y has not accepted. */
  predicate Retriable(x: Side, y: Side) {
    forall g :: g in x.sock.queue && End(x.isn, g) > Acc(x, y) ==> g.retries < RETRIES
  }

  /** What every step of the recovery keeps. */
  predicate Recoverable(c: Connection) {
    && BothComplete(c) && BothSliced(c) && BelowHalf(c)
    && !c.a.sock.closed && !c.b.sock.closed && Retriable(c.a, c.b)
  }

  /** Byte Acc is the first one of a queued segment. */
  lemma NextQueued(x: Side, y: Side) returns (i: nat)
    requires Complete(x, y) && Sliced(x, y) && !x.sock.closed && Acc(x, y) < Nxt(x)
    ensures i < |x.sock.queue| && x.sock.queue[i].seqn == y.sock.rcvNxt
    ensures 0 < |x.sock.queue[i].data| <= 1460 && End(x.isn, x.sock.queue[i]) == Acc(x, y) + |x.sock.queue[i].data|
  {
    hide Layered, AcksOk, EdgesOk, SenderOk;
    assert Held(x, Acc(x, y));
    i :| 0 <= i < |x.sock.queue| && HeldBy(x, x.sock.queue[i], Acc(x, y));
    assert x.sock.queue[i] in x.sock.queue;
    SamePos(x.isn, x.sock.queue[i].seqn, y.sock.rcvNxt);
  }

  lemma SamePos(isn: u32, s: u32, t: u32)
    ensures Pos(isn, s) == Pos(isn, t) ==> s == t
  {
  }

  /** y's reader empties its buffer. */
  lemma Drain(c: Connection) returns (c': Connection, s: Step)
    requires Recoverable(c)
    ensures Moves(c, c', s) && Recoverable(c') && c'.a == c.a && c'.b.sock == c.b.sock.(rx := [])
    ensures c'.b.got == c.b.got && c'.b.wrote == c.b.wrote
  {
    s := Step(false, Read(|c.b.sock.rx|));
    c' := Connection(c.a, Next(c.b, s.event));
    assert c.b.sock.rx[|c.b.sock.rx|..] == [] && c.b.got + [] == c.b.got;
    Kept(c, c', s);
    hide Complete, Sliced, After;
    assert Acc(c'.a, c'.b) == Acc(c.a, c.b);
  }

  /** Steps that write nothing keep what does not concern retries. */
  lemma Kept(c: Connection, c': Connection, s: Step)
    requires Recoverable(c) && Moves(c, c', s) && !s.event.Write?
    ensures BothComplete(c') && BothSliced(c') && BelowHalf(c')
    ensures c'.a.wrote == c.a.wrote && c'.b.wrote == c.b.wrote && c'.a.isn == c.a.isn && c'.b.isn == c.b.isn
  {
    hide After, Sent, Enabled, Sliced, InOrder, Layered, NoneLost, AcksOk, EdgesOk;
    HalfIsSafe(c, c', s);
    MoveCompletes(c, c', s);
    SliceMoves(c, c', s);
  }

  /** a retransmits segment i. */
  lemma Resend(c: Connection, i: nat) returns (c': Connection, s: Step, p: Packet)
    requires Recoverable(c) && i < |c.a.sock.queue| && End(c.a.isn, c.a.sock.queue[i]) > Acc(c.a, c.b)
    ensures Moves(c, c', s) && c'.b == c.b && p in c'.a.net
    ensures p.seqn == c.a.sock.queue[i].seqn && p.data == c.a.sock.queue[i].data
    ensures BothComplete(c') && BothSliced(c') && BelowHalf(c') && !c'.a.sock.closed
    ensures c'.a.wrote == c.a.wrote && c'.a.isn == c.a.isn && Nxt(c'.a) == Nxt(c.a)
    ensures forall g :: g in c'.a.sock.queue && End(c.a.isn, g) > End(c.a.isn, c.a.sock.queue[i]) ==>
              g in c.a.sock.queue
  {
    var g := c.a.sock.queue[i];
    assert g in c.a.sock.queue && g.retries < RETRIES;
    s := Step(true, Retransmit(i));
    c' := Connection(Next(c.a, s.event), c.b);
    p := Wire(c.a.sock, g);
    Kept(c, c', s);
    hide Complete, Sliced, Pos;
  }

  /** b takes the segment that it expects. */
  lemma Deliver(c: Connection, p: Packet) returns (c': Connection, s: Step)
    requires BothComplete(c) && BothSliced(c) && BelowHalf(c) && !c.b.sock.closed && p in c.a.net
    requires p.seqn == c.b.sock.rcvNxt && 0 < |p.data| <= 1460 && c.b.sock.rx == []
    ensures Moves(c, c', s) && c'.a == c.a && !c'.b.sock.closed && c'.b.sock.receiveShut == c.b.sock.receiveShut
    ensures BothComplete(c') && BothSliced(c') && BelowHalf(c') && c'.b.wrote == c.b.wrote
    ensures Acc(c'.a, c'.b) == Acc(c.a, c.b) + |p.data|
  {
    s := Step(false, Receive(p));
    c' := Connection(c.a, Next(c.b, s.event));
    assert Accepts(c.b.sock, p);
    ReceiveParts(c.b.sock, p);
    ReceiveKeepsQueue(c.b.sock, p);
    ExpectedPlace(c.a, c.b, p);
    hide After, Sent, Pos, Sliced, InOrder, Layered, NoneLost, AcksOk, EdgesOk;
    HalfIsSafe(c, c', s);
    MoveCompletes(c, c', s);
    SliceMoves(c, c', s);
  }

  /** One round: the first segment that b has not accepted is retransmitted and arrives. */
  lemma Round(c: Connection, d: Connection) returns (d': Connection)
    requires Continues(c, d) && Recoverable(d) && Acc(d.a, d.b) < Nxt(d.a)
    ensures Continues(c, d') && Recoverable(d') && Acc(d.a, d.b) < Acc(d'.a, d'.b)
    ensures Nxt(d'.a) == Nxt(d.a) && d'.a.wrote == d.a.wrote && d'.b.wrote == d.b.wrote
    ensures d'.b.sock.receiveShut == d.b.sock.receiveShut
  {
    hide Continues, Moves, Complete, Sliced, Pos;
    var d1, s1 := Drain(d);
    GoesOn(c, d, d1, s1);
    var i := NextQueued(d1.a, d1.b);
    var d2, s2, p := Resend(d1, i);
    GoesOn(c, d1, d2, s2);
    var s3;
    d', s3 := Deliver(d2, p);
    GoesOn(c, d2, d', s3);
  }

  lemma {:induction false} Recover(c: Connection, d: Connection) returns (d': Connection)
    requires Continues(c, d) && Recoverable(d)
    ensures Continues(c, d') && Recoverable(d') && Acc(d'.a, d'.b) == Nxt(d'.a) == Nxt(d.a)
    ensures d'.a.wrote == d.a.wrote && d'.b.wrote == d.b.wrote && d'.b.sock.receiveShut == d.b.sock.receiveShut
    decreases Nxt(d.a) - Acc(d.a, d.b)
  {
    AccBounded(d);
    hide Continues, Recoverable, Pos;
    d' := d;
    if Acc(d.a, d.b) < Nxt(d.a) {
      d' := Round(c, d);
      AccBounded(d');
      d' := Recover(c, d');
    }
  }

  lemma AccBounded(c: Connection)
    requires Recoverable(c)
    ensures Acc(c.a, c.b) <= Nxt(c.a) <= |c.a.wrote|
  {
    hide Pos, Layered, NoneLost, AcksOk, EdgesOk, Sliced;
  }

  /**
   Whatever the network has lost so far: while both sides are open and no segment that b misses has used up
   its retries, the run can go on, without another byte written, so that b gets all that a has sent.
   */
  lemma AllSentArrives(states: seq<Connection>, steps: seq<Step>) returns (c': Connection)
    requires Run(states, steps) && BelowHalf(states[|steps|])
    requires var c := states[|steps|]; !c.a.sock.closed && !c.b.sock.closed && Retriable(c.a, c.b)
    ensures var c := states[|steps|];
            && Continues(c, c') && Acc(c'.a, c'.b) == Nxt(c'.a) == Nxt(c.a) <= |c.a.wrote|
            && c'.a.wrote == c.a.wrote && c'.b.wrote == c.b.wrote
            && (!c.b.sock.receiveShut ==> c'.b.got == c.a.wrote[..Nxt(c.a)])
  {
    var c := states[|steps|];
    hide Run, BothComplete, BothSliced, Continues, StepSafe, Moves;
    NothingIsLostBelowHalf(states, steps, |steps|);
    SlicedAt(states, steps, |steps|);
    Stays(c);
    c' := Recover(c, c);
    GotAll(c');
  }

  lemma GotAll(c: Connection)
    requires Recoverable(c) && Acc(c.a, c.b) == Nxt(c.a)
    ensures Nxt(c.a) <= |c.a.wrote| && (!c.b.sock.receiveShut ==> c.b.got == c.a.wrote[..Nxt(c.a)])
  {
    hide Pos, Layered, NoneLost, AcksOk, EdgesOk, Sliced, Genuine;
  }

  /** The same connection, seen from the other side. */
  function Mirror(c: Connection): Connection {
    Connection(c.b, c.a)
  }

  function Mirrored(states: seq<Connection>): (r: seq<Connection>)
    ensures |r| == |states| && forall i :: 0 <= i < |r| ==> r[i] == Mirror(states[i])
  {
    seq(|states|, i requires 0 <= i < |states| => Mirror(states[i]))
  }

  function MirroredSteps(steps: seq<Step>): (r: seq<Step>)
    ensures |r| == |steps| && forall i :: 0 <= i < |r| ==> r[i] == Step(!steps[i].atA, steps[i].event)
  {
    seq(|steps|, i requires 0 <= i < |steps| => Step(!steps[i].atA, steps[i].event))
  }

  lemma MirrorPath(states: seq<Connection>, steps: seq<Step>)
    requires Path(states, steps)
    ensures Path(Mirrored(states), MirroredSteps(steps))
  {
    var states', steps' := Mirrored(states), MirroredSteps(steps);
    forall i | 0 <= i < |steps| ensures Moves(states'[i], states'[i + 1], steps'[i]) {
      assert Moves(states[i], states[i + 1], steps[i]);
      hide Can, Next;
    }
  }

  lemma MirrorContinues(c: Connection, c': Connection)
    requires Continues(c, c')
    ensures Continues(Mirror(c), Mirror(c'))
  {
    hide Moves;
    var states, steps :| Path(states, steps) && states[0] == c && states[|steps|] == c';
    MirrorPath(states, steps);
    assert Mirrored(states)[0] == Mirror(c) && Mirrored(states)[|steps|] == Mirror(c');
  }

  /** And the other way round: a gets all that b has sent. */
  lemma AllSentArrivesBack(states: seq<Connection>, steps: seq<Step>) returns (c': Connection)
    requires Run(states, steps) && BelowHalf(states[|steps|])
    requires var c := states[|steps|]; !c.a.sock.closed && !c.b.sock.closed && Retriable(c.b, c.a)
    ensures var c := states[|steps|];
            && Continues(c, c') && Acc(c'.b, c'.a) == Nxt(c'.b) == Nxt(c.b) <= |c.b.wrote|
            && c'.a.wrote == c.a.wrote && c'.b.wrote == c.b.wrote
            && (!c.a.sock.receiveShut ==> c'.a.got == c.b.wrote[..Nxt(c.b)])
  {
    var c := states[|steps|];
    hide Moves, Continues, Pos;
    assert Path(states, steps);
    MirrorPath(states, steps);
    assert Run(Mirrored(states), MirroredSteps(steps));
    hide Run, Path;
    var m := AllSentArrives(Mirrored(states), MirroredSteps(steps));
    MirrorContinues(Mirror(c), m);
    c' := Mirror(m);
  }

  /**
   When b has accepted all that a sent and owes an acknowledgement, sending and delivering it leaves nothing
   to retransmit: the queue of a is empty, all is acknowledged, and a knows the window of b.
   */
  lemma AckEmpties(c: Connection) returns (c': Connection)
    requires BothComplete(c) && BelowHalf(c) && !c.a.sock.closed && !c.b.sock.closed && c.b.sock.sendingAck
    requires Acc(c.a, c.b) == Nxt(c.a) && Pos(c.a.isn, c.a.sock.sndUna) <= Acc(c.a, c.b)
    ensures Continues(c, c') && !c'.a.sock.closed && c'.a.sock.queue == [] && c'.a.sock.sndUna == c'.a.sock.sndNxt
    ensures c'.a.sock.sndWnd == (if |c.b.sock.rx| < 8191 then 8191 - |c.b.sock.rx| else 0) && c'.a.wrote == c.a.wrote
  {
    var s1 := Step(false, CompAck);
    var c1 := Connection(c.a, Next(c.b, CompAck));
    var p := Packet(c.b.sock.sndNxt, c.b.sock.rcvNxt, if |c.b.sock.rx| < 8191 then 8191 - |c.b.sock.rx| else 0, []);
    assert p in c1.b.net;
    var s2 := Step(true, Receive(p));
    c' := Connection(Next(c.a, Receive(p)), c1.b);
    AllAcked(c.a, c.b, p);
    hide After, Sent, BothComplete, Pos;
    Stays(c);
    GoesOn(c, c, c1, s1);
    GoesOn(c, c1, c', s2);
  }

  /** An acknowledgement of all that x sent empties its queue. */
  lemma AllAcked(x: Side, y: Side, p: Packet)
    requires Complete(x, y) && |x.wrote| < HALF && !x.sock.closed && Acc(x, y) == Nxt(x) && p.data == []
    requires p.ack == y.sock.rcvNxt && Pos(x.isn, x.sock.sndUna) <= Acc(x, y)
    ensures var t := After(x.sock, Receive(p));
            && !t.closed && t.queue == [] && t.sndUna == t.sndNxt == x.sock.sndNxt && t.sndWnd == p.window
  {
    hide Layered, NoneLost, AcksOk, EdgesOk, Unacked;
    AckMoves(x.sock, p, x.isn);
    SamePos(x.isn, p.ack, x.sock.sndNxt);
    forall g | g in x.sock.queue ensures IsBeforeOrEqual(g.ackWith, p.ack) {
      assert Genuine(x, g.seqn, g.data);
      PosAdd(x.isn, g.seqn, |g.data|);
      OrderExact(x.isn, g.ackWith, p.ack);
    }
    NoneLeft(x.sock.queue, p.ack);
    ReceiveKeepsQueue(x.sock, p);
    ReceiveParts(x.sock, p);
    AckedUna(x.sock, p);
  }

  lemma {:induction false} NoneLeft(queue: seq<Segment>, ackn: u32)
    requires forall g :: g in queue ==> IsBeforeOrEqual(g.ackWith, ackn)
    ensures Unacked(queue, ackn) == []
  {
    hide IsBeforeOrEqual;
    if queue != [] { NoneLeft(queue[1..], ackn); }
  }

  lemma AckedUna(s: Sock, p: Packet)
    requires !s.closed
    ensures After(s, Receive(p)).sndUna == Acked(s, p).sndUna && After(s, Receive(p)).sndWnd == Acked(s, p).sndWnd
  {
    hide Acked, Add;
  }
}
