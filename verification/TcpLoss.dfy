/**
 The run that loses a byte: one side sends 2^31 + 1 bytes, one to a segment, each acknowledged before
 the next; then the network delivers the first acknowledgement once more.
 */
module TcpLoss {
  import opened Basics
  import opened SequenceNumbers
  import opened Tcp
  import opened TcpRuns

  const WINDOW := 8191

  function Sevens(n: nat): (s: seq<Byte>)
    ensures |s| == n
  {
    seq(n, _ => 7)
  }

  lemma OneMore(n: nat)
    ensures Sevens(n) + [7] == Sevens(n + 1)
  {
  }

  ghost predicate Reachable(c: Connection) {
    exists states, steps :: Run(states, steps) && states[|steps|] == c
  }

  lemma ReachNext(c: Connection, c': Connection, s: Step)
    requires Reachable(c) && Moves(c, c', s)
    ensures Reachable(c')
  {
    hide Moves, Established;
    var states, steps :| Run(states, steps) && states[|steps|] == c;
    var states', steps' := states + [c'], steps + [s];
    forall i | 0 <= i < |steps'| ensures Moves(states'[i], states'[i + 1], steps'[i]) {
      if i < |steps| { assert Moves(states[i], states[i + 1], steps[i]); }
    }
    assert Run(states', steps');
  }

  /** A sender that has sent n bytes, all acknowledged, and has `tx` still to send. */
  function Sender(n: u32, tx: seq<Byte>): Sock {
    Sock(n, n, WINDOW, 256, 0, false, false, false, false, false, tx, [], [])
  }

  /** The sender when byte number n is under way. */
  function Sending(n: u32): Sock
    requires n < M - 1
  {
    Sock(n, n + 1, WINDOW - 1, 256, 0, false, false, false, false, false, [], [], [Segment(n, 0, [7], n + 1, 0)])
  }

  /** Its peer, which has accepted n bytes, not read `rx` of them, and may have one to acknowledge. */
  function Receiver(n: u32, rx: seq<Byte>, owes: bool): Sock {
    Sock(0, 0, WINDOW, 256, n, owes, false, false, false, false, [], rx, [])
  }

  function DataOf(n: u32): Packet {
    Packet(n, 0, WINDOW, [7])
  }

  function AckOf(n: u32): Packet {
    Packet(0, n, WINDOW, [])
  }

  /** Byte n is written and packed. */
  lemma Packed(n: u32)
    requires n < M - 1
    ensures Enabled(Sender(n, []), Write([7])) && After(Sender(n, []), Write([7])) == Sender(n, [7])
    ensures Enabled(Sender(n, [7]), Pack) && After(Sender(n, [7]), Pack) == Sending(n)
    ensures Sent(Sender(n, []), Write([7])) == {} && Sent(Sender(n, [7]), Pack) == {DataOf(n)}
  {
    var none: seq<Byte> := [];
    assert none + [7] == [7];
    var s := Sender(n, [7]);
    assert PackSize(s) == 1 && s.tx[..1] == [7] && s.tx[1..] == none;
    var queue: seq<Segment> := [];
    assert queue + [NextSegment(s)] == [NextSegment(s)];
  }

  /** The peer accepts it. */
  lemma Delivered(n: u32)
    requires n < M - 1
    ensures After(Receiver(n, [], false), Receive(DataOf(n))) == Receiver(n + 1, [7], true)
  {
    var s := Receiver(n, [], false);
    assert Acked(s, DataOf(n)) == s && s.rx + [7] == [7];
  }

  /** Its reader takes the byte, and then it is acknowledged. */
  lemma Acknowledged(n: u32)
    ensures Enabled(Receiver(n, [7], true), Read(1)) && Enabled(Receiver(n, [], true), CompAck)
    ensures After(Receiver(n, [7], true), Read(1)) == Receiver(n, [], true)
    ensures After(Receiver(n, [], true), CompAck) == Receiver(n, [], false)
    ensures Sent(Receiver(n, [], true), CompAck) == {AckOf(n)}
  {
    var rx, none: seq<Byte> := [7], [];
    assert rx[1..] == none;
  }

  lemma AckTaken(n: u32)
    requires n < M - 1
    ensures After(Sending(n), Receive(AckOf(n + 1))) == Sender(n + 1, [])
  {
    var queue := Sending(n).queue;
    assert queue[1..] == [];
    assert Unacked(queue, n + 1) == [];
  }

  /** n bytes went over, and the acknowledgement of the first is still in the network. */
  predicate AfterRounds(c: Connection, n: u32) {
    && c.a.sock == Sender(n, []) && c.b.sock == Receiver(n, [], false) && c.a.isn == c.b.isn == 0
    && c.a.wrote == Sevens(n) && c.b.wrote == [] && (n > 0 ==> AckOf(1) in c.b.net)
  }

  lemma Start() returns (c: Connection)
    ensures Reachable(c) && AfterRounds(c, 0)
  {
    c := Connection(Side(Sender(0, []), 0, [], [], {}), Side(Receiver(0, [], false), 0, [], [], {}));
    var steps: seq<Step> := [];
    assert Run([c], steps) && [c][|steps|] == c;
    assert c.a.wrote == Sevens(0);
  }

  /** The sender's half of a round: a byte is written and packed. */
  lemma SendOne(c: Connection, n: u32) returns (c': Connection)
    requires Reachable(c) && AfterRounds(c, n) && n < M - 1
    ensures Reachable(c') && c'.b == c.b && c'.a.isn == 0 && c'.a.sock == Sending(n)
    ensures c'.a.wrote == Sevens(n + 1) && DataOf(n) in c'.a.net
  {
    hide Reachable, After, Sent, Sender, Receiver;
    Packed(n);
    OneMore(n);
    var a1 := Next(c.a, Write([7]));
    var c1 := Connection(a1, c.b);
    ReachNext(c, c1, Step(true, Write([7])));
    c' := Connection(Next(a1, Pack), c.b);
    ReachNext(c1, c', Step(true, Pack));
  }

  /** The peer's half, and the acknowledgement arrives. */
  lemma ReturnOne(c: Connection, n: u32) returns (c': Connection)
    requires Reachable(c) && n < M - 1 && c.a.isn == c.b.isn == 0 && c.a.sock == Sending(n)
    requires c.a.wrote == Sevens(n + 1) && c.b.wrote == [] && DataOf(n) in c.a.net
    requires c.b.sock == Receiver(n, [], false) && (n > 0 ==> AckOf(1) in c.b.net)
    ensures Reachable(c') && AfterRounds(c', n + 1)
  {
    hide Reachable, After, Sent, Sender, Receiver, Sending;
    Delivered(n);
    Acknowledged(n + 1);
    AckTaken(n);
    var b1 := Next(c.b, Receive(DataOf(n)));
    var c1 := Connection(c.a, b1);
    ReachNext(c, c1, Step(false, Receive(DataOf(n))));
    var b2 := Next(b1, Read(1));
    var c2 := Connection(c.a, b2);
    ReachNext(c1, c2, Step(false, Read(1)));
    var b3 := Next(b2, CompAck);
    var c3 := Connection(c.a, b3);
    ReachNext(c2, c3, Step(false, CompAck));
    c' := Connection(Next(c.a, Receive(AckOf(n + 1))), b3);
    ReachNext(c3, c', Step(true, Receive(AckOf(n + 1))));
  }

  lemma {:induction false} Rounds(n: u32) returns (c: Connection)
    ensures Reachable(c) && AfterRounds(c, n)
  {
    hide Reachable, Sender, Receiver, AckOf;
    if n == 0 {
      c := Start();
    } else {
      c := Rounds(n - 1);
      c := SendOne(c, n - 1);
      c := ReturnOne(c, n - 1);
    }
  }

  /** The late acknowledgement removes the only segment, which nobody has received. */
  lemma LateAck()
    ensures After(Sending(HALF), Receive(AckOf(1))).queue == [] && !After(Sending(HALF), Receive(AckOf(1))).closed
    ensures After(Sending(HALF), Receive(AckOf(1))).sndNxt == HALF + 1
  {
    var queue := Sending(HALF).queue;
    assert queue[1..] == [] && IsBeforeOrEqual(HALF + 1, 1);
    assert Unacked(queue, 1) == [];
  }

  /**
   From an established connection, with nothing but the delivery of packets that were sent, a byte is
   lost: it is in no buffer and no queue of the sender, and the receiver does not have it.
   */
  lemma OldAckLosesByte() returns (c: Connection)
    ensures Reachable(c) && Short(c) && |c.a.wrote| == HALF + 1 && Acc(c.a, c.b) == HALF
    ensures !c.a.sock.closed && c.a.sock.tx == [] && c.a.sock.queue == [] && !NoneLost(c.a, c.b)
  {
    var d := Rounds(HALF);
    d := SendOne(d, HALF);
    LateAck();
    c := Connection(Next(d.a, Receive(AckOf(1))), d.b);
    hide Reachable, After, Sent;
    ReachNext(d, c, Step(true, Receive(AckOf(1))));
    ReceiveParts(d.a.sock, AckOf(1));
    assert !Held(c.a, HALF);
  }
}
