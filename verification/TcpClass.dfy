/** The socket object of mod/core/netstack/socket/inet/tcp.cpp, tied to the events of the run model. */
module TcpSockets {
  import opened Basics
  import opened SequenceNumbers
  import opened Tcp

  function Concat(packets: seq<Packet>): seq<Byte> {
    if packets == [] then [] else Concat(packets[..|packets| - 1]) + packets[|packets| - 1].data
  }

  /** Non-empty packets of at most mss bytes, numbered without gaps from `from` to `to`. */
  predicate Cuts(packets: seq<Packet>, from: u32, to: u32, mss: nat) {
    if packets == [] then from == to
    else
      var p := packets[|packets| - 1];
      && Cuts(packets[..|packets| - 1], from, p.seqn, mss)
      && 0 < |p.data| <= mss && to == Add(p.seqn, |p.data|)
  }

  lemma OneMore(packets: seq<Packet>, p: Packet, from: u32, mss: nat)
    requires Cuts(packets, from, p.seqn, mss) && 0 < |p.data| <= mss
    ensures Cuts(packets + [p], from, Add(p.seqn, |p.data|), mss)
    ensures Concat(packets + [p]) == Concat(packets) + p.data
  {
    assert (packets + [p])[..|packets|] == packets;
  }

  /** n rounds of package, one after the other. */
  ghost predicate Packs(s: Sock, s': Sock, n: nat)
    decreases n
  {
    if n == 0 then s' == s
    else exists t :: Packs(s, t, n - 1) && Enabled(t, Pack) && s' == After(t, Pack)
  }

  /** All packets but the last are as long as they may be. */
  predicate Full(packets: seq<Packet>, mss: nat) {
    forall i :: 0 <= i < |packets| - 1 ==> |packets[i].data| == mss
  }

  /** What package has done after sending the packets `out`. */
  ghost predicate Packaged(s: Sock, s': Sock, out: seq<Packet>) {
    && !s'.closed && s'.sndMss == s.sndMss && Packs(s, s', |out|) && Cuts(out, s.sndNxt, s'.sndNxt, s.sndMss)
    && Concat(out) + s'.tx == s.tx && |Concat(out)| + s'.sndWnd == s.sndWnd
    && Full(out, s.sndMss) && (out != [] && s'.tx != [] && s'.sndWnd != 0 ==> |out[|out| - 1].data| == s.sndMss)
  }

  lemma UnackedNone(ackn: u32)
    ensures Unacked([], ackn) == []
  {
  }

  lemma PackagedNone(s: Sock)
    requires !s.closed
    ensures Packaged(s, s, [])
  {
  }

  lemma PackagedStep(s: Sock, s': Sock, s'': Sock, out: seq<Packet>, p: Packet)
    requires Packaged(s, s', out) && Enabled(s', Pack) && s'' == After(s', Pack)
    requires p.data + s''.tx == s'.tx && 0 < |p.data| <= s'.sndMss == s''.sndMss && |p.data| + s''.sndWnd == s'.sndWnd
    requires p.seqn == s'.sndNxt && s''.sndNxt == Add(s'.sndNxt, |p.data|) && !s''.closed
    requires s''.tx != [] && s''.sndWnd != 0 ==> |p.data| == s.sndMss
    ensures Packaged(s, s'', out + [p])
  {
    hide After, Enabled, Add, Cuts;
    OneMore(out, p, s.sndNxt, s.sndMss);
    assert Concat(out) + p.data + s''.tx == Concat(out) + (p.data + s''.tx);
    assert Packs(s, s'', |out| + 1);
  }

  /** One round of the loop that erases acknowledged segments, after `seen` segments of `was`. */
  lemma EraseStep(was: seq<Segment>, seen: nat, ackn: u32)
    requires seen < |was|
    ensures var g, kept := was[seen], Unacked(was[..seen], ackn);
            var queue := kept + was[seen..];
            && queue[|kept|] == g
            && if IsBeforeOrEqual(g.ackWith, ackn)
               then Unacked(was[..seen + 1], ackn) == kept
                 && queue[..|kept|] + queue[|kept| + 1..] == kept + was[seen + 1..]
               else Unacked(was[..seen + 1], ackn) == kept + [g] && queue == kept + [g] + was[seen + 1..]
  {
    hide Unacked;
    assert was[..seen + 1] == was[..seen] + [was[seen]] && was[seen..] == [was[seen]] + was[seen + 1..];
    UnackedAppend(was[..seen], was[seen], ackn);
  }

  /** What packetReceived leaves behind, in plain terms. */
  ghost predicate Received(s: Sock, p: Packet, t: Sock) {
    var fits := |s.rx| + |p.data| <= 8255;
    if s.closed then t == s
    else if p.data != [] && p.seqn == s.rcvNxt && !fits then
      t.closed && t.sendShut && t.receiveShut && t.queue == [] && t.rx == s.rx && t.rcvNxt == s.rcvNxt
    else
      && !t.closed && t.sendShut == s.sendShut && t.receiveShut == s.receiveShut
      && (forall g :: g in t.queue <==> g in s.queue && !IsBeforeOrEqual(g.ackWith, p.ack))
      && if p.data != [] && p.seqn == s.rcvNxt
         then && t.rcvNxt == (s.rcvNxt + |p.data|) % 0x1_0000_0000 && t.sendingAck
              && t.rx == (if s.receiveShut then s.rx else s.rx + p.data)
              && t.notify == (s.notify || 8191 - |t.rx| < 4128)
         else t.rcvNxt == s.rcvNxt && t.rx == s.rx && t.sendingAck == s.sendingAck && t.notify == s.notify
  }

  /** What packetReceived answers: data that ends before the expected number is acknowledged up to its end. */
  function Answer(s: Sock, p: Packet): set<Packet> {
    var end := (p.seqn + |p.data|) % 0x1_0000_0000;
    if !s.closed && p.data != [] && p.seqn != s.rcvNxt && IsBeforeOrEqual(end, s.rcvNxt)
    then {Packet(s.sndNxt, end, if |s.rx| < 8191 then 8191 - |s.rx| else 0, [])} else {}
  }

  /** The acknowledgement part leaves the receiving half alone. */
  lemma AckedKeeps(s: Sock, p: Packet)
    ensures var t := Acked(s, p);
            && t == s.(sndUna := t.sndUna, sndWnd := t.sndWnd, queue := t.queue)
            && forall g :: g in t.queue <==> g in s.queue && !IsBeforeOrEqual(g.ackWith, p.ack)
  {
    hide IsBefore, IsBeforeOrEqual;
  }

  lemma ReceivedIs(s: Sock, p: Packet)
    ensures Received(s, p, After(s, Receive(p)))
  {
    AckedKeeps(s, p);
    AddMod(s.rcvNxt, |p.data|);
    hide Acked, IsBeforeOrEqual, Add;
  }

  lemma AnswerIs(s: Sock, p: Packet)
    ensures Sent(s, Receive(p)) == Answer(s, p)
  {
    AckedKeeps(s, p);
    AddMod(p.seqn, |p.data|);
    hide Acked, IsBeforeOrEqual, Add;
  }

  lemma AddMod(s: u32, n: nat)
    requires n < M
    ensures Add(s, n) == (s + n) % 0x1_0000_0000
  {
  }

  lemma ReceiveMovesAck(s: Sock, p: Packet)
    ensures !s.closed ==> forall isn: u32 :: Comparable(isn, p.ack, s.sndUna) ==>
              var t := After(s, Receive(p));
              && Pos(isn, t.sndUna) == Max(Pos(isn, s.sndUna), Pos(isn, p.ack))
              && t.sndWnd == if Pos(isn, p.ack) >= Pos(isn, s.sndUna) then p.window else s.sndWnd
  {
    forall isn: u32 | !s.closed && Comparable(isn, p.ack, s.sndUna)
      ensures var t := After(s, Receive(p));
              && Pos(isn, t.sndUna) == Max(Pos(isn, s.sndUna), Pos(isn, p.ack))
              && t.sndWnd == if Pos(isn, p.ack) >= Pos(isn, s.sndUna) then p.window else s.sndWnd
    {
      AckMoves(s, p, isn);
      hide Acked, Pos, Comparable, Add;
    }
  }

  class TCPSocket {
    var sndUna: u32
    var sndNxt: u32
    var sndWnd: nat
    var sndMss: Mss
    var rcvNxt: u32
    var sendingAck: bool
    var notify: bool
    var closed: bool
    var sendShut: bool
    var receiveShut: bool
    var tx: seq<Byte>
    var rx: seq<Byte>
    var queue: seq<Segment>

    ghost function Value(): Sock
      reads this
    {
      Sock(sndUna, sndNxt, sndWnd, sndMss, rcvNxt, sendingAck, notify, closed, sendShut, receiveShut, tx, rx, queue)
    }

    method GetWindow() returns (w: nat)
      ensures w == Window(Value()) == if |rx| < 8191 then 8191 - |rx| else 0
    {
      var window := RX_SIZE - 1 - |rx|;
      w := if window - PROBE_SLACK > 0 then window - PROBE_SLACK else 0;
    }

    /** One round of sendTo: as much of the data as there is room for. */
    method SendChunk(data: seq<Byte>) returns (n: nat)
      requires !closed && !sendShut && |tx| <= TX_SIZE - 1
      modifies this
      ensures n == Min(TX_SIZE - 1 - old(|tx|), |data|)
      ensures Enabled(old(Value()), Write(data[..n])) && Value() == After(old(Value()), Write(data[..n]))
    {
      n := Min(TX_SIZE - 1 - |tx|, |data|);
      tx := tx + data[..n];
    }

    /** One round of receiveFrom. */
    method ReceiveChunk(len: nat) returns (data: seq<Byte>)
      modifies this
      ensures |data| == Min(old(|rx|), len) && data + rx == old(rx)
      ensures Value() == After(old(Value()), Read(|data|))
    {
      data := rx[..Min(|rx|, len)];
      rx := rx[|data|..];
    }

    /** The body of the loop of package. */
    method PackOne() returns (p: Packet)
      requires Enabled(Value(), Pack)
      modifies this
      ensures Value() == After(old(Value()), Pack) && Sent(old(Value()), Pack) == {p}
      ensures p.data + tx == old(tx) && p.data != [] && |p.data| <= sndMss == old(sndMss)
      ensures p.seqn == old(sndNxt) && sndNxt == Add(old(sndNxt), |p.data|) && !closed
      ensures |p.data| + sndWnd == old(sndWnd) && |p.data| == Min(Min(|old(tx)|, old(sndWnd)), sndMss)
      ensures p.ack == old(rcvNxt) && p.window == if |rx| < 8191 then 8191 - |rx| else 0
      ensures queue == old(queue) + [Segment(p.seqn, p.ack, p.data, sndNxt, 0)]
    {
      hide Add;
      var size := Min(Min(|tx|, sndWnd), sndMss);
      var g := Segment(sndNxt, rcvNxt, tx[..size], Add(sndNxt, size), 0);
      var w := GetWindow();
      tx := tx[size..];
      sndNxt := Add(sndNxt, size);
      sndWnd := sndWnd - size;
      queue := queue + [g];
      sendingAck := false;
      p := Packet(g.seqn, g.ack, w, g.data);
    }

    /**
     package while nobody else gets the lock: the whole transmit buffer goes out, cut into
     consecutive segments, or the code runs into a closed window (`ok` is false).
     */
    method Package() returns (ok: bool, out: seq<Packet>)
      requires !closed
      modifies this
      ensures ok <==> old(|tx|) <= old(sndWnd)
      ensures Packs(old(Value()), Value(), |out|)
      ensures Concat(out) + tx == old(tx) && |Concat(out)| + sndWnd == old(sndWnd)
      ensures if ok then tx == [] else sndWnd == 0
      ensures Cuts(out, old(sndNxt), sndNxt, sndMss) && Full(out, sndMss)
    {
      hide After, Sent, Cuts, Concat;
      out := [];
      PackagedNone(Value());
      while tx != []
        invariant Packaged(old(Value()), Value(), out)
        decreases |tx|
      {
        if sndWnd == 0 { return false, out; }
        ghost var s := Value();
        var p := PackOne();
        PackagedStep(old(Value()), s, Value(), out, p);
        out := out + [p];
      }
      ok := true;
    }

    /** The end of package: what was accepted is acknowledged, if no data packet has done it. */
    method CompAck() returns (out: seq<Packet>)
      requires !closed
      modifies this`sendingAck
      ensures var window := if |rx| < 8191 then 8191 - |rx| else 0;
              out == if old(sendingAck) then [Packet(sndNxt, rcvNxt, window, [])] else []
      ensures !sendingAck
      ensures old(sendingAck) ==> Value() == After(old(Value()), Event.CompAck)
      ensures old(sendingAck) ==> Sent(old(Value()), Event.CompAck) == set q | q in out
    {
      out := [];
      if !sendingAck { return; }
      var w := GetWindow();
      out := [Packet(sndNxt, rcvNxt, w, [])];
      sendingAck := false;
    }

    /** The end of a round of receiveFrom: the peer learns of the room, if it had become scarce. */
    method UpdateWindow() returns (out: seq<Packet>)
      requires !closed
      modifies this`notify
      ensures var window := if |rx| < 8191 then 8191 - |rx| else 0;
              out == if old(notify) then [Packet(sndNxt, rcvNxt, window, [])] else []
      ensures !notify
      ensures old(notify) ==> Value() == After(old(Value()), WindowUpdate)
      ensures old(notify) ==> Sent(old(Value()), WindowUpdate) == set q | q in out
    {
      out := [];
      if !notify { return; }
      notify := false;
      var w := GetWindow();
      out := [Packet(sndNxt, rcvNxt, w, [])];
    }

    /** The loop that removes acknowledged segments from the retransmission queue. */
    method EraseAcked(ackn: u32)
      modifies this`queue
      ensures queue == Unacked(old(queue), ackn)
    {
      hide Unacked, IsBeforeOrEqual;
      var count, i := |queue|, 0;
      ghost var was, seen := queue, 0;
      assert was[..0] == [] && Unacked([], ackn) == [] by { UnackedNone(ackn); }
      while i < count
        invariant 0 <= i <= count == |queue| && seen <= |was|
        invariant queue == Unacked(was[..seen], ackn) + was[seen..] && i == |Unacked(was[..seen], ackn)|
        decreases count - i
      {
        var g := queue[i];
        EraseStep(was, seen, ackn);
        seen := seen + 1;
        if !IsBeforeOrEqual(g.ackWith, ackn) {
          i := i + 1;
          continue;
        }
        queue := queue[..i] + queue[i + 1..];
        count := count - 1;
      }
      assert was[..seen] == was && was[seen..] == [];
    }

    /** packetReceived. */
    method PacketReceived(p: Packet) returns (out: seq<Packet>)
      modifies this
      ensures Value() == After(old(Value()), Receive(p))
      ensures Sent(old(Value()), Receive(p)) == set q | q in out
      ensures !old(closed) ==> forall isn: u32 :: Comparable(isn, p.ack, old(sndUna)) ==>
                && Pos(isn, sndUna) == Max(Pos(isn, old(sndUna)), Pos(isn, p.ack))
                && sndWnd == if Pos(isn, p.ack) >= Pos(isn, old(sndUna)) then p.window else old(sndWnd)
      ensures Received(old(Value()), p, Value()) && (set q | q in out) == Answer(old(Value()), p)
    {
      ReceivedIs(Value(), p);
      AnswerIs(Value(), p);
      ReceiveMovesAck(Value(), p);
      out := [];
      if closed { return; }
      if IsAfterOrEqual(p.ack, sndUna) {
        sndUna := p.ack;
        sndWnd := p.window;
      }
      EraseAcked(p.ack);
      assert Value() == Acked(old(Value()), p);
      hide Acked, IsBefore;
      out := TakeData(p);
    }

    /** The part of packetReceived that looks at the data. */
    method TakeData(p: Packet) returns (out: seq<Packet>)
      modifies this
      ensures Value() == Taken(old(Value()), p)
      ensures (set q | q in out)
           == if IsRepeat(old(Value()), p) then {PureAck(old(Value()), Add(p.seqn, |p.data|))} else {}
    {
      hide Add, IsBeforeOrEqual;
      out := [];
      if p.data == [] { return; }
      if p.seqn == rcvNxt {
        if |p.data| > RX_SIZE - 1 - |rx| {
          closed, sendShut, receiveShut, queue := true, true, true, [];
          return;
        }
        rcvNxt := Add(rcvNxt, |p.data|);
        if !receiveShut { rx := rx + p.data; }
        sendingAck := true;
        var w := GetWindow();
        if w < RX_SIZE / 2 { notify := true; }
      } else if IsBeforeOrEqual(Add(p.seqn, |p.data|), rcvNxt) {
        var w := GetWindow();
        out := [Packet(sndNxt, Add(p.seqn, |p.data|), w, [])];
      }
    }

    /** The body of the loop of retransmit for a segment whose time has come. */
    method RetransmitOne(i: nat) returns (out: seq<Packet>)
      requires !closed && i < |queue|
      modifies this
      ensures Value() == After(old(Value()), Retransmit(i))
      ensures Sent(old(Value()), Retransmit(i)) == set q | q in out
      ensures closed <==> old(queue[i].retries) >= 5
      ensures !closed ==> |out| == 1 && out[0].seqn == old(queue[i].seqn) && out[0].ack == old(queue[i].ack)
      ensures !closed ==> out[0].data == old(queue[i].data) && out[0].window == if |rx| < 8191 then 8191 - |rx| else 0
      ensures queue == if closed then [] else old(queue)[i := old(queue[i]).(retries := old(queue[i].retries) + 1)]
      ensures closed ==> out == []
      ensures tx == old(tx) && rx == old(rx) && sndUna == old(sndUna) && sndNxt == old(sndNxt) && sndWnd == old(sndWnd)
    {
      out := [];
      var g := queue[i];
      if g.retries + 1 > RETRIES {
        closed, sendShut, receiveShut, queue := true, true, true, [];
        return;
      }
      queue := queue[i := g.(retries := g.retries + 1)];
      var w := GetWindow();
      out := [Packet(g.seqn, g.ack, w, g.data)];
    }
  }
}
