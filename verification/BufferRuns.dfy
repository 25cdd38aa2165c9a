/**
 Any number of threads in `read`, `write` and `writeAtomic` of one circular buffer. Each round of
 their loops runs under the buffer's lock and is one action: it moves a chunk and raises the event,
 or it finds nothing to do and waits on the event.
 */
module BufferRuns {
  import opened Basics
  import opened CircularBuffers

  datatype Task = Reading(len: nat) | Writing(data: seq<Byte>) | WritingAtomic(data: seq<Byte>)

  /**
   The buffer in memory; the bytes committed and delivered so far, over all threads; what each thread
   is doing; the threads in the event's vector, and those of them whose status is TS_BLOCKED.
   */
  datatype State = State(buffer: Ring, committed: seq<Byte>, delivered: seq<Byte>,
                         tasks: map<nat, Task>, queue: set<nat>, blocked: set<nat>)

  datatype Action = Begin(thread: nat, task: Task) | Round(thread: nat) | Interrupt(thread: nat) | GiveUp(thread: nat)

  predicate Shaped(s: State) {
    RingOk(s.buffer)
  }

  function Left(task: Task): nat {
    match task
    case Reading(n) => n
    case Writing(d) => |d|
    case WritingAtomic(d) => |d|
  }

  /** How many bytes the next round of this task moves. */
  function Chunk(b: Ring, task: Task): (n: nat)
    requires RingOk(b)
    ensures n <= Left(task)
  {
    var Ring(bytes, r, w) := b;
    match task
    case Reading(n) => Min(n, ReadCut(|bytes|, r, w))
    case Writing(d) => Min(|d|, WriteCut(|bytes|, r, w))
    case WritingAtomic(d) => if |d| <= WriteCut(|bytes|, r, w) then |d| else 0
  }

  predicate Can(s: State, a: Action) {
    match a
    case Begin(t, task) => t !in s.tasks && t !in s.blocked && Left(task) > 0
    case Round(t) => t in s.tasks && t !in s.blocked
    case Interrupt(t) => t in s.blocked
    case GiveUp(t) => t in s.tasks && t !in s.blocked
  }

  /** A task after n bytes, and the tasks after that: a finished one is gone. */
  function Rest(task: Task, n: nat): Task
    requires n <= Left(task)
  {
    match task
    case Reading(k) => Reading(k - n)
    case Writing(d) => Writing(d[n..])
    case WritingAtomic(d) => WritingAtomic(d[n..])
  }

  function WithTask(tasks: map<nat, Task>, t: nat, task: Task): map<nat, Task> {
    if Left(task) == 0 then tasks - {t} else tasks[t := task]
  }

  /** A chunk of n > 0 bytes is moved, and the event raised. */
  function Moved(s: State, t: nat, task: Task, n: nat): State
    requires Shaped(s) && n == Chunk(s.buffer, task)
  {
    var s1 := s.(tasks := WithTask(s.tasks, t, Rest(task, n)), queue := {}, blocked := s.blocked - s.queue);
    match task
    case Reading(_) =>
      var (data, buffer) := TakenOut(s.buffer, n);
      s1.(buffer := buffer, delivered := s.delivered + data)
    case Writing(d) => s1.(buffer := PutIn(s.buffer, d[..n]), committed := s.committed + d[..n])
    case WritingAtomic(d) => s1.(buffer := PutIn(s.buffer, d[..n]), committed := s.committed + d[..n])
  }

  function Next(s: State, a: Action): State
    requires Shaped(s) && Can(s, a)
  {
    match a
    case Begin(t, task) => s.(tasks := s.tasks[t := task])
    case Round(t) =>
      if Chunk(s.buffer, s.tasks[t]) == 0 then s.(queue := s.queue + {t}, blocked := s.blocked + {t})
      else Moved(s, t, s.tasks[t], Chunk(s.buffer, s.tasks[t]))
    case Interrupt(t) => s.(blocked := s.blocked - {t})
    case GiveUp(t) => s.(tasks := s.tasks - {t})
  }

  ghost predicate Inv(s: State) {
    && Shaped(s) && s.committed == s.delivered + Queued(s.buffer)
    && (forall t :: t in s.tasks ==> Left(s.tasks[t]) > 0)
    && (forall t :: t in s.blocked ==> t in s.queue && t in s.tasks && Chunk(s.buffer, s.tasks[t]) == 0)
  }

  /** What is copied out at the read position is the front of the queue. */
  lemma TakenFromFront(b: Ring, n: nat)
    requires RingOk(b) && n <= ReadCut(|b.bytes|, b.readPos, b.writePos)
    ensures var (data, b') := TakenOut(b, n); RingOk(b') && Queued(b) == data + Queued(b')
  {
    hide Stored, Distance, ReadCut;
    ReadStored(b.bytes, b.readPos, b.writePos, n);
    assert Queued(b) == Queued(b)[..n] + Queued(b)[n..];
  }

  /** What is copied in at the write position joins the back. */
  lemma PutAtBack(b: Ring, data: seq<Byte>)
    requires RingOk(b) && |data| <= WriteCut(|b.bytes|, b.readPos, b.writePos)
    ensures RingOk(PutIn(b, data)) && Queued(PutIn(b, data)) == Queued(b) + data
  {
    hide Stored, Distance, WriteCut;
    WriteStored(b.bytes, b.readPos, b.writePos, data);
  }

  lemma Associative(a: seq<Byte>, b: seq<Byte>, c: seq<Byte>)
    ensures (a + b) + c == a + (b + c)
  {
  }

  /** The buffer, what was committed and what was delivered, after a chunk of n bytes. */
  lemma MovedParts(s: State, t: nat, task: Task, n: nat)
    requires Shaped(s) && n == Chunk(s.buffer, task)
    ensures var s' := Moved(s, t, task, n);
            match task
            case Reading(_) =>
              && n <= ReadCut(|s.buffer.bytes|, s.buffer.readPos, s.buffer.writePos) && s'.committed == s.committed
              && (s'.buffer, s'.delivered) == (TakenOut(s.buffer, n).1, s.delivered + TakenOut(s.buffer, n).0)
            case _ =>
              && n <= WriteCut(|s.buffer.bytes|, s.buffer.readPos, s.buffer.writePos) && s'.delivered == s.delivered
              && (s'.buffer, s'.committed) == (PutIn(s.buffer, task.data[..n]), s.committed + task.data[..n])
  {
    hide TakenOut, PutIn, ReadCut, WriteCut;
  }

  /** Copying in at one position and out at the other keeps the order, around the end of the ring too. */
  lemma MovedInOrder(s: State, t: nat, task: Task)
    requires Shaped(s) && s.committed == s.delivered + Queued(s.buffer)
    ensures var s' := Moved(s, t, task, Chunk(s.buffer, task));
            Shaped(s') && s'.committed == s'.delivered + Queued(s'.buffer)
  {
    var n, b := Chunk(s.buffer, task), s.buffer;
    MovedParts(s, t, task, n);
    hide Moved, Chunk, Queued, ReadCut, WriteCut, TakenOut, PutIn, RingOk;
    if task.Reading? {
      TakenFromFront(b, n);
      Associative(s.delivered, TakenOut(b, n).0, Queued(TakenOut(b, n).1));
    } else {
      PutAtBack(b, task.data[..n]);
      Associative(s.delivered, Queued(b), task.data[..n]);
    }
  }

  /** A chunk moved unblocks everybody, so nobody is left waiting for something that is there. */
  lemma StepInv(s: State, a: Action)
    requires Inv(s) && Can(s, a)
    ensures Inv(Next(s, a))
  {
    hide Queued, Chunk, TakenOut, PutIn;
    match a
    case Round(t) => MovedInOrder(s, t, s.tasks[t]);
    case _ =>
  }

  predicate Initial(s: State) {
    && |s.buffer.bytes| > 0 && s.buffer.readPos == s.buffer.writePos == 0 && s.committed == s.delivered == []
    && s.tasks == map[] && s.queue == s.blocked == {}
  }

  ghost predicate Run(states: seq<State>, actions: seq<Action>) {
    && |states| == |actions| + 1 && Initial(states[0])
    && forall i :: 0 <= i < |actions| ==>
         Shaped(states[i]) && Can(states[i], actions[i]) && states[i + 1] == Next(states[i], actions[i])
  }

  lemma {:induction false} RunInv(states: seq<State>, actions: seq<Action>, i: nat)
    requires Run(states, actions) && i <= |actions|
    ensures Inv(states[i])
  {
    if i > 0 {
      hide Inv, Next;
      RunInv(states, actions, i - 1);
      StepInv(states[i - 1], actions[i - 1]);
    }
  }

  /** Bytes come out in the order in which they went in. */
  lemma DeliveredIsPrefix(states: seq<State>, actions: seq<Action>, i: nat)
    requires Run(states, actions) && i <= |actions|
    ensures states[i].delivered <= states[i].committed
    ensures |states[i].committed| - |states[i].delivered| <= |states[i].buffer.bytes| - 1
  {
    RunInv(states, actions, i);
  }

  /**
   No wakeup is lost: a blocked reader means an empty buffer, a blocked writer a full one, and a
   blocked atomic writer data that does not fit before the end of the ring.
   */
  lemma BlockedMeansStuck(states: seq<State>, actions: seq<Action>, i: nat, t: nat)
    requires Run(states, actions) && i <= |actions| && t in states[i].blocked
    ensures t in states[i].tasks
    ensures Shaped(states[i])
    ensures var Ring(bytes, r, w) := states[i].buffer;
            var stored := |Queued(states[i].buffer)|;
            match states[i].tasks[t]
            case Reading(_) => stored == 0
            case Writing(_) => stored == |bytes| - 1
            case WritingAtomic(d) => |d| > Min(|bytes| - w, |bytes| - 1 - stored)
  {
    RunInv(states, actions, i);
    assert Left(states[i].tasks[t]) > 0;
  }

  /**
   What a round moves, in plain terms: as many bytes as there are, or room for, before the end of the ring.
   A reader gets the oldest ones; a writer's data is committed from the front, and the rest stays its task.
   */
  lemma RoundMoves(s: State, t: nat)
    requires Inv(s) && Can(s, Round(t))
    ensures var s', Ring(bytes, r, w), q := Next(s, Round(t)), s.buffer, Queued(s.buffer);
            match s.tasks[t]
            case Reading(len) =>
              var n := Min(len, Min(|bytes| - r, |q|));
              && s'.delivered == s.delivered + q[..n] && s'.committed == s.committed
              && (n == len ==> t !in s'.tasks) && (n < len ==> t in s'.tasks && s'.tasks[t] == Reading(len - n))
            case Writing(d) =>
              var n := Min(|d|, Min(|bytes| - w, |bytes| - 1 - |q|));
              && s'.committed == s.committed + d[..n] && s'.delivered == s.delivered
              && (n == |d| ==> t !in s'.tasks) && (n < |d| ==> t in s'.tasks && s'.tasks[t] == Writing(d[n..]))
            case WritingAtomic(d) =>
              var done := |d| <= Min(|bytes| - w, |bytes| - 1 - |q|);
              && s'.committed == (if done then s.committed + d else s.committed) && s'.delivered == s.delivered
              && (done ==> t !in s'.tasks) && (!done ==> t in s'.tasks && s'.tasks[t] == WritingAtomic(d))
    ensures var s' := Next(s, Round(t));
            forall u :: u in s.tasks && u != t ==> u in s'.tasks && s'.tasks[u] == s.tasks[u]
  {
    hide Distance, ReadCut, WriteCut, Stored;
    assert Left(s.tasks[t]) > 0;
    var b, n := s.buffer, Chunk(s.buffer, s.tasks[t]);
    match s.tasks[t]
    case Reading(len) => ReadStored(b.bytes, b.readPos, b.writePos, n);
    case Writing(d) =>
    case WritingAtomic(d) => assert d[..|d|] == d;
  }

  /** A round that moves nothing blocks its thread; one that moves something wakes everybody who waits. */
  lemma RoundWakes(s: State, t: nat)
    requires Inv(s) && Can(s, Round(t))
    ensures var s', Ring(bytes, r, w), stored := Next(s, Round(t)), s.buffer, |Queued(s.buffer)|;
            var stuck := match s.tasks[t]
                         case Reading(_) => stored == 0
                         case Writing(_) => stored == |bytes| - 1
                         case WritingAtomic(d) => |d| > Min(|bytes| - w, |bytes| - 1 - stored);
            if stuck then s'.blocked == s.blocked + {t} && t in s'.queue && s'.buffer == s.buffer
            else s'.blocked == {} && s'.queue == {}
  {
    hide Distance, ReadCut, WriteCut, TakenOut, PutIn;
    assert Left(s.tasks[t]) > 0;
  }

  /** An atomic write is committed whole, by one action. */
  lemma AtomicIsWhole(s: State, t: nat)
    requires Inv(s) && Can(s, Round(t)) && s.tasks[t].WritingAtomic?
    ensures var s' := Next(s, Round(t));
            || (s'.committed == s.committed && s'.tasks == s.tasks)
            || (s'.committed == s.committed + s.tasks[t].data && t !in s'.tasks)
  {
    var d := s.tasks[t].data;
    assert d[..|d|] == d;
  }
}
