/** proc/scheduler.cpp: `schedule` on one CPU, over the ring of threads. */
module Scheduling {
  import opened Basics
  import opened ThreadRing
  import opened ScheduleRuns

  /** The index i steps after f around the ring; i goes up to n. */
  function At(f: nat, i: nat, n: nat): (k: nat)
    requires f < n && i <= n
    ensures k < n && (i < n ==> Dist(f, k, n) == i) && (i == 0 || i == n ==> k == f)
  {
    if f + i < n then f + i else f + i - n
  }

  lemma AtNext(f: nat, i: nat, n: nat)
    requires f < n && i < n
    ensures At(f, i + 1, n) == Up(At(f, i, n), n)
    ensures forall j :: 0 <= j < n && Dist(f, j, n) == i ==> j == At(f, i, n)
  {
  }

  /** A scan leaves a status alone, or makes a sleeper runnable. */
  predicate Woken(before: Status, after: Status) {
    after == before || (before == Sleeping && after == Runnable)
  }

  /** The index of a thread among the nodes, -1 if it is not there. */
  ghost function IndexIn(nodes: seq<Thread>, t: Thread?): (i: int)
    ensures -1 <= i < |nodes| && (i >= 0 ==> nodes[i] == t)
            && (i == -1 ==> forall j :: 0 <= j < |nodes| ==> nodes[j] != t)
  {
    if j: int :| 0 <= j < |nodes| && nodes[j] == t then j else -1
  }

  ghost function Views(ts: seq<Thread>): (r: seq<View>)
    reads ts
    ensures |r| == |ts| && forall i :: 0 <= i < |ts| ==> r[i] == ts[i].Info()
  {
    seq(|ts|, i requires 0 <= i < |ts| reads ts => ts[i].Info())
  }

  class Core {
    const ring: Ring
    const me: nat
    var current: Thread

    /** The current thread is a thread of the ring, the idle thread, or one that has left the ring. */
    ghost predicate Valid()
      reads this, ring, ring.nodes, ring.idles, current
    {
      && ring.Valid() && me < |ring.idles| && current.locked
      && (current in ring.nodes || current == ring.idles[me] || current !in ring.idles)
      && (current.next == null || current.next in ring.nodes)
    }

    constructor (ring: Ring, me: nat, current: Thread)
      ensures this.ring == ring && this.me == me && this.current == current
    {
      this.ring, this.me, this.current := ring, me, current;
    }

    /** The thread at which the next scan starts. */
    function Start(): (t: Thread?)
      reads this, ring, ring.head, current
    {
      if current.next == null then ring.head.next else current.next
    }

    ghost function Snapshot(): (s: Shot)
      reads this, ring, ring.nodes, ring.head, current
    {
      var f := IndexIn(ring.nodes, Start());
      Shot(Views(ring.nodes), IndexIn(ring.nodes, current), if f >= 0 then f else 0)
    }

    /** The threads of the ring that could be dispatched now. */
    ghost function Free(uptime: nat): (r: seq<bool>)
      reads this, ring, ring.nodes
      ensures |r| == |ring.nodes|
      ensures forall k :: 0 <= k < |r| ==> r[k] == (ring.nodes[k].Ready(uptime) && !ring.nodes[k].locked)
    {
      seq(|ring.nodes|, k requires 0 <= k < |ring.nodes| reads this, ring, ring.nodes =>
        ring.nodes[k].Ready(uptime) && !ring.nodes[k].locked)
    }

    /** The switch over the status: whether the thread is awake. A sleeper that is becomes runnable. */
    method WakeUp(t: Thread, uptime: nat) returns (awake: bool)
      modifies t`status
      ensures awake == old(t.Awake(uptime)) && t.Awake(uptime) == awake && t.Ready(uptime) == old(t.Ready(uptime))
      ensures t.status == if awake && old(t.status) == Sleeping then Runnable else old(t.status)
    {
      match t.status
      case Runnable => awake := true;
      case Blocked => awake := t.interrupted;
      case Sleeping =>
        awake := uptime >= t.wakeupAt || t.interrupted;
        if awake { t.status := Runnable; }
      case Other => awake := false;
    }

    /** One round of the scan: whether thread t, at index k, can be dispatched. */
    method Visit(t: Thread, uptime: nat, ghost k: nat) returns (chosen: bool)
      requires k < |ring.nodes| && t == ring.nodes[k]
      modifies t`status
      ensures Free(uptime) == old(Free(uptime)) && chosen == old(Free(uptime))[k]
      ensures chosen ==> t.counter + Gain(t.nice) >= TICK
      ensures Woken(old(t.status), t.status) && (chosen ==> t.status != Sleeping)
    {
      hide Free;
      var awake := WakeUp(t, uptime);
      chosen := awake && !t.masked && t.counter + Gain(t.nice) >= TICK && !t.locked;
    }

    /**
     The scan: the first thread that can be dispatched, from the one behind `from` once around the
     ring. It finds none only if there is none.
     */
    method Scan(from: Thread, uptime: nat, ghost f: nat) returns (found: Thread?, last: Thread, ghost k: nat)
      requires ring.Valid() && f < |ring.nodes| && from.next == ring.nodes[f]
      modifies ring.nodes`status
      ensures Free(uptime) == old(Free(uptime))
      ensures forall t :: t in old(ring.nodes) ==> Woken(old(t.status), t.status)
      ensures found != null ==> found.counter + Gain(found.nice) >= TICK && found.status != Sleeping
      ensures found != null ==> k < |ring.nodes| && found == ring.nodes[k] && First(old(Free(uptime)), f, k)
      ensures found == null ==> true !in old(Free(uptime)) && last == ring.nodes[f]
      ensures forall t :: t in old(ring.nodes) && t == found ==>
                old(t.status == Runnable || (t.status == Sleeping && t.wakeupAt <= uptime)
                    || (t.interrupted && t.status != Other))
      ensures found == null ==> forall t :: t in old(ring.nodes) ==>
                old(t.locked || t.masked || t.counter + Gain(t.nice) < TICK
                    || (t.status != Runnable && !(t.status == Sleeping && t.wakeupAt <= uptime)
                        && !(t.interrupted && t.status != Other)))
    {
      hide Ring.Valid, Free, At, Dist, Up;
      ghost var nodes, n, e := ring.nodes, |ring.nodes|, Free(uptime);
      RingNexts(ring);
      FreeMeans(this, uptime);
      var i := 0;
      last, k := from, f;
      while i <= ring.size
        invariant i <= n + 1 && Free(uptime) == e
        invariant forall t :: t in nodes ==> Woken(old(t.status), t.status)
        invariant i <= n ==> last.next == nodes[At(f, i, n)]
        invariant i == n + 1 ==> last == nodes[f]
        invariant forall j :: 0 <= j < n && Dist(f, j, n) < i ==> !e[j]
      {
        k := At(f, i, n);
        last := last.next;
        var chosen := Visit(last, uptime, k);
        if chosen { return last, last, k; }
        if i < n { AtNext(f, i, n); }
        i := i + 1;
      }
      found := null;
    }

    /** Credit in range: below 1000000 for a thread that no CPU holds, below 1950000 for all. */
    ghost predicate Credits()
      reads this, ring, ring.nodes, ring.idles, current
      requires me < |ring.idles|
    {
      && 0 <= current.counter < 1950000 && 0 <= ring.idles[me].counter < TICK
      && (forall t :: t in ring.nodes ==> CreditOk(t) && (t.locked || t.counter < TICK))
    }

    /** The first part: whether the current thread goes on. */
    method Tick(contended: bool) returns (stays: bool)
      modifies current`counter
      ensures current.counter
           == old(current.counter) - if !current.critical && old(current.counter) >= TICK then TICK else 0
      ensures stays <==> current.critical || (current.status == Runnable && (contended || old(current.counter) >= TICK))
    {
      if current.critical { return true; }
      if current.counter >= TICK {
        current.counter := current.counter - TICK;
        if current.status == Runnable { return true; }
      }
      stays := contended && current.status == Runnable;
    }

    /** The second part, with the scheduler lock held: releases the current thread and takes the next. */
    method Switch(uptime: nat) returns (ghost e: seq<bool>, ghost f: nat, ghost k: nat)
      requires Valid() && Credits() && current.counter < TICK
      modifies this, current, ring.nodes, ring.idles[me]
      ensures Valid() && Credits()
      ensures ring.nodes == old(ring.nodes) && |e| == |ring.nodes| && f < |e|
      ensures ring.nodes[f] == old(Start())
      ensures forall j :: 0 <= j < |e| ==>
                e[j] == old(ring.nodes[j].Ready(uptime) && (!ring.nodes[j].locked || ring.nodes[j] == current))
      ensures forall t :: t in ring.nodes && t != current ==>
                t.counter == old(t.counter) && t.locked == (t != old(current) && old(t.locked))
      ensures forall t :: t in old(ring.nodes) ==> Woken(old(t.status), t.status) && t.nice == old(t.nice)
      ensures current != old(current) ==> !old(current).locked
      ensures true in e ==> k < |e| && current == ring.nodes[k] && First(e, f, k) && current.status != Sleeping
      ensures forall j :: 0 <= j < |e| ==>
                e[j] == old(&& (!ring.nodes[j].locked || ring.nodes[j] == current) && !ring.nodes[j].masked
                            && (ring.nodes[j].nice <= 0 || ring.nodes[j].counter >= 25000 * ring.nodes[j].nice)
                            && (ring.nodes[j].status == Runnable
                                || (ring.nodes[j].status == Sleeping && ring.nodes[j].wakeupAt <= uptime)
                                || (ring.nodes[j].interrupted && ring.nodes[j].status != Other)))
      ensures true in e ==> current.counter == old(ring.nodes[k].counter) + Gain(current.nice) - TICK
      ensures true !in e ==> current == ring.idles[me] && current.next == ring.nodes[f]
      ensures forall t :: t in old(ring.nodes) && t != old(current) && old(t.locked) ==> t != current
      ensures Dispatches(old(Snapshot()), Snapshot(), uptime)
    {
      hide Ring.Valid, First, Dispatches, Gain, Credits, Woken, Views, IndexIn;
      ghost var before, was := Views(ring.nodes), current;
      ghost var start := FirstIndex();
      StartIndex(this, start);
      AllReady(this, uptime);
      e, f, k := SwitchThreads(uptime);
      assert f == start by { NodesDistinct(ring); }
      ScanStarts(this, f, k);
      ShotsDispatch(ring.nodes, before, Views(ring.nodes), was, current, Start(), uptime, e, f, k);
    }

    method SwitchThreads(uptime: nat) returns (ghost e: seq<bool>, ghost f: nat, ghost k: nat)
      requires Valid() && Credits() && current.counter < TICK
      modifies this, current, ring.nodes, ring.idles[me]
      ensures Valid() && Credits()
      ensures ring.nodes == old(ring.nodes) && |e| == |ring.nodes| && f < |e|
      ensures ring.nodes[f] == old(Start())
      ensures forall j :: 0 <= j < |e| ==>
                e[j] == old(ring.nodes[j].Ready(uptime) && (!ring.nodes[j].locked || ring.nodes[j] == current))
      ensures forall t :: t in ring.nodes && t != current ==>
                t.counter == old(t.counter) && t.locked == (t != old(current) && old(t.locked))
      ensures forall t :: t in old(ring.nodes) ==> Woken(old(t.status), t.status) && t.nice == old(t.nice)
      ensures current != old(current) ==> !old(current).locked
      ensures true in e ==> k < |e| && current == ring.nodes[k] && First(e, f, k) && current.status != Sleeping
      ensures true in e ==> current.counter == old(ring.nodes[k].counter) + Gain(current.nice) - TICK
      ensures true !in e ==> current == ring.idles[me] && current.next == ring.nodes[f]
      ensures forall t :: t in old(ring.nodes) && t != old(current) && old(t.locked) ==> t != current
    {
      hide Ring.Valid, Free, First, Thread.Ready;
      f := FirstIndex();
      var thread := current;
      if current.next == null { thread := ring.head; }
      assert thread.next == ring.nodes[f] by { RingNexts(ring); }
      e := Release(uptime);
      k := TakeNext(thread, uptime, f);
    }

    /** The scan and what follows from it. */
    method TakeNext(thread: Thread, uptime: nat, ghost f: nat) returns (ghost k: nat)
      requires ring.Valid() && me < |ring.idles| && Parked() && f < |ring.nodes| && thread.next == ring.nodes[f]
      modifies this, ring.nodes, ring.idles[me]
      ensures Valid() && Credits() && ring.nodes == old(ring.nodes)
      ensures forall t :: t in ring.nodes && t != current ==> t.counter == old(t.counter) && t.locked == old(t.locked)
      ensures current != ring.idles[me] ==> ring.idles[me].locked == old(ring.idles[me].locked)
      ensures forall t :: t in old(ring.nodes) && old(t.locked) ==> t != current
      ensures forall t :: t in old(ring.nodes) ==> Woken(old(t.status), t.status) && t.nice == old(t.nice)
      ensures var e := old(Free(uptime));
              if true in e then k < |e| && current == ring.nodes[k] && First(e, f, k) && current.status != Sleeping
                                && current.counter == old(ring.nodes[k].counter) + Gain(current.nice) - TICK
              else current == ring.idles[me] && current.next == ring.nodes[f]
    {
      hide Ring.Valid, Free, Thread.Ready;
      var found, last;
      IdleApart(ring, me);
      found, last, k := Scan(thread, uptime, f);
      RingKept(ring);
      if found != null {
        Dispatch(found, k);
      } else {
        GoIdle(ring.idles[me], last);
      }
    }

    method Release(uptime: nat) returns (ghost e: seq<bool>)
      requires Valid()
      modifies current`locked
      ensures ring.Valid() && !current.locked && e == Free(uptime)
      ensures forall j :: 0 <= j < |e| ==>
                e[j] == old(ring.nodes[j].Ready(uptime) && (!ring.nodes[j].locked || ring.nodes[j] == current))
    {
      hide Ring.Valid, Free;
      current.locked := false;
      RingKept(ring);
      e := Free(uptime);
    }

    /** The thread found becomes the current one. */
    method Dispatch(found: Thread, ghost k: nat)
      requires ring.Valid() && me < |ring.idles| && Parked() && k < |ring.nodes| && found == ring.nodes[k]
      requires found.counter + Gain(found.nice) >= TICK && !found.locked
      modifies this`current, found`counter, found`locked
      ensures Valid() && Credits() && current == found
      ensures found.counter == old(found.counter) + Gain(found.nice) - TICK
    {
      hide Ring.Valid;
      RingNexts(ring);
      IdleApart(ring, me);
      found.counter := found.counter + Gain(found.nice) - TICK;
      assert found.counter < 25000000;
      found.locked := true;
      current := found;
      RingKept(ring);
    }

    method GoIdle(idle: Thread, thread: Thread)
      requires ring.Valid() && me < |ring.idles| && idle == ring.idles[me] && Parked()
               && (thread in ring.nodes || thread == idle)
      modifies this`current, idle`locked, idle`next
      ensures Valid() && Credits() && current == idle
      ensures current.next == if thread == idle then ring.head else thread
    {
      hide Ring.Valid, Gain;
      var last := thread;
      IdleApart(ring, me);
      if last == idle { last := ring.head; }
      idle.locked := true;
      current := idle;
      idle.next := last;
      RingKept(ring);
    }

    /** The CPU runs nobody: its idle thread and all threads that are not held have less than 1000000. */
    ghost predicate Parked()
      reads this, ring, ring.nodes, ring.idles
      requires me < |ring.idles|
    {
      && 0 <= ring.idles[me].counter < TICK
      && (forall t :: t in ring.nodes ==> CreditOk(t) && (t.locked || t.counter < TICK))
    }

    /** The first part, seen in snapshots. */
    method UseTick(contended: bool) returns (stays: bool)
      requires Valid() && Credits()
      modifies current`counter
      ensures Valid() && Credits() && (!stays ==> current.counter < TICK)
      ensures current.counter
           == old(current.counter) - if !current.critical && old(current.counter) >= TICK then TICK else 0
      ensures stays <==> current.critical || (current.status == Runnable && (contended || old(current.counter) >= TICK))
      ensures Snapshot() == if current.critical then old(Snapshot()) else Paid(old(Snapshot()))
      ensures Start() == old(Start()) && ShotOk(old(Snapshot()))
    {
      hide Ring.Valid, Paid, Views, IndexIn;
      ghost var before := Snapshot();
      ghost var start := FirstIndex();
      StartIndex(this, start);
      stays := Tick(contended);
      RingKept(ring);
      NodesDistinct(ring);
      StartIndex(this, start);
      if !current.critical {
        TickPays(ring.nodes, before, Snapshot(), current, old(current.counter) - current.counter);
      }
    }

    /**
     One timer tick. A thread that stays is critical, or runnable with the scheduler lock busy, or
     runnable with credit for a second tick; in the last case it has none for a third.
     */
    method Schedule(uptime: nat, contended: bool) returns (left: bool, ghost e: seq<bool>, ghost f: nat, ghost k: nat)
      requires Valid() && Credits()
      modifies this, current, ring.nodes, ring.idles[me]
      ensures Valid() && Credits() && ring.nodes == old(ring.nodes)
      ensures left <==> !old(current.critical)
                        && (old(current.status) != Runnable || (!contended && old(current.counter) < TICK))
      ensures !left ==> current == old(current)
      ensures !left ==> current.counter == old(current.counter)
                                           - if !old(current.critical) && old(current.counter) >= TICK then TICK else 0
      ensures !left && !old(current.critical) ==> current.counter < TICK
      ensures left ==> |e| == |ring.nodes| && f < |e| && ring.nodes[f] == old(Start())
      ensures left ==> forall j :: 0 <= j < |e| && ring.nodes[j] != old(current) ==>
                         e[j] == old(ring.nodes[j].Ready(uptime) && !ring.nodes[j].locked)
      ensures left && true in e ==> k < |e| && current == ring.nodes[k] && First(e, f, k)
      ensures left ==> forall j :: 0 <= j < |e| && ring.nodes[j] != old(current) ==>
                e[j] == old(&& !ring.nodes[j].locked && !ring.nodes[j].masked
                            && (ring.nodes[j].nice <= 0 || ring.nodes[j].counter >= 25000 * ring.nodes[j].nice)
                            && (ring.nodes[j].status == Runnable
                                || (ring.nodes[j].status == Sleeping && ring.nodes[j].wakeupAt <= uptime)
                                || (ring.nodes[j].interrupted && ring.nodes[j].status != Other)))
      ensures left && true in e && current == old(current) ==>
                old(current.status == Runnable || (current.status == Sleeping && current.wakeupAt <= uptime)
                    || (current.interrupted && current.status != Other))
      ensures left && true in e && current != old(current) ==>
                current.counter == old(ring.nodes[k].counter)
                                   + if current.nice < 0 then 50000 * -current.nice else -25000 * current.nice
      ensures left && true !in e ==> current == ring.idles[me] && current.next == ring.nodes[f]
      ensures forall t :: t in ring.nodes && t != current ==> t.locked == (t != old(current) && old(t.locked))
      ensures forall t :: t in ring.nodes && t != current && t != old(current) ==> t.counter == old(t.counter)
      ensures forall t :: t in old(ring.nodes) && t != old(current) && old(t.locked) ==> t != current
      ensures TickOk(ScheduleRuns.Tick(me, old(Snapshot()), Snapshot(), uptime, left))
    {
      hide Ring.Valid, Thread.Ready, Dispatches, Snapshot, Paid, Dist;
      e, f, k := [], 0, 0;
      var stays := UseTick(contended);
      if stays { return false, e, f, k; }
      e, f, k := Switch(uptime);
      left := true;
    }

    /** The index of the thread at which the scan starts. */
    ghost method FirstIndex() returns (f: nat)
      requires Valid()
      ensures f < |ring.nodes| && ring.nodes[f] == Start()
    {
      RingNexts(ring);
      if current.next == null {
        f := Up(0, |ring.nodes|);
      } else {
        f :| f < |ring.nodes| && ring.nodes[f] == current.next;
      }
    }
  }

  lemma IdleApart(ring: Ring, i: nat)
    requires ring.Valid() && i < |ring.idles|
    ensures ring.idles[i] !in ring.nodes && ring.head in ring.nodes
  {
  }

  /** The ring stays valid while its pointers stay and idle threads go on with threads of the ring. */
  twostate lemma RingKept(ring: Ring)
    requires old(ring.Valid()) && ring.nodes == old(ring.nodes)
    requires ring.head == old(ring.head) && ring.tail == old(ring.tail) && ring.size == old(ring.size)
    requires forall t :: t in ring.nodes ==> t.next == old(t.next) && t.prev == old(t.prev)
    requires forall t :: t in ring.idles ==> t.next == old(t.next) || t.next in ring.nodes
    ensures ring.Valid()
  {
    hide Nexts, Prevs, Linked, Apart;
    assert Nexts(ring.nodes) == old(Nexts(ring.nodes)) && Prevs(ring.nodes) == old(Prevs(ring.nodes));
    ApartKept(ring.nodes, ring.idles, old(Nexts(ring.idles)), Nexts(ring.idles));
  }

  lemma ApartKept(nodes: seq<Thread>, idles: seq<Thread>, nexts: seq<Thread?>, nexts': seq<Thread?>)
    requires Apart(nodes, idles, nexts) && |nexts'| == |nexts|
    requires forall i :: 0 <= i < |nexts| ==> nexts'[i] == nexts[i] || nexts'[i] in nodes
    ensures Apart(nodes, idles, nexts')
  {
  }

  predicate CreditOk(t: Thread)
    reads t
  {
    -19 <= t.nice <= 20 && 0 <= t.counter < 1950000
  }

  lemma RingNexts(ring: Ring)
    requires ring.Valid()
    ensures ring.size == |ring.nodes|
    ensures forall j :: 0 <= j < |ring.nodes| ==> ring.nodes[j].next == ring.nodes[Up(j, |ring.nodes|)]
  {
  }

  /** A snapshot shows where the scan starts. */
  lemma StartIndex(core: Core, f: nat)
    requires core.Valid() && f < |core.ring.nodes| && core.ring.nodes[f] == core.Start()
    ensures core.Snapshot() == Shot(Views(core.ring.nodes), IndexIn(core.ring.nodes, core.current), f)
  {
    hide Ring.Valid, Views;
    NodesDistinct(core.ring);
  }

  /** After thread k was dispatched the next scan starts behind it; idle goes on where it was told to. */
  lemma ScanStarts(core: Core, f: nat, k: nat)
    requires core.Valid() && f < |core.ring.nodes|
    ensures Distinct(core.ring.nodes) && core.ring.idles[core.me] !in core.ring.nodes
    ensures k < |core.ring.nodes| && core.current == core.ring.nodes[k] ==>
              core.Start() == core.ring.nodes[Up(k, |core.ring.nodes|)]
    ensures core.current.next == core.ring.nodes[f] ==> core.Start() == core.ring.nodes[f]
    ensures IndexIn(core.ring.nodes, core.Start()) >= 0 ==>
              core.Snapshot() == Shot(Views(core.ring.nodes), IndexIn(core.ring.nodes, core.current),
                                      IndexIn(core.ring.nodes, core.Start()))
  {
    hide Ring.Valid, Views;
    RingNexts(core.ring);
    NodesDistinct(core.ring);
    IdleApart(core.ring, core.me);
  }

  /** Who is free, in plain terms. */
  lemma FreeMeans(core: Core, uptime: nat)
    ensures var e, nodes := core.Free(uptime), core.ring.nodes;
            forall j :: 0 <= j < |nodes| ==>
              (e[j] <==>
                && !nodes[j].locked && !nodes[j].masked && nodes[j].counter + Gain(nodes[j].nice) >= TICK
                && (nodes[j].status == Runnable || (nodes[j].status == Sleeping && nodes[j].wakeupAt <= uptime)
                    || (nodes[j].interrupted && nodes[j].status != Other)))
  {
    hide Gain;
  }

  /** Whom a scan can choose, for all threads with credit in range. */
  lemma AllReady(core: Core, uptime: nat)
    requires core.me < |core.ring.idles| && core.Credits()
    ensures var nodes := core.ring.nodes;
            forall j :: 0 <= j < |nodes| ==>
              (nodes[j].Ready(uptime) <==>
                && !nodes[j].masked && (nodes[j].nice <= 0 || nodes[j].counter >= 25000 * nodes[j].nice)
                && (nodes[j].status == Runnable || (nodes[j].status == Sleeping && nodes[j].wakeupAt <= uptime)
                    || (nodes[j].interrupted && nodes[j].status != Other)))
  {
    var nodes := core.ring.nodes;
    forall j | 0 <= j < |nodes|
      ensures nodes[j].Ready(uptime) <==>
                && !nodes[j].masked && (nodes[j].nice <= 0 || nodes[j].counter >= 25000 * nodes[j].nice)
                && (nodes[j].status == Runnable || (nodes[j].status == Sleeping && nodes[j].wakeupAt <= uptime)
                    || (nodes[j].interrupted && nodes[j].status != Other))
    {
      assert nodes[j] in nodes;
      ReadyMeans(nodes[j].Info(), uptime);
    }
  }

  lemma NodesDistinct(ring: Ring)
    requires ring.Valid()
    ensures Distinct(ring.nodes)
  {
  }

  lemma ShotsDispatch(nodes: seq<Thread>, before: seq<View>, after: seq<View>, left: Thread, current: Thread,
                      start: Thread?, uptime: nat, e: seq<bool>, f: nat, k: nat)
    requires Distinct(nodes) && |before| == |after| == |nodes| == |e| && f < |e|
    requires forall j :: 0 <= j < |e| ==> e[j] == (before[j].Ready(uptime) && (!before[j].locked || nodes[j] == left))
    requires forall j :: 0 <= j < |e| ==> after[j].nice == before[j].nice
    requires forall j :: 0 <= j < |e| && nodes[j] != current ==> after[j].counter == before[j].counter
    requires forall j :: 0 <= j < |e| ==>
               after[j].locked == (nodes[j] == current || (nodes[j] != left && before[j].locked))
    requires true in e ==> k < |e| && current == nodes[k] && First(e, f, k) && start == nodes[Up(k, |e|)]
    requires true in e ==> after[k].counter == before[k].counter + Gain(after[k].nice) - TICK
    requires true !in e ==> current !in nodes && start == nodes[f]
    ensures IndexIn(nodes, start) >= 0
    ensures Dispatches(Shot(before, IndexIn(nodes, left), f),
                       Shot(after, IndexIn(nodes, current), IndexIn(nodes, start)), uptime)
  {
    hide IndexIn, Gain, First;
    var pre := Shot(before, IndexIn(nodes, left), f);
    assert e == ScheduleRuns.Eligible(pre, uptime);
  }

  /** A tick takes credit from the current thread and changes nothing else in a snapshot. */
  lemma TickPays(nodes: seq<Thread>, before: Shot, after: Shot, current: Thread, paid: int)
    requires Distinct(nodes) && |before.threads| == |after.threads| == |nodes|
    requires before.at == after.at == IndexIn(nodes, current) && before.first == after.first
    requires forall j :: 0 <= j < |nodes| && nodes[j] != current ==> after.threads[j] == before.threads[j]
    requires before.at >= 0 ==> paid == if before.threads[before.at].counter >= TICK then TICK else 0
    requires before.at >= 0 ==>
               var v := before.threads[before.at]; after.threads[before.at] == v.(counter := v.counter - paid)
    ensures after == Paid(before)
  {
    hide IndexIn;
  }
}
