/** ipc/event.cpp: threads that wait for an event. Threads are numbers. */
module Events {
  import opened Basics

  const U64 := 0x1_0000_0000_0000_0000

  /** A thread that is in neither is runnable; a sleeper wakes up at its time at the latest. */
  datatype Waiting = Waiting(blocked: set<nat>, sleeping: map<nat, nat>) {
    predicate Waits(t: nat) {
      t in blocked || t in sleeping
    }
  }

  /** The time at which a wait with a timeout ends, in the 64-bit arithmetic of the code. */
  function WakeupAt(uptime: nat, timeout: int): nat {
    (uptime + timeout * 1000000) % U64
  }

  class Event {
    var waiters: seq<nat>
    var defunct: bool
    var threads: Waiting

    ghost predicate Valid()
      reads this
    {
      Distinct(waiters) && threads.blocked !! threads.sleeping.Keys
    }

    constructor ()
      ensures Valid() && waiters == [] && !defunct && threads == Waiting({}, map[])
    {
      waiters, defunct, threads := [], false, Waiting({}, map[]);
    }

    /** wait: the thread is queued once and blocked, or sleeps for the timeout, unless the event is defunct. */
    method Wait(current: nat, timeout: int, uptime: nat)
      requires Valid()
      modifies this
      ensures Valid() && defunct == old(defunct)
      ensures defunct ==> waiters == old(waiters) && threads == old(threads)
      ensures !defunct ==> (set t | t in waiters) == (set t | t in old(waiters)) + {current}
      ensures !defunct ==> threads.Waits(current) && (current in threads.sleeping <==> timeout != 0)
      ensures !defunct && timeout != 0 ==>
                threads.sleeping[current] == (uptime + 1000000 * timeout) % 0x1_0000_0000_0000_0000
      ensures threads.blocked - {current} == old(threads.blocked) - {current}
      ensures threads.sleeping - {current} == old(threads.sleeping) - {current}
    {
      if defunct { return; }
      var isOnQueue := false;
      for i := 0 to |waiters|
        invariant !isOnQueue && current !in waiters[..i]
      {
        if waiters[i] == current {
          isOnQueue := true;
          break;
        }
      }
      if !isOnQueue { waiters := waiters + [current]; }
      threads := if timeout == 0 then Waiting(threads.blocked + {current}, threads.sleeping - {current})
                 else Waiting(threads.blocked - {current}, threads.sleeping[current := WakeupAt(uptime, timeout)]);
    }

    /** The loop of raise and defunct: everybody on the queue becomes runnable, and only they. */
    method WakeAll() returns (total: nat)
      requires Valid()
      modifies this
      ensures Valid() && waiters == [] && defunct == old(defunct) && total == |old(waiters)|
      ensures threads.blocked == old(threads.blocked) - (set t | t in old(waiters))
      ensures threads.sleeping == old(threads.sleeping) - (set t | t in old(waiters))
    {
      total := |waiters|;
      for i := 0 to total
        invariant waiters == old(waiters) && defunct == old(defunct)
        invariant threads.blocked == old(threads.blocked) - (set t | t in waiters[..i])
        invariant threads.sleeping == old(threads.sleeping) - (set t | t in waiters[..i])
      {
        threads := Waiting(threads.blocked - {waiters[i]}, threads.sleeping - {waiters[i]});
        assert waiters[..i + 1] == waiters[..i] + [waiters[i]];
      }
      assert waiters[..total] == waiters;
      waiters := [];
    }

    method Raise() returns (total: nat)
      requires Valid()
      modifies this
      ensures Valid() && waiters == [] && defunct == old(defunct) && total == |old(waiters)|
      ensures forall t :: threads.Waits(t) <==> old(threads).Waits(t) && t !in old(waiters)
    {
      total := WakeAll();
    }

    /** defunct: the same, and nobody waits for the event from now on. */
    method Defunct() returns (total: nat)
      requires Valid()
      modifies this
      ensures Valid() && waiters == [] && defunct && total == |old(waiters)|
      ensures forall t :: threads.Waits(t) <==> old(threads).Waits(t) && t !in old(waiters)
    {
      defunct := true;
      total := WakeAll();
    }
  }
}
