/** proc/proc.cpp and proc/scheduler.cpp: all CPUs, which share one ring of threads. */
module Processors {
  import opened Basics
  import opened ThreadRing
  import opened ScheduleRuns
  import opened Scheduling

  /** The CPUs in their order, each with its idle thread. */
  predicate Wired(ring: Ring, cores: seq<Core>) {
    |cores| == |ring.idles| && forall c :: 0 <= c < |cores| ==> cores[c].ring == ring && cores[c].me == c
  }

  ghost function Currents(cores: seq<Core>): (r: seq<Thread>)
    reads cores
    ensures |r| == |cores| && forall c :: 0 <= c < |cores| ==> r[c] == cores[c].current
  {
    seq(|cores|, c requires 0 <= c < |cores| reads cores => cores[c].current)
  }

  /** The current thread of CPU c at the start. */
  function StartOn(ring: Ring, voids: seq<Thread>, c: nat): Thread
    requires c < |voids|
    reads ring
  {
    if c == 0 then ring.head else voids[c]
  }

  /** A thread that a CPU holds and that leads to the ring. */
  predicate Held(t: Thread, ring: Ring)
    reads t, ring
  {
    t.locked && t.next == ring.head
  }

  /** A thread that never runs again stands in for the first one of a CPU. */
  predicate StandsIn(t: Thread, ring: Ring)
    reads t, ring
  {
    Held(t, ring) && t.status == Other
  }

  method PrepareVoids(ring: Ring, voids: seq<Thread>)
    requires ring.head !in voids
    modifies voids
    ensures forall c :: 0 < c < |voids| ==> StandsIn(voids[c], ring)
    ensures forall c :: 0 <= c < |voids| ==> voids[c].counter == old(voids[c].counter)
  {
    if voids == [] { return; }
    for i := 1 to |voids|
      invariant forall c :: 0 < c < i ==> StandsIn(voids[c], ring)
      invariant forall c :: 0 <= c < |voids| ==> voids[c].counter == old(voids[c].counter)
    {
      voids[i].locked, voids[i].next, voids[i].status := true, ring.head, Other;
    }
  }

  /** Each CPU with its first thread. */
  method MakeCores(ring: Ring, voids: seq<Thread>) returns (cores: seq<Core>)
    requires |voids| == |ring.idles|
    ensures Wired(ring, cores) && fresh(cores) && (forall c, d :: 0 <= c < d < |cores| ==> cores[c] != cores[d])
    ensures forall c :: 0 <= c < |cores| ==> cores[c].current == StartOn(ring, voids, c)
  {
    cores := [];
    for i := 0 to |voids|
      invariant |cores| == i && fresh(cores)
      invariant forall c :: 0 <= c < i ==> cores[c].ring == ring && cores[c].me == c
      invariant forall c :: 0 <= c < i ==> cores[c].current == StartOn(ring, voids, c)
      invariant forall c, d :: 0 <= c < d < i ==> cores[c] != cores[d]
    {
      var core := new Core(ring, i, if i == 0 then ring.head else voids[i]);
      cores := cores + [core];
    }
  }

  /** setup_cores: the first CPU runs the only thread there is, every other one a thread that never runs again. */
  method SetupCores(ring: Ring, voids: seq<Thread>) returns (cores: seq<Core>)
    requires |voids| == |ring.idles| && ring.head !in voids && ring.head.next == ring.head
    modifies voids, ring.head`locked
    ensures Wired(ring, cores) && fresh(cores) && (forall c, d :: 0 <= c < d < |cores| ==> cores[c] != cores[d])
    ensures forall c :: 0 <= c < |cores| ==> cores[c].current == StartOn(ring, voids, c) && Held(cores[c].current, ring)
    ensures forall c :: 0 <= c < |voids| ==> voids[c].counter == old(voids[c].counter)
    ensures ring.head.locked && ring.head.counter == old(ring.head.counter) && ring.head.nice == old(ring.head.nice)
    ensures forall c :: 0 < c < |voids| ==> voids[c].status == Other
  {
    PrepareVoids(ring, voids);
    ring.head.locked := true;
    cores := MakeCores(ring, voids);
    assert forall c :: 0 < c < |voids| ==> StandsIn(voids[c], ring);
  }

  class Processors {
    const ring: Ring
    const cores: seq<Core>

    /** Every CPU is sound, and no two have the same current thread. */
    ghost predicate Valid()
      reads this, cores, Currents(cores), ring, ring.nodes, ring.idles
    {
      && ring.Valid() && Wired(ring, cores) && Distinct(Currents(cores))
      && (forall c, d :: 0 <= c < d < |cores| ==> cores[c] != cores[d])
      && (forall c :: 0 <= c < |cores| ==>
            Currents(cores)[c] == cores[c].current && cores[c].Valid() && cores[c].Credits())
    }

    ghost function PlaceOf(c: nat): Place
      requires c < |cores|
      reads cores[c], cores[c].ring, cores[c].ring.nodes, cores[c].ring.head, cores[c].current
    {
      var shot := cores[c].Snapshot();
      Place(shot.at, shot.first)
    }

    /** Credit of the threads and places of the CPUs. */
    ghost function Value(): (s: System)
      reads *
      ensures |s.credit| == |ring.nodes| && |s.places| == |cores|
      ensures forall j :: 0 <= j < |ring.nodes| ==> s.credit[j] == ring.nodes[j].counter
      ensures forall c :: 0 <= c < |cores| ==> s.places[c] == PlaceOf(c)
    {
      System(seq(|ring.nodes|, j requires 0 <= j < |ring.nodes| reads * => ring.nodes[j].counter),
             seq(|cores|, c requires 0 <= c < |cores| reads * => PlaceOf(c)))
    }

    /** A run can start in any sound state. */
    lemma ValueOk()
      requires Valid()
      ensures SystemOk(Value())
    {
      hide Ring.Valid, IndexIn, Core.Snapshot, Core.Credits;
      IdlesApart(ring);
      forall c | 0 <= c < |cores| ensures PlaceOf(c) == PlaceIn(ring.nodes, cores[c].current, cores[c].Start()) {
        SnapshotShows(cores[c]);
      }
    }

    constructor (ring: Ring, voids: seq<Thread>)
      requires ring.Valid() && ring.nodes == [ring.head] && |voids| == |ring.idles| && Distinct(voids)
      requires forall t :: t in voids ==> t !in ring.nodes && t !in ring.idles && 0 <= t.counter < TICK
      requires CreditOk(ring.head) && forall t :: t in ring.idles ==> 0 <= t.counter < TICK
      modifies voids, ring.head
      ensures Valid() && fresh(cores) && this.ring == ring && |cores| == |voids|
      ensures forall c :: 0 <= c < |cores| ==> cores[c].current == StartOn(ring, voids, c)
      ensures forall c :: 0 < c < |voids| ==> voids[c].status == Other
    {
      assert ring.head.next == ring.head && ring.head !in voids && ring.head !in ring.idles;
      var cs := SetupCores(ring, voids);
      this.ring, cores := ring, cs;
      new;
      hide Ring.Valid;
      RingKept(ring);
      forall c | 0 <= c < |cs| ensures cs[c].Valid() && cs[c].Credits() {
        assert ring.head in ring.nodes && ring.idles[c] in ring.idles && voids[c] in voids;
        assert ring.idles[c].counter == old(ring.idles[c].counter);
        assert cs[c].current.counter == old(StartOn(ring, voids, c).counter);
      }
    }

    /** `schedule` on CPU c leaves the threads that other CPUs run alone. */
    method TickOn(c: nat, uptime: nat, contended: bool) returns (left: bool)
      requires Valid() && c < |cores|
      modifies cores[c], cores[c].current, ring.nodes, ring.idles[c]
      ensures cores[c].Valid() && cores[c].Credits() && ring.nodes == old(ring.nodes)
      ensures TickOk(ScheduleRuns.Tick(c, old(cores[c].Snapshot()), cores[c].Snapshot(), uptime, left))
      ensures forall d :: 0 <= d < |cores| && d != c ==>
                cores[d].current == old(cores[d].current) && cores[d].current != cores[c].current
      ensures forall d :: 0 <= d < |cores| && d != c ==>
                && cores[d].current.locked && cores[d].current.next == old(cores[d].current.next)
                && cores[d].current.counter == old(cores[d].current.counter)
                && ring.idles[d].counter == old(ring.idles[d].counter) && cores[d].Start() == old(cores[d].Start())
    {
      hide Ring.Valid, First, Core.Snapshot, TickOk, IndexIn, Thread.Ready, Core.Credits;
      ghost var nodes, was := ring.nodes, cores[c].current;
      ghost var e, f, k;
      RingNexts(ring);
      IdlesApart(ring);
      assert forall d :: 0 <= d < |cores| && d != c ==> cores[d] != cores[c] && cores[d].current != was;
      left, e, f, k := cores[c].Schedule(uptime, contended);
      RingNexts(ring);
      assert nodes[0].next == old(nodes[0].next) && ring.head == nodes[0];
      forall d | 0 <= d < |cores| && d != c
        ensures cores[d].current == old(cores[d].current) && cores[d].current != cores[c].current
        ensures cores[d].current.locked && cores[d].current.next == old(cores[d].current.next)
        ensures cores[d].current.counter == old(cores[d].current.counter)
        ensures ring.idles[d].counter == old(ring.idles[d].counter)
      {
        ghost var u := cores[d].current;
        assert u == old(cores[d].current) && u != was && ring.idles[d] != ring.idles[c] && ring.idles[d] !in nodes;
        assert old(u.locked);
        if u in nodes {
          ghost var j :| 0 <= j < |nodes| && nodes[j] == u;
          assert u.next == old(nodes[j].next);
        }
      }
    }

    /** One tick on CPU c: a step of the runs of all CPUs. */
    method Tick(c: nat, uptime: nat, contended: bool) returns (left: bool, ghost t: ScheduleRuns.Tick)
      requires Valid() && c < |cores|
      modifies cores[c], cores[c].current, ring.nodes, ring.idles[c]
      ensures Valid() && ring.nodes == old(ring.nodes)
      ensures t == ScheduleRuns.Tick(c, old(cores[c].Snapshot()), cores[c].Snapshot(), uptime, left)
      ensures Step(old(Value()), Value(), t)
    {
      hide Ring.Valid, TickOk, IndexIn, Core.Snapshot, Views, PlaceIn;
      ghost var before, value := cores[c].Snapshot(), Value();
      forall d | 0 <= d < |cores| ensures value.places[d] == PlaceIn(ring.nodes, cores[d].current, cores[d].Start()) {
        SnapshotShows(cores[d]);
      }
      SnapshotShows(cores[c]);
      left := TickOn(c, uptime, contended);
      SnapshotShows(cores[c]);
      t := ScheduleRuns.Tick(c, before, cores[c].Snapshot(), uptime, left);
      forall d | 0 <= d < |cores| && d != c
        ensures PlaceOf(d) == value.places[d] && cores[d].Valid() && cores[d].Credits()
      {
        SnapshotShows(cores[d]);
      }
    }
  }

  lemma IdlesApart(ring: Ring)
    requires ring.Valid()
    ensures Distinct(ring.idles) && forall t :: t in ring.idles ==> t !in ring.nodes
    ensures ring.nodes != [] && ring.head == ring.nodes[0]
  {
  }

  ghost function PlaceIn(nodes: seq<Thread>, current: Thread, start: Thread?): Place {
    var f := IndexIn(nodes, start);
    Place(IndexIn(nodes, current), if f >= 0 then f else 0)
  }

  lemma SnapshotShows(core: Core)
    ensures var s, nodes := core.Snapshot(), core.ring.nodes;
            && |s.threads| == |nodes| && Place(s.at, s.first) == PlaceIn(nodes, core.current, core.Start())
            && forall j :: 0 <= j < |nodes| ==> s.threads[j].counter == nodes[j].counter
  {
  }
}
