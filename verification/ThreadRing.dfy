/** proc/proc.cpp: threads and the ring that they form. */
module ThreadRing {
  import opened Basics

  const TICK := 1000000

  datatype Status = Runnable | Blocked | Sleeping | Other

  /** The credit that a thread gets each time the scan comes to it. */
  function Gain(nice: int): (g: int)
    ensures -19 <= nice <= 20 ==> 500000 <= g <= 1950000
    ensures nice <= 0 ==> g >= TICK
  {
    if nice < 0 then 1000000 + 50000 * -nice else 1000000 - 25000 * nice
  }

  /** The index after i and the index before i, around the ring of n threads. */
  function Up(i: nat, n: nat): nat {
    if i + 1 == n then 0 else i + 1
  }

  function Down(i: nat, n: nat): nat {
    if i == 0 then (if n > 0 then n - 1 else 0) else i - 1
  }

  /** How many steps lead from index f to index k around the ring. */
  function Dist(f: nat, k: nat, n: nat): (d: nat)
    requires f < n && k < n
    ensures d < n
  {
    if k >= f then k - f else k + n - f
  }

  /** What the scheduler knows of a thread. */
  datatype View = View(counter: int, status: Status, wakeupAt: nat, interrupted: bool, masked: bool, nice: int,
                       locked: bool)
  {
    predicate Awake(uptime: nat) {
      match status
      case Runnable => true
      case Blocked => interrupted
      case Sleeping => uptime >= wakeupAt || interrupted
      case Other => false
    }

    /** The thread can be dispatched, if its lock is free. */
    predicate Ready(uptime: nat) {
      Awake(uptime) && !masked && counter + Gain(nice) >= TICK
    }
  }

  /** A thread that is awake stays awake as time goes on. */
  lemma AwakeMonotone(v: View, t: nat, t': nat)
    requires v.Awake(t) && t <= t'
    ensures v.Awake(t')
  {
  }

  /** A sleeper that nothing interrupts is awake from its time on, and not before. */
  lemma SleepsUntil(v: View, t: nat)
    requires v.status == Sleeping && !v.interrupted
    ensures v.Awake(t) <==> v.wakeupAt <= t
  {
  }

  /** Whom a scan can choose, in plain terms. */
  lemma ReadyMeans(v: View, uptime: nat)
    requires v.counter >= 0
    ensures v.Ready(uptime) <==>
              && !v.masked && (v.nice <= 0 || v.counter >= 25000 * v.nice)
              && (v.status == Runnable || (v.status == Sleeping && v.wakeupAt <= uptime)
                  || (v.interrupted && v.status != Other))
  {
  }

  class Thread {
    var next: Thread?
    var prev: Thread?
    var counter: int        // sched_counter
    var status: Status
    var wakeupAt: nat
    var interrupted: bool
    var critical: bool
    var masked: bool        // the process may not use this CPU
    var nice: int           // of the process
    var locked: bool

    function Info(): (v: View)
      reads this
    {
      View(counter, status, wakeupAt, interrupted, masked, nice, locked)
    }

    predicate Awake(uptime: nat)
      reads this
    {
      Info().Awake(uptime)
    }

    predicate Ready(uptime: nat)
      reads this
    {
      Info().Ready(uptime)
    }
  }

  /** The next pointers of some threads, and their prev pointers. */
  ghost function Nexts(ts: seq<Thread>): (r: seq<Thread?>)
    reads ts
    ensures |r| == |ts| && forall i :: 0 <= i < |ts| ==> r[i] == ts[i].next
  {
    seq(|ts|, i requires 0 <= i < |ts| reads ts => ts[i].next)
  }

  ghost function Prevs(ts: seq<Thread>): (r: seq<Thread?>)
    reads ts
    ensures |r| == |ts| && forall i :: 0 <= i < |ts| ==> r[i] == ts[i].prev
  {
    seq(|ts|, i requires 0 <= i < |ts| reads ts => ts[i].prev)
  }

  /** Distinct nodes in a circle: their next pointers lead up, their prev pointers down. */
  predicate Linked(nodes: seq<Thread>, nexts: seq<Thread?>, prevs: seq<Thread?>) {
    && |nexts| == |prevs| == |nodes| && Distinct(nodes)
    && forall i :: 0 <= i < |nodes| ==> nexts[i] == nodes[Up(i, |nodes|)] && prevs[i] == nodes[Down(i, |nodes|)]
  }

  /** The idle threads stand outside the ring and go on with one of its threads, if with any. */
  predicate Apart(nodes: seq<Thread>, idles: seq<Thread>, nexts: seq<Thread?>) {
    && |nexts| == |idles| && Distinct(idles)
    && (forall t :: t in idles ==> t !in nodes)
    && (forall i :: 0 <= i < |nexts| ==> nexts[i] == null || nexts[i] in nodes)
  }

  lemma LinkedWith(nodes: seq<Thread>, nexts: seq<Thread?>, prevs: seq<Thread?>, t: Thread)
    requires Linked(nodes, nexts, prevs) && nodes != [] && t !in nodes
    ensures var n := |nodes|;
            Linked(nodes + [t], nexts[n - 1 := t] + [nodes[0]], prevs[0 := t] + [nodes[n - 1]])
    ensures Distinct(nodes)
  {
  }

  lemma NextInRing(nodes: seq<Thread>, nexts: seq<Thread?>, prevs: seq<Thread?>, t: Thread)
    requires Linked(nodes, nexts, prevs) && t in nodes
    ensures forall i :: 0 <= i < |nexts| ==> nexts[i] in nodes
  {
  }

  lemma ApartWith(nodes: seq<Thread>, idles: seq<Thread>, nexts: seq<Thread?>, t: Thread)
    requires Apart(nodes, idles, nexts) && t !in idles
    ensures Apart(nodes + [t], idles, nexts)
  {
  }

  /** The sequence without index k. */
  function Without<T>(s: seq<T>, k: nat): (r: seq<T>)
    requires k < |s|
    ensures |r| == |s| - 1 && forall j :: 0 <= j < |r| ==> r[j] == s[if j < k then j else j + 1]
  {
    s[..k] + s[k + 1..]
  }

  lemma LinkedWithout(nodes: seq<Thread>, nexts: seq<Thread?>, prevs: seq<Thread?>, k: nat)
    requires Linked(nodes, nexts, prevs) && k < |nodes|
    ensures var n := |nodes|;
            Linked(Without(nodes, k), Without(nexts[Down(k, n) := nexts[k]], k),
                   Without(prevs[Up(k, n) := prevs[k]], k))
  {
    hide Without;
  }

  lemma ApartWithout(nodes: seq<Thread>, idles: seq<Thread>, nexts: seq<Thread?>, k: nat)
    requires Apart(nodes, idles, nexts) && k < |nodes| && nodes[k] !in nexts
    ensures Apart(Without(nodes, k), idles, nexts)
  {
    hide Without;
    var rest := Without(nodes, k);
    forall i | 0 <= i < |nexts| && nexts[i] != null ensures nexts[i] in rest {
      var j :| 0 <= j < |nodes| && nodes[j] == nexts[i];
      assert rest[if j < k then j else j - 1] == nodes[j];
    }
  }

  /** The nodes form a circle, and the idle threads stand outside it. */
  ghost predicate Circle(nodes: seq<Thread>, idles: seq<Thread>)
    reads nodes, idles
  {
    Linked(nodes, Nexts(nodes), Prevs(nodes)) && Apart(nodes, idles, Nexts(idles))
  }

  class Ring {
    var head: Thread
    var tail: Thread
    var size: nat
    const idles: seq<Thread>
    ghost var nodes: seq<Thread>

    /** `size` linked nodes from head to tail. */
    ghost predicate Valid()
      reads this, nodes, idles
    {
      && size == |nodes| > 0 && head == nodes[0] && tail == nodes[size - 1]
      && Circle(nodes, idles)
    }

    constructor (bsp: Thread, idles: seq<Thread>)
      requires bsp !in idles && Distinct(idles) && forall t :: t in idles ==> t.next == null
      modifies bsp
      ensures Valid() && nodes == [bsp] && this.idles == idles
    {
      head, tail, size, this.idles, nodes := bsp, bsp, 1, idles, [bsp];
      new;
      bsp.next := bsp;
      bsp.prev := bsp;
    }

    method AddThread(t: Thread)
      requires Valid() && t !in nodes && t !in idles
      modifies this, t, head, tail
      ensures Valid() && nodes == old(nodes) + [t] && Nexts(idles) == old(Nexts(idles))
    {
      hide Nexts, Prevs, Linked, Apart, Distinct;
      LinkedWith(nodes, Nexts(nodes), Prevs(nodes), t);
      ApartWith(nodes, idles, Nexts(idles), t);
      size := size + 1;
      LinkBehind(t);
      tail := t;
      nodes := nodes + [t];
    }

    /** The pointers of a new last thread, and those that lead to it. */
    method LinkBehind(t: Thread)
      requires nodes != [] && head == nodes[0] && tail == nodes[|nodes| - 1] && Distinct(nodes)
      requires t !in nodes && t !in idles && Apart(nodes, idles, Nexts(idles))
      modifies t, head, tail
      ensures Nexts(nodes + [t]) == old(Nexts(nodes)[|nodes| - 1 := t] + [head])
      ensures Prevs(nodes + [t]) == old(Prevs(nodes)[0 := t] + [tail])
      ensures Nexts(idles) == old(Nexts(idles))
    {
      hide Nexts, Prevs;
      assert head !in idles && tail !in idles;
      tail.next := t;
      t.next := head;
      t.prev := tail;
      head.prev := t;
    }

    /** The idle threads that would go on with t go on with the thread behind it. */
    method SkipIdles(t: Thread)
      requires Valid() && t in nodes
      modifies idles
      ensures Valid() && Nexts(nodes) == old(Nexts(nodes)) && Prevs(nodes) == old(Prevs(nodes))
      ensures forall i :: 0 <= i < |idles| ==>
                idles[i].next == if old(idles[i].next) == t then t.next else old(idles[i].next)
    {
      hide Nexts, Prevs, Linked;
      assert forall j :: 0 <= j < |nodes| ==> nodes[j] !in idles;
      assert t.next in nodes by { NextInRing(nodes, Nexts(nodes), Prevs(nodes), t); }
      for c := 0 to |idles|
        invariant Nexts(nodes) == old(Nexts(nodes)) && Prevs(nodes) == old(Prevs(nodes)) && t.next == old(t.next)
        invariant forall i :: 0 <= i < |idles| ==>
                    idles[i].next == if i < c && old(idles[i].next) == t then t.next else old(idles[i].next)
      {
        if idles[c].next == t { idles[c].next := t.next; }
      }
    }

    /**
     The thread leaves the ring, which stays a ring unless this was its last thread: then head and tail
     still name it, and its next is null.
     */
    method RemoveThread(t: Thread, ghost k: nat)
      requires Valid() && k < |nodes| && nodes[k] == t
      modifies this, nodes, idles
      ensures Valid() <==> old(size) > 1
      ensures size == old(size) - 1 && nodes == old(Without(nodes, k)) && t.next == null
      ensures old(size) == 1 ==> head == t && tail == t
      ensures forall i :: 0 <= i < |idles| ==>
                idles[i].next == if old(idles[i].next) == t then old(t.next) else old(idles[i].next)
    {
      hide Nexts, Prevs, Distinct, Without, Circle;
      SkipIdles(t);
      RemovalEnds(nodes, idles, k);
      size := size - 1;
      if head == t { head := t.next; }
      if tail == t { tail := t.prev; }
      ghost var rest := Without(nodes, k);
      TakeOut(t, k, rest);
      nodes := rest;
    }

    /** The rest of the ring is a ring. */
    method TakeOut(t: Thread, ghost k: nat, ghost rest: seq<Thread>)
      requires k < |nodes| && nodes[k] == t && rest == Without(nodes, k) && Circle(nodes, idles)
               && (|nodes| > 1 ==> t !in Nexts(idles))
      modifies nodes
      ensures rest != [] ==> Circle(rest, idles)
      ensures Nexts(idles) == old(Nexts(idles)) && t.next == null
    {
      hide Nexts, Prevs, Linked, Apart, Distinct, Without;
      LinkedWithout(nodes, Nexts(nodes), Prevs(nodes), k);
      if |nodes| > 1 { ApartWithout(nodes, idles, Nexts(idles), k); }
      ghost var nexts := Nexts(nodes)[Down(k, |nodes|) := t.next];
      WithoutUpdate(nexts, k, null);
      Unlink(t, k);
      PointersWithout(nodes, k);
    }

    /** Takes t out of the circle. */
    method Unlink(t: Thread, ghost k: nat)
      requires k < |nodes| && nodes[k] == t && Linked(nodes, Nexts(nodes), Prevs(nodes))
      requires Apart(nodes, idles, Nexts(idles))
      modifies nodes
      ensures Nexts(nodes) == old(Nexts(nodes))[Down(k, |nodes|) := old(t.next)][k := null]
      ensures Prevs(nodes) == old(Prevs(nodes))[Up(k, |nodes|) := old(t.prev)]
      ensures Nexts(idles) == old(Nexts(idles)) && t.next == null
    {
      hide Nexts, Prevs, Linked;
      LinksOf(nodes, Nexts(nodes), Prevs(nodes), k);
      assert forall j :: 0 <= j < |nodes| ==> nodes[j] !in idles;
      t.next.prev := t.prev;
      t.prev.next := t.next;
      t.next := null;
    }
  }

  lemma PointersWithout(nodes: seq<Thread>, k: nat)
    requires k < |nodes|
    ensures Nexts(Without(nodes, k)) == Without(Nexts(nodes), k)
    ensures Prevs(Without(nodes, k)) == Without(Prevs(nodes), k)
  {
    hide Without, Nexts, Prevs;
  }

  lemma WithoutUpdate<T>(s: seq<T>, k: nat, x: T)
    requires k < |s|
    ensures Without(s[k := x], k) == Without(s, k)
  {
    hide Without;
  }

  /** Where head and tail are when index k is left out. */
  lemma EndsWithout(nodes: seq<Thread>, nexts: seq<Thread?>, prevs: seq<Thread?>, k: nat)
    requires Linked(nodes, nexts, prevs) && k < |nodes| && |nodes| > 1
    ensures var rest, n := Without(nodes, k), |nodes|;
            && nexts[k] != null && prevs[k] != null && nexts[k] != nodes[k]
            && rest[0] == (if nodes[0] == nodes[k] then nexts[k] else nodes[0])
            && rest[n - 2] == (if nodes[n - 1] == nodes[k] then prevs[k] else nodes[n - 1])
  {
    hide Without;
  }

  /** What the removal of node k does to head and tail. */
  lemma RemovalEnds(nodes: seq<Thread>, idles: seq<Thread>, k: nat)
    requires Circle(nodes, idles) && k < |nodes|
    ensures nodes[k].next != null && nodes[k].prev != null
    ensures var rest, n, t := Without(nodes, k), |nodes|, nodes[k];
            if n > 1 then && t.next != t && rest[0] == (if nodes[0] == t then t.next else nodes[0])
                          && rest[n - 2] == (if nodes[n - 1] == t then t.prev else nodes[n - 1])
            else t.next == t && t.prev == t
  {
    hide Without, Nexts, Prevs;
    if |nodes| > 1 { EndsWithout(nodes, Nexts(nodes), Prevs(nodes), k); }
  }

  lemma LinksOf(nodes: seq<Thread>, nexts: seq<Thread?>, prevs: seq<Thread?>, k: nat)
    requires Linked(nodes, nexts, prevs) && k < |nodes|
    ensures nexts[k] == nodes[Up(k, |nodes|)] && prevs[k] == nodes[Down(k, |nodes|)] && Distinct(nodes)
    ensures k == 0 <==> nodes[0] == nodes[k]
    ensures k == |nodes| - 1 <==> nodes[|nodes| - 1] == nodes[k]
    ensures |nodes| > 1 ==> nexts[k] != nodes[k]
  {
  }
}
