/**
 Runs of `schedule` on any number of CPUs, over snapshots of the scheduler. A dispatch is a call that
 leaves the current thread; between two calls anything may happen to the threads but to their credit.
 */
module ScheduleRuns {
  import opened ThreadRing

  /** Index k is the first of the eligible ones, from f on. */
  predicate First(eligible: seq<bool>, f: nat, k: nat)
    requires f < |eligible| && k < |eligible|
  {
    eligible[k] && forall j :: 0 <= j < |eligible| && eligible[j] ==> Dist(f, k, |eligible|) <= Dist(f, j, |eligible|)
  }

  /** The threads of the ring in order, the index of the current one (-1 if it is not in the ring), and
      the index at which the next scan starts. */
  datatype Shot = Shot(threads: seq<View>, at: int, first: nat)

  predicate ShotOk(s: Shot) {
    -1 <= s.at < |s.threads| && s.first < |s.threads|
  }

  /** The threads that a dispatch could choose: the lock of the current one is about to be released. */
  function Eligible(s: Shot, uptime: nat): (e: seq<bool>)
    ensures |e| == |s.threads|
    ensures forall j :: 0 <= j < |e| ==> e[j] == (s.threads[j].Ready(uptime) && (!s.threads[j].locked || j == s.at))
  {
    seq(|s.threads|, j requires 0 <= j < |s.threads| =>
      s.threads[j].Ready(uptime) && (!s.threads[j].locked || j == s.at))
  }

  /** What one dispatch does: the first eligible thread runs with the credit it earned, or nobody does. */
  ghost predicate Dispatches(pre: Shot, post: Shot, uptime: nat) {
    && ShotOk(pre) && ShotOk(post) && |post.threads| == |pre.threads|
    && var e, n := Eligible(pre, uptime), |pre.threads|;
       && (forall j :: 0 <= j < n ==> post.threads[j].nice == pre.threads[j].nice)
       && (forall j :: 0 <= j < n && j != post.at ==> post.threads[j].counter == pre.threads[j].counter)
       && (forall j :: 0 <= j < n ==>
             post.threads[j].locked == (j == post.at || (j != pre.at && pre.threads[j].locked)))
       && if true in e
          then && post.at >= 0 && First(e, pre.first, post.at) && post.first == Up(post.at, n)
               && var t := pre.threads[post.at]; post.threads[post.at].counter == t.counter + Gain(t.nice) - TICK
          else post.at == -1 && post.first == pre.first
  }

  /** The current thread pays for the tick that it has used. */
  function Paid(s: Shot): Shot {
    if 0 <= s.at < |s.threads| && s.threads[s.at].counter >= TICK
    then s.(threads := s.threads[s.at := s.threads[s.at].(counter := s.threads[s.at].counter - TICK)]) else s
  }

  /** One call of `schedule` on a CPU, which left its current thread or did not. */
  datatype Tick = Tick(cpu: nat, pre: Shot, post: Shot, uptime: nat, left: bool)

  ghost predicate TickOk(t: Tick) {
    && ShotOk(t.pre)
    && if t.left then Dispatches(Paid(t.pre), t.post, t.uptime) else t.post == t.pre || t.post == Paid(t.pre)
  }

  /** The current thread of a CPU, and where its next scan starts. */
  datatype Place = Place(at: int, first: nat)

  /** What lasts from tick to tick: the credit of the threads, and the places of the CPUs. */
  datatype System = System(credit: seq<int>, places: seq<Place>)

  predicate SystemOk(s: System) {
    forall c :: 0 <= c < |s.places| ==> -1 <= s.places[c].at < |s.credit| && s.places[c].first < |s.credit|
  }

  predicate Shows(s: System, c: nat, shot: Shot) {
    && c < |s.places| && s.places[c] == Place(shot.at, shot.first) && |shot.threads| == |s.credit|
    && forall j :: 0 <= j < |s.credit| ==> shot.threads[j].counter == s.credit[j]
  }

  ghost predicate Step(s: System, s': System, t: Tick) {
    && TickOk(t) && Shows(s, t.cpu, t.pre) && Shows(s', t.cpu, t.post)
    && |s'.places| == |s.places| && s'.places == s.places[t.cpu := s'.places[t.cpu]]
  }

  /**
   The ticks of all CPUs in their order. Whatever the snapshots show besides credit and places may
   change at will between them: status, locks, nice, and which CPUs a thread may use.
   */
  ghost predicate Run(states: seq<System>, ts: seq<Tick>) {
    && |states| == |ts| + 1 && SystemOk(states[0])
    && forall i :: 0 <= i < |ts| ==> Step(states[i], states[i + 1], ts[i])
  }

  /** What a tick does to one thread. */
  lemma StepThread(s: System, s': System, t: Tick, k: nat)
    requires Step(s, s', t) && SystemOk(s) && k < |s.credit|
    ensures |s'.credit| == |s.credit| && |s'.places| == |s.places| && SystemOk(s')
    ensures !t.left || t.post.at != k ==> s'.credit[k] <= s.credit[k]
    ensures s.credit[k] >= 0 ==> s'.credit[k] >= 0
    ensures !t.left ==> s'.places == s.places
  {
    hide Gain, Dist, Up;
    var paid := Paid(t.pre);
    assert paid.threads[k].counter <= s.credit[k] && (s.credit[k] >= 0 ==> paid.threads[k].counter >= 0);
    assert t.post.threads[k].counter == s'.credit[k];
    if t.left && t.post.at == k { assert Eligible(paid, t.uptime)[k]; }
    assert ShotOk(t.post);
  }

  // A thread that stays eligible

  /** What a thread needs to be dispatched besides being awake, allowed and not locked. */
  lemma CreditNeeded(counter: int, nice: int)
    requires 0 <= counter
    ensures counter + Gain(nice) >= TICK <==> nice <= 0 || counter >= 25000 * nice
  {
  }

  /** The thread wants to run and nothing but its turn is missing. */
  predicate Wants(s: Shot, uptime: nat, k: nat) {
    && k < |s.threads| && (!s.threads[k].locked || s.at == k)
    && s.threads[k].Awake(uptime) && !s.threads[k].masked && s.threads[k].nice <= 0
  }

  lemma Closer(e: seq<bool>, f: nat, k: nat, target: nat)
    requires f < |e| && k < |e| && target < |e| && First(e, f, k) && e[target] && k != target
    ensures Dist(Up(k, |e|), target, |e|) < Dist(f, target, |e|)
  {
  }

  /** A dispatch that passes over the target brings the scan closer to it. */
  lemma DispatchCloser(pre: Shot, post: Shot, uptime: nat, target: nat)
    requires Dispatches(pre, post, uptime) && Wants(pre, uptime, target) && pre.threads[target].counter >= 0
    ensures ShotOk(pre) && ShotOk(post) && |post.threads| == |pre.threads|
    ensures post.at == target || Dist(post.first, target, |pre.threads|) < Dist(pre.first, target, |pre.threads|)
    ensures post.threads[target].counter >= 0
  {
    hide Gain, Dist, Up;
    var e := Eligible(pre, uptime);
    CreditNeeded(pre.threads[target].counter, pre.threads[target].nice);
    assert e[target];
    if post.at != target { Closer(e, pre.first, post.at, target); }
  }

  /** How often CPU c left its current thread. */
  function Leaves(ts: seq<Tick>, c: nat): nat {
    if ts == [] then 0
    else var t := ts[|ts| - 1]; Leaves(ts[..|ts| - 1], c) + if t.cpu == c && t.left then 1 else 0
  }

  /** CPU c left its current thread for thread k. */
  predicate Takes(t: Tick, c: nat, k: nat) {
    t.cpu == c && t.left && t.post.at == k
  }

  lemma StepCloser(s: System, s': System, t: Tick, c: nat, target: nat)
    requires Step(s, s', t) && SystemOk(s) && c < |s.places| && target < |s.credit| && s.credit[target] >= 0
    requires t.cpu == c && t.left ==> Wants(t.pre, t.uptime, target)
    requires !Takes(t, c, target)
    ensures |s'.credit| == |s.credit| && |s'.places| == |s.places| && SystemOk(s') && s'.credit[target] >= 0
    ensures Dist(s'.places[c].first, target, |s.credit|) + (if t.cpu == c && t.left then 1 else 0)
         <= Dist(s.places[c].first, target, |s.credit|)
  {
    StepThread(s, s', t, target);
    hide Gain, Dist, Up, Dispatches, Eligible;
    if t.cpu == c && t.left {
      PaidWants(t.pre, t.uptime, target);
      DispatchCloser(Paid(t.pre), t.post, t.uptime, target);
    }
  }

  lemma PaidWants(s: Shot, uptime: nat, k: nat)
    requires ShotOk(s) && Wants(s, uptime, k) && s.threads[k].counter >= 0
    ensures Wants(Paid(s), uptime, k) && Paid(s).threads[k].counter >= 0
    ensures |Paid(s).threads| == |s.threads| && Paid(s).first == s.first
  {
  }

  lemma LeavesMore(ts: seq<Tick>, c: nat, i: nat)
    requires i < |ts|
    ensures Leaves(ts[..i + 1], c) == Leaves(ts[..i], c) + if ts[i].cpu == c && ts[i].left then 1 else 0
  {
    assert ts[..i + 1][..i] == ts[..i];
  }

  lemma {:induction false} Approaches(states: seq<System>, ts: seq<Tick>, c: nat, target: nat, i: nat)
    requires Run(states, ts) && i <= |ts| && c < |states[0].places| && target < |states[0].credit|
    requires forall j :: 0 <= j < |ts| && ts[j].cpu == c && ts[j].left ==> Wants(ts[j].pre, ts[j].uptime, target)
    requires states[0].credit[target] >= 0 && forall j :: 0 <= j < |ts| ==> !Takes(ts[j], c, target)
    ensures |states[i].credit| == |states[0].credit| && |states[i].places| == |states[0].places| && SystemOk(states[i])
    ensures states[i].credit[target] >= 0
    ensures Dist(states[i].places[c].first, target, |states[0].credit|) + Leaves(ts[..i], c) < |states[0].credit|
  {
    hide Dist, Wants, Step, Takes;
    if i > 0 {
      Approaches(states, ts, c, target, i - 1);
      assert Step(states[i - 1], states[i], ts[i - 1]) && !Takes(ts[i - 1], c, target);
      StepCloser(states[i - 1], states[i], ts[i - 1], c, target);
      LeavesMore(ts, c, i - 1);
    }
  }

  /**
   On a ring of n threads, a thread with nice <= 0 that wants to run whenever CPU c leaves its current
   thread is taken by c within n such ticks, whatever other threads, other CPUs and anybody else do.
   */
  lemma DispatchedWithinN(states: seq<System>, ts: seq<Tick>, c: nat, target: nat)
    requires Run(states, ts) && c < |states[0].places| && target < |states[0].credit| <= Leaves(ts, c)
    requires forall i :: 0 <= i < |ts| && ts[i].cpu == c && ts[i].left ==> Wants(ts[i].pre, ts[i].uptime, target)
    requires states[0].credit[target] >= 0
    ensures exists i :: 0 <= i < |ts| && Takes(ts[i], c, target)
  {
    hide Dist, Wants, Step, Takes;
    assert ts[..|ts|] == ts;
    if forall i :: 0 <= i < |ts| ==> !Takes(ts[i], c, target) { Approaches(states, ts, c, target, |ts|); }
  }

  /** In particular a sleeper whose time has come. */
  lemma SleeperDispatched(states: seq<System>, ts: seq<Tick>, c: nat, target: nat)
    requires Run(states, ts) && c < |states[0].places| && target < |states[0].credit| <= Leaves(ts, c)
    requires states[0].credit[target] >= 0
    requires forall i :: 0 <= i < |ts| && ts[i].cpu == c && ts[i].left ==>
               && target < |ts[i].pre.threads|
               && var v := ts[i].pre.threads[target];
                  && v.status == Sleeping && v.wakeupAt <= ts[i].uptime && !v.masked && v.nice <= 0
                  && (!v.locked || ts[i].pre.at == target)
    ensures exists i :: 0 <= i < |ts| && Takes(ts[i], c, target)
  {
    DispatchedWithinN(states, ts, c, target);
  }

  // A thread with positive nice

  /** How often a CPU, whichever it was, left its current thread for thread k. */
  function Count(ts: seq<Tick>, k: nat): nat {
    if ts == [] then 0
    else var t := ts[|ts| - 1]; Count(ts[..|ts| - 1], k) + if Takes(t, t.cpu, k) then 1 else 0
  }

  /** A dispatch of a thread with positive nice costs it 25000 credits for each point. */
  lemma StepCosts(s: System, s': System, t: Tick, k: nat, nice: nat)
    requires Step(s, s', t) && SystemOk(s) && k < |s.credit| && s.credit[k] >= 0
    requires t.pre.threads[k].nice == nice > 0
    ensures |s'.credit| == |s.credit| && SystemOk(s') && s'.credit[k] >= 0
    ensures Takes(t, t.cpu, k) ==> s.credit[k] >= 25000 * nice
    ensures s'.credit[k] <= s.credit[k] - if Takes(t, t.cpu, k) then 25000 * nice else 0
  {
    StepThread(s, s', t, k);
    var paid := Paid(t.pre);
    assert paid.threads[k].nice == nice && 0 <= paid.threads[k].counter <= s.credit[k];
    CreditNeeded(paid.threads[k].counter, nice);
    hide Dist, Up;
    if Takes(t, t.cpu, k) { assert Eligible(paid, t.uptime)[k]; }
  }

  /** Thread k has this nice, which is positive, at every tick. */
  predicate NiceIs(ts: seq<Tick>, k: nat, nice: nat) {
    nice > 0 && forall j :: 0 <= j < |ts| ==> k < |ts[j].pre.threads| && ts[j].pre.threads[k].nice == nice
  }

  lemma {:induction false} CreditLeft(states: seq<System>, ts: seq<Tick>, k: nat, nice: nat, i: nat)
    requires Run(states, ts) && i <= |ts| && k < |states[0].credit| && states[0].credit[k] >= 0
    requires NiceIs(ts, k, nice)
    ensures |states[i].credit| == |states[0].credit| && SystemOk(states[i])
    ensures 0 <= states[i].credit[k] <= states[0].credit[k] - 25000 * nice * Count(ts[..i], k)
  {
    hide Step, Takes, SystemOk;
    if i > 0 {
      CreditLeft(states, ts, k, nice, i - 1);
      assert Step(states[i - 1], states[i], ts[i - 1]);
      StepCosts(states[i - 1], states[i], ts[i - 1], k, nice);
      CountMore(ts, k, i - 1);
      Distributes(25000 * nice, Count(ts[..i - 1], k));
    }
  }

  lemma CountMore(ts: seq<Tick>, k: nat, i: nat)
    requires i < |ts|
    ensures Count(ts[..i + 1], k) == Count(ts[..i], k) + if Takes(ts[i], ts[i].cpu, k) then 1 else 0
  {
    assert ts[..i + 1][..i] == ts[..i];
  }

  lemma Distributes(u: nat, c: nat)
    ensures u * (c + 1) == u * c + u
  {
  }

  /**
   With a fixed positive nice a thread is dispatched, by all CPUs together, at most as often as its
   stored credit pays for, however long the run: it earns no credit while others run.
   */
  lemma CreditBoundsDispatches(states: seq<System>, ts: seq<Tick>, k: nat, nice: nat)
    requires Run(states, ts) && k < |states[0].credit| && states[0].credit[k] >= 0
    requires NiceIs(ts, k, nice)
    ensures 25000 * nice * Count(ts, k) <= states[0].credit[k]
  {
    assert ts[..|ts|] == ts;
    hide *;
    CreditLeft(states, ts, k, nice, |ts|);
  }

  /** Once the credit is used up no CPU ever dispatches it again. */
  lemma NeverAgain(states: seq<System>, ts: seq<Tick>, k: nat, nice: nat, j: nat)
    requires Run(states, ts) && k < |states[0].credit| && 0 <= states[0].credit[k] < 25000 * nice && j < |ts|
    requires NiceIs(ts, k, nice)
    ensures !Takes(ts[j], ts[j].cpu, k)
  {
    hide Step, Takes;
    CreditLeft(states, ts, k, nice, j);
    NonNegative(25000 * nice, Count(ts[..j], k));
    assert Step(states[j], states[j + 1], ts[j]);
    StepCosts(states[j], states[j + 1], ts[j], k, nice);
  }

  lemma NonNegative(u: nat, c: nat)
    ensures u * c >= 0
  {
  }
}
