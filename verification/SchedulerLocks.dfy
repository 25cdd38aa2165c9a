/**
 proc/scheduler.cpp on many CPUs, at the grain of its accesses to shared state: the scheduler lock,
 the lock of each thread, and each CPU's current thread. Other code may take and release the lock
 of any thread of the ring in between. Locks have no owner in the code; here each held lock
 remembers who took it.
 */
module SchedulerLocks {

  datatype Thread = Ring(id: nat) | Idle(cpu: nat) | Void(cpu: nat)

  datatype Holder = Cpu(cpu: nat) | Outsider(id: nat)

  /** Where a CPU is in `schedule`. */
  datatype Phase =
    | Running              // executing its thread, or returned early
    | Locked               // has the scheduler lock (lines 31-46)
    | Scanning             // has released its thread (lines 47-88)
    | Switching(to: Thread)  // has taken the lock of the next thread (lines 88-93, 110-112)
    | Leaving              // has set its current thread (lines 93-99, 112-118)

  datatype Core = Core(current: Thread, phase: Phase)

  /** `locked` maps the threads whose lock is held to the holder; `owner` holds the scheduler lock. */
  datatype State = State(cores: seq<Core>, locked: map<Thread, Holder>, owner: set<nat>)

  datatype Action =
    | Enter(cpu: nat)
    | Release(cpu: nat)
    | TryTake(cpu: nat, thread: Thread)
    | TakeIdle(cpu: nat)
    | SetCurrent(cpu: nat)
    | Leave(cpu: nat)
    | OutsideTake(id: nat, thread: Thread)
    | OutsideRelease(id: nat, thread: Thread)

  predicate InPhase(s: State, c: nat, ph: Phase) {
    c < |s.cores| && s.cores[c].phase == ph
  }

  predicate Can(s: State, a: Action) {
    match a
    case Enter(c) => InPhase(s, c, Running) && s.owner == {}
    case Release(c) => InPhase(s, c, Locked)
    case TryTake(c, t) => InPhase(s, c, Scanning) && t.Ring?
    case TakeIdle(c) => InPhase(s, c, Scanning)
    case SetCurrent(c) => c < |s.cores| && s.cores[c].phase.Switching?
    case Leave(c) => InPhase(s, c, Leaving)
    case OutsideTake(_, t) => t.Ring? && t !in s.locked
    case OutsideRelease(k, t) => t in s.locked && s.locked[t] == Outsider(k)
  }

  function WithCore(s: State, c: nat, core: Core): State
    requires c < |s.cores|
  {
    s.(cores := s.cores[c := core])
  }

  function Next(s: State, a: Action): State
    requires Can(s, a)
  {
    match a
    case Enter(c) => WithCore(s, c, s.cores[c].(phase := Locked)).(owner := {c})
    case Release(c) =>
      WithCore(s, c, s.cores[c].(phase := Scanning)).(locked := s.locked - {s.cores[c].current})
    case TryTake(c, t) =>
      if t in s.locked then s
      else WithCore(s, c, s.cores[c].(phase := Switching(t))).(locked := s.locked[t := Cpu(c)])
    case TakeIdle(c) =>
      WithCore(s, c, s.cores[c].(phase := Switching(Idle(c))))
        .(locked := if Idle(c) in s.locked then s.locked else s.locked[Idle(c) := Cpu(c)])
    case SetCurrent(c) => WithCore(s, c, Core(s.cores[c].phase.to, Leaving))
    case Leave(c) => WithCore(s, c, s.cores[c].(phase := Running)).(owner := s.owner - {c})
    case OutsideTake(k, t) => s.(locked := s.locked[t := Outsider(k)])
    case OutsideRelease(k, t) => s.(locked := s.locked - {t})
  }

  /** setup_cores: every CPU holds the lock of the thread it executes. */
  predicate Initial(s: State) {
    && s.owner == {} && |s.cores| > 0
    && s.cores[0].current.Ring?
    && (forall c :: 0 < c < |s.cores| ==> s.cores[c].current == Void(c))
    && (forall c :: 0 <= c < |s.cores| ==>
          s.cores[c].phase == Running && s.cores[c].current in s.locked && s.locked[s.cores[c].current] == Cpu(c))
    && forall t :: t in s.locked ==>
         match s.locked[t] case Cpu(c) => c < |s.cores| && s.cores[c].current == t case Outsider(_) => t.Ring?
  }

  /** The one thread whose lock CPU c holds, if it holds one. */
  function Holds(s: State, c: nat): set<Thread>
    requires c < |s.cores|
  {
    match s.cores[c].phase
    case Scanning => {}
    case Switching(t) => {t}
    case _ => {s.cores[c].current}
  }

  predicate Inv(s: State) {
    // the scheduler lock
    && (forall c :: 0 <= c < |s.cores| ==> (s.cores[c].phase == Running <==> c !in s.owner))
    && (forall c, d :: c in s.owner && d in s.owner ==> c == d)
    // thread locks
    && (forall c, t :: 0 <= c < |s.cores| && t in Holds(s, c) ==> t in s.locked && s.locked[t] == Cpu(c))
    && (forall t :: t in s.locked && s.locked[t].Cpu? ==>
          s.locked[t].cpu < |s.cores| && t in Holds(s, s.locked[t].cpu))
    && (forall t :: t in s.locked && !t.Ring? ==> s.locked[t] == Cpu(t.cpu))
    // current threads
    && (forall c, d :: 0 <= c < d < |s.cores| ==> s.cores[c].current != s.cores[d].current)
  }

  lemma InitialInv(s: State)
    requires Initial(s)
    ensures Inv(s)
  {
    forall c, d | 0 <= c < d < |s.cores| ensures s.cores[c].current != s.cores[d].current {
      assert s.locked[s.cores[c].current] == Cpu(c) && s.locked[s.cores[d].current] == Cpu(d);
    }
  }

  /** While one CPU has the scheduler lock, all others run threads whose locks they hold. */
  lemma OthersRun(s: State, c: nat, d: nat)
    requires Inv(s) && c < |s.cores| && d < |s.cores| && c != d && s.cores[c].phase != Running
    ensures s.cores[d].phase == Running && s.cores[d].current in s.locked && s.locked[s.cores[d].current] == Cpu(d)
  {
    assert c in s.owner && d !in s.owner;
    assert s.cores[d].current in Holds(s, d);
  }

  lemma SetCurrentKeeps(s: State, c: nat)
    requires Inv(s) && Can(s, SetCurrent(c))
    ensures Inv(Next(s, SetCurrent(c)))
  {
    var s', t := Next(s, SetCurrent(c)), s.cores[c].phase.to;
    assert t in Holds(s, c);
    forall d | 0 <= d < |s.cores| && d != c ensures s.cores[d].current != t {
      OthersRun(s, c, d);
    }
    forall d | 0 <= d < |s.cores| ensures Holds(s', d) == Holds(s, d) {
    }
  }

  lemma TakeKeeps(s: State, c: nat, t: Thread)
    requires Inv(s) && InPhase(s, c, Scanning) && t !in s.locked && (!t.Ring? ==> t.cpu == c)
    ensures Inv(WithCore(s, c, s.cores[c].(phase := Switching(t))).(locked := s.locked[t := Cpu(c)]))
  {
    var s' := WithCore(s, c, s.cores[c].(phase := Switching(t))).(locked := s.locked[t := Cpu(c)]);
    assert Holds(s', c) == {t};
    forall d | 0 <= d < |s.cores| && d != c ensures Holds(s', d) == Holds(s, d) {
    }
  }

  lemma ReleaseKeeps(s: State, c: nat)
    requires Inv(s) && Can(s, Release(c))
    ensures Inv(Next(s, Release(c)))
  {
    var s', t := Next(s, Release(c)), s.cores[c].current;
    assert t in Holds(s, c) && Holds(s', c) == {};
    forall d | 0 <= d < |s.cores| && d != c ensures Holds(s', d) == Holds(s, d) && t !in Holds(s, d) {
      assert s.locked[t] == Cpu(c);
    }
  }

  /** Actions that change neither a current thread nor a lock held by a CPU. */
  lemma OtherKeeps(s: State, a: Action)
    requires Inv(s) && Can(s, a) && (a.Enter? || a.Leave? || a.OutsideTake? || a.OutsideRelease?)
    ensures Inv(Next(s, a))
  {
    var s' := Next(s, a);
    forall d | 0 <= d < |s.cores| ensures Holds(s', d) == Holds(s, d) {
    }
  }

  lemma StepKeeps(s: State, a: Action)
    requires Inv(s) && Can(s, a)
    ensures Inv(Next(s, a))
  {
    hide Inv;
    match a
    case Release(c) => ReleaseKeeps(s, c);
    case TryTake(c, t) => if t !in s.locked { TakeKeeps(s, c, t); }
    case TakeIdle(c) =>
      IdleLockFree(s, c);
      TakeKeeps(s, c, Idle(c));
    case SetCurrent(c) => SetCurrentKeeps(s, c);
    case _ => OtherKeeps(s, a);
  }

  /** The tryAcquire on the idle thread always succeeds. */
  lemma IdleLockFree(s: State, c: nat)
    requires Inv(s) && InPhase(s, c, Scanning)
    ensures Idle(c) !in s.locked
  {
    assert Holds(s, c) == {};
  }

  ghost predicate Run(states: seq<State>, actions: seq<Action>) {
    && |states| == |actions| + 1 && Initial(states[0])
    && forall i :: 0 <= i < |actions| ==> Can(states[i], actions[i]) && states[i + 1] == Next(states[i], actions[i])
  }

  lemma {:induction false} RunInv(states: seq<State>, actions: seq<Action>, i: nat)
    requires Run(states, actions) && i <= |actions|
    ensures Inv(states[i])
  {
    if i == 0 {
      InitialInv(states[0]);
    } else {
      hide Inv;
      RunInv(states, actions, i - 1);
      StepKeeps(states[i - 1], actions[i - 1]);
    }
  }

  /** No thread is ever the current one of two CPUs. */
  lemma NeverOnTwoCpus(states: seq<State>, actions: seq<Action>, i: nat, c: nat, d: nat)
    requires Run(states, actions) && i <= |actions| && c < |states[i].cores| && d < |states[i].cores|
    ensures states[i].cores[c].current == states[i].cores[d].current ==> c == d
  {
    RunInv(states, actions, i);
    assert c < d || d < c || c == d;
  }

  /**
   While a CPU is not in the middle of a switch it has the lock of its current thread, so nobody
   else has it. In particular the release at line 47 always finds the lock held, by this CPU.
   */
  lemma RunningThreadIsLocked(states: seq<State>, actions: seq<Action>, i: nat, c: nat)
    requires Run(states, actions) && i <= |actions| && c < |states[i].cores|
    requires states[i].cores[c].phase in {Running, Locked, Leaving}
    ensures states[i].cores[c].current in states[i].locked
    ensures states[i].locked[states[i].cores[c].current] == Cpu(c)
  {
    RunInv(states, actions, i);
    assert states[i].cores[c].current in Holds(states[i], c);
  }

  /** In the middle of a switch all other CPUs run threads of their own. */
  lemma SwitchIsAlone(states: seq<State>, actions: seq<Action>, i: nat, c: nat, d: nat)
    requires Run(states, actions) && i <= |actions| && c < |states[i].cores| && d < |states[i].cores| && c != d
    requires states[i].cores[c].phase != Running
    ensures states[i].cores[d].phase == Running && states[i].cores[d].current in states[i].locked
    ensures states[i].locked[states[i].cores[d].current] == Cpu(d)
  {
    RunInv(states, actions, i);
    OthersRun(states[i], c, d);
  }

  lemma RunMore(states: seq<State>, actions: seq<Action>, a: Action, s: State)
    requires Run(states, actions) && Can(states[|actions|], a) && s == Next(states[|actions|], a)
    ensures Run(states + [s], actions + [a])
  {
    hide Can, Next, Initial;
  }

  /** A CPU passes over a thread that an outsider holds, and takes it once the outsider has let it go. */
  lemma TakenAfterOutsider() returns (states: seq<State>, actions: seq<Action>)
    ensures Run(states, actions) && |actions| == 8 && states[0].cores == [Core(Ring(0), Running)]
    ensures states[8] == State([Core(Ring(1), Running)], map[Ring(1) := Cpu(0)], {})
  {
    hide Run;
    var t, u := Ring(0), Ring(1);
    states, actions := OutsiderHolds(t, u);
    var s3 := State([Core(t, Scanning)], map[u := Outsider(0)], {0});
    RunMore(states, actions, TryTake(0, u), s3);
    states, actions := states + [s3], actions + [TryTake(0, u)];
    var s5 := State([Core(t, Scanning)], map[], {0});
    RunMore(states, actions, OutsideRelease(0, u), s5);
    states, actions := states + [s5], actions + [OutsideRelease(0, u)];
    var s6 := State([Core(t, Switching(u))], map[u := Cpu(0)], {0});
    RunMore(states, actions, TryTake(0, u), s6);
    states, actions := states + [s6], actions + [TryTake(0, u)];
    var s7 := State([Core(u, Leaving)], map[u := Cpu(0)], {0});
    RunMore(states, actions, SetCurrent(0), s7);
    states, actions := states + [s7], actions + [SetCurrent(0)];
    var s8 := State([Core(u, Running)], map[u := Cpu(0)], {});
    RunMore(states, actions, Leave(0), s8);
    states, actions := states + [s8], actions + [Leave(0)];
  }

  /** An outsider takes u, and then the only CPU begins a switch from t. */
  lemma OutsiderHolds(t: Thread, u: Thread) returns (states: seq<State>, actions: seq<Action>)
    requires t.Ring? && u.Ring? && t != u
    ensures Run(states, actions) && |actions| == 3 && |states| == 4 && states[0].cores == [Core(t, Running)]
    ensures states[3] == State([Core(t, Scanning)], map[u := Outsider(0)], {0})
  {
    var s0 := State([Core(t, Running)], map[t := Cpu(0)], {});
    var s1 := Next(s0, OutsideTake(0, u));
    var s2 := Next(s1, Enter(0));
    var s3 := Next(s2, Release(0));
    states, actions := [s0, s1, s2, s3], [OutsideTake(0, u), Enter(0), Release(0)];
    assert s3 == State([Core(t, Scanning)], map[u := Outsider(0)], {0});
  }

  /** Between the release and the choice of the next thread an outsider can hold the lock of the current one. */
  lemma OutsiderDuringScan() returns (states: seq<State>, actions: seq<Action>)
    ensures Run(states, actions) && |actions| == 3
    ensures var s := states[3];
            && InPhase(s, 0, Scanning) && s.cores[0].current in s.locked
            && s.locked[s.cores[0].current] == Outsider(0)
  {
    var t := Ring(0);
    var s0 := State([Core(t, Running)], map[t := Cpu(0)], {});
    var s1 := Next(s0, Enter(0));
    var s2 := Next(s1, Release(0));
    var s3 := Next(s2, OutsideTake(0, t));
    states, actions := [s0, s1, s2, s3], [Enter(0), Release(0), OutsideTake(0, t)];
  }
}
