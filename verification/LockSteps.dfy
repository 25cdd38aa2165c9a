/**
 proc/scheduler.cpp: each dispatch of `schedule`, as the threads see it, is a sequence of accesses to
 locks and current threads that the step machine of all CPUs allows.
 */
module LockSteps {
  import opened ThreadRing
  import opened ScheduleRuns
  import Locks = SchedulerLocks

  /** Between two calls the step machine agrees with what CPU c sees of the ring. */
  predicate Agrees(s: Locks.State, c: nat, shot: Shot) {
    && Locks.InPhase(s, c, Locks.Running)
    && (if shot.at >= 0 then s.cores[c].current == Locks.Ring(shot.at) else !s.cores[c].current.Ring?)
    && forall j :: 0 <= j < |shot.threads| ==> (Locks.Ring(j) in s.locked <==> shot.threads[j].locked)
  }

  /** The actions lead from s to s', each allowed where it happens. */
  ghost predicate Leads(s: Locks.State, actions: seq<Locks.Action>, s': Locks.State)
    decreases |actions|
  {
    if actions == [] then s' == s
    else Locks.Can(s, actions[0]) && Leads(Locks.Next(s, actions[0]), actions[1..], s')
  }

  /** What CPU c does for a dispatch: it enters, releases its thread, takes the chosen one, and leaves. */
  function ActionsOf(c: nat, post: Shot): seq<Locks.Action> {
    var take := if post.at >= 0 then Locks.TryTake(c, Locks.Ring(post.at)) else Locks.TakeIdle(c);
    [Locks.Enter(c), Locks.Release(c), take, Locks.SetCurrent(c), Locks.Leave(c)]
  }

  lemma Five(s: Locks.State, s1: Locks.State, s2: Locks.State, s3: Locks.State, s4: Locks.State, s5: Locks.State,
             a: Locks.Action, b: Locks.Action, d: Locks.Action, e: Locks.Action, f: Locks.Action)
    requires Locks.Can(s, a) && s1 == Locks.Next(s, a) && Locks.Can(s1, b) && s2 == Locks.Next(s1, b)
    requires Locks.Can(s2, d) && s3 == Locks.Next(s2, d) && Locks.Can(s3, e) && s4 == Locks.Next(s3, e)
    requires Locks.Can(s4, f) && s5 == Locks.Next(s4, f)
    ensures Leads(s, [a, b, d, e, f], s5)
  {
    hide Locks.Can, Locks.Next;
    assert [a, b, d, e, f][1..] == [b, d, e, f] && [b, d, e, f][1..] == [d, e, f];
    assert [d, e, f][1..] == [e, f] && [e, f][1..] == [f] && [f][1..] == [];
    assert Leads(s4, [f], s5);
    assert Leads(s3, [e, f], s5);
    assert Leads(s2, [d, e, f], s5);
    assert Leads(s1, [b, d, e, f], s5);
  }

  /**
   Every dispatch that starts with the scheduler lock free is such a sequence: all five actions are
   allowed, and afterwards CPU c runs and holds the thread chosen. No other CPU changes.
   */
  lemma DispatchIsActions(s: Locks.State, c: nat, pre: Shot, post: Shot, uptime: nat) returns (s': Locks.State)
    requires Locks.Inv(s) && Agrees(s, c, pre) && s.owner == {} && Dispatches(pre, post, uptime)
    ensures Leads(s, ActionsOf(c, post), s') && Agrees(s', c, post) && s'.owner == {}
    ensures |s'.cores| == |s.cores| && forall d :: 0 <= d < |s.cores| && d != c ==> s'.cores[d] == s.cores[d]
    ensures post.at >= 0 ==> Locks.Ring(post.at) in s'.locked && s'.locked[Locks.Ring(post.at)] == Locks.Cpu(c)
  {
    hide Locks.Inv, Gain, Dist, Up;
    var s1 := Locks.Next(s, Locks.Enter(c));
    var s2 := Locks.Next(s1, Locks.Release(c));
    var take := if post.at >= 0 then Locks.TryTake(c, Locks.Ring(post.at)) else Locks.TakeIdle(c);
    if post.at >= 0 {
      assert Eligible(pre, uptime)[post.at];
      assert Locks.Ring(post.at) !in s2.locked;
    }
    var s3 := Locks.Next(s2, take);
    var s4 := Locks.Next(s3, Locks.SetCurrent(c));
    s' := Locks.Next(s4, Locks.Leave(c));
    Five(s, s1, s2, s3, s4, s', Locks.Enter(c), Locks.Release(c), take, Locks.SetCurrent(c), Locks.Leave(c));
  }

  /** What holds before such a sequence holds after it. */
  lemma {:induction false} LeadsInv(s: Locks.State, actions: seq<Locks.Action>, s': Locks.State)
    requires Locks.Inv(s) && Leads(s, actions, s')
    ensures Locks.Inv(s')
    decreases |actions|
  {
    hide Locks.Inv, Locks.Next, Locks.Can;
    if actions != [] {
      Locks.StepKeeps(s, actions[0]);
      LeadsInv(Locks.Next(s, actions[0]), actions[1..], s');
    }
  }

  /** Paying for a tick touches no lock. */
  lemma PaidAgrees(s: Locks.State, c: nat, shot: Shot)
    requires Agrees(s, c, shot)
    ensures Agrees(s, c, Paid(shot))
  {
  }

  /**
   A whole tick of CPU c: nothing, if it stays, or the five actions. So whatever holds of the step machine
   in every run, no thread on two CPUs for one, holds of `schedule`.
   */
  lemma TickIsActions(s: Locks.State, t: Tick) returns (actions: seq<Locks.Action>, s': Locks.State)
    requires Locks.Inv(s) && Agrees(s, t.cpu, t.pre) && s.owner == {} && TickOk(t)
    ensures Leads(s, actions, s') && Agrees(s', t.cpu, t.post) && Locks.Inv(s') && s'.owner == {}
    ensures actions == if t.left then ActionsOf(t.cpu, t.post) else []
    ensures |s'.cores| == |s.cores| && forall d :: 0 <= d < |s.cores| && d != t.cpu ==> s'.cores[d] == s.cores[d]
  {
    hide Locks.Inv, Dispatches, Locks.Next, Locks.Can, Agrees, Paid;
    PaidAgrees(s, t.cpu, t.pre);
    if t.left {
      actions := ActionsOf(t.cpu, t.post);
      s' := DispatchIsActions(s, t.cpu, Paid(t.pre), t.post, t.uptime);
      LeadsInv(s, actions, s');
    } else {
      actions, s' := [], s;
    }
  }
}
