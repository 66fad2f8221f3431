/** What becomes of a process that is killed, and why nobody is stuck on a spinlock: over every run of SleepWakeup. */
module ProcRuns {
  import opened ProcTable
  import opened SleepWakeup

  // ---- kill ----

  /** The exited process in position q is reaped. */
  ghost predicate Reaps(s: State, t: State, q: nat) {
    q < |s.procs| && q < |t.procs| && s.procs[q].state.Zombie? && t.procs[q].state.Unused?
  }

  lemma KillMarks(s: State, p: nat, t: State, q: nat)
    requires InRange(s, p) && s.pcs[p].KillBody? && OnTable(s, p, t) && FirstPid(s.procs, s.pcs[p].pid, q)
    ensures |t.procs| == |s.procs| && t.procs[q].killed && !t.procs[q].state.Sleeping?
    ensures !s.procs[q].state.Sleeping? ==> t.procs[q].state == s.procs[q].state
  {
    var i: nat :| FirstPid(s.procs, s.pcs[p].pid, i) && t.procs == s.procs[i := Victim(s.procs[i])];
    assert !(i < q) && !(q < i);
  }

  lemma TableKeepsMark(s: State, p: nat, t: State, q: nat)
    requires InRange(s, p) && OnTable(s, p, t) && q < |s.procs| && s.procs[q].killed
    ensures |t.procs| == |s.procs| && (t.procs[q].killed || Reaps(s, t, q))
  {}

  /** Only reaping takes the mark of a killed process away. */
  lemma NextKeepsMark(s: State, a: Action, t: State, q: nat)
    requires Base(s) && Next(s, a, t) && q < |s.procs| && s.procs[q].killed
    ensures |t.procs| == |s.procs| && (t.procs[q].killed || Reaps(s, t, q))
  {
    if a.Step? {
      if OnTable(s, a.p, t) {
        TableKeepsMark(s, a.p, t, q);
      } else {
        StepQuiet(s, a.p, t);
      }
    } else if !a.Fork? {
      OtherQuiet(s, a, t);
    }
  }

  /** A process that has been killed stays so until it is reaped, and in between never sleeps in wait. */
  lemma {:induction false} KilledUntilReaped(states: seq<State>, actions: seq<Action>, m: nat, n: nat, q: nat)
    requires IsRun(states, actions) && m <= n < |states| && q < |states[m].procs| && states[m].procs[q].killed
    requires forall k :: m <= k < n ==> !Reaps(states[k], states[k + 1], q)
    ensures q < |states[n].procs| && states[n].procs[q].killed && !InWait(states[n].procs, q)
  {
    RunIsSafe(states, actions, n);
    if m < n {
      KilledUntilReaped(states, actions, m, n - 1, q);
      RunIsSafe(states, actions, n - 1);
      assert Next(states[n - 1], actions[n - 1], states[n]);
      NextKeepsMark(states[n - 1], actions[n - 1], states[n], q);
    }
  }

  // ---- channels ----

  /** Whoever has a channel sleeps on it, or has been woken and not yet run on. */
  ghost predicate ChanFits(s: State, p: nat)
    requires p < |s.procs| && p < |s.pcs|
  {
    match s.procs[p].chan
    case NoChan => true
    case OnLock(l) => s.pcs[p] == Asleep(l) || s.pcs[p] == Awake(l)
    case OnProc(q) => s.pcs[p].WaitAsleep? && q == p
  }

  ghost predicate ChansFit(s: State) {
    |s.procs| == |s.pcs| && forall p: nat {:trigger ChanFits(s, p)} :: p < |s.procs| ==> ChanFits(s, p)
  }

  lemma AcquiringChan(s: State, q: nat, t: State, p: nat)
    requires InRange(s, q) && Acquiring(s, q, t) && p < |s.procs| && ChanFits(s, p)
    ensures |t.procs| == |s.procs| == |t.pcs| && ChanFits(t, p)
  {}

  lemma ReleasingChan(s: State, q: nat, t: State, p: nat)
    requires InRange(s, q) && Releasing(s, q, t) && p < |s.procs| && ChanFits(s, p)
    ensures |t.procs| == |s.procs| == |t.pcs| && ChanFits(t, p)
  {}

  lemma OnTableChan(s: State, q: nat, t: State, p: nat)
    requires InRange(s, q) && OnTable(s, q, t) && p < |s.procs| && ChanFits(s, p)
    ensures |t.procs| == |s.procs| == |t.pcs| && ChanFits(t, p)
  {}

  lemma OtherChan(s: State, a: Action, t: State, p: nat)
    requires Base(s) && Next(s, a, t) && !a.Step? && p < |s.procs| && ChanFits(s, p)
    ensures |t.procs| == |s.procs| == |t.pcs| && ChanFits(t, p)
  {}

  /** Only p's own step gives it a channel or takes it away; a wakeup changes states only. */
  lemma NextKeepsChan(s: State, a: Action, t: State, p: nat)
    requires Base(s) == true && Next(s, a, t) && |s.procs| == |s.pcs| && p < |s.procs| && ChanFits(s, p)
    ensures |t.procs| == |s.procs| == |t.pcs| && ChanFits(t, p)
  {
    if !a.Step? {
      OtherChan(s, a, t, p);
    } else if Acquiring(s, a.p, t) {
      AcquiringChan(s, a.p, t, p);
    } else if Releasing(s, a.p, t) {
      ReleasingChan(s, a.p, t, p);
    } else {
      OnTableChan(s, a.p, t, p);
    }
  }

  lemma {:induction false} ChannelsFit(states: seq<State>, actions: seq<Action>, n: nat)
    requires IsRun(states, actions) && n < |states|
    ensures ChansFit(states[n])
  {
    RunIsSafe(states, actions, n);
    if n > 0 {
      ChannelsFit(states, actions, n - 1);
      RunIsSafe(states, actions, n - 1);
      var s, a, t := states[n - 1], actions[n - 1], states[n];
      assert Next(s, a, t);
      forall p: nat {:trigger ChanFits(t, p)} | p < |s.procs|
        ensures |t.procs| == |s.procs| == |t.pcs| && ChanFits(t, p)
      {
        NextKeepsChan(s, a, t, p);
      }
    }
  }

  // ---- nobody is stuck ----

  /** Who holds the spinlock that the next step of p takes; -1 if nobody does, or it takes none. */
  ghost function Holder(s: State, p: nat): int
    requires InRange(s, p)
  {
    match s.pcs[p]
    case Acquire(l) => if l < |s.lk| then s.lk[l] else -1
    case Release(l) => if l < |s.lk| then s.lk[l] else -1
    case Sleep1(_) => s.pt
    case Wakeup1(_) => s.pt
    case Wait => s.pt
    case Exit => s.pt
    case Kill(_) => s.pt
    case _ => -1
  }

  ghost predicate CanStep(s: State, p: nat) {
    exists t :: Next(s, Step(p), t)
  }

  ghost predicate InitStays(s: State) {
    |s.pcs| > 0 && !s.pcs[INIT].Exit? && !s.pcs[INIT].ExitBody?
  }

  lemma NextKeepsInit(s: State, a: Action, t: State)
    requires InitStays(s) && Next(s, a, t)
    ensures InitStays(t)
  {
    if a.Step? {
      StepPlace(s, a.p, t);
    }
  }

  lemma StepPlace(s: State, p: nat, t: State)
    requires InRange(s, p) && Stepped(s, p, t)
    ensures t.pcs == s.pcs[p := t.pcs[p]] && !t.pcs[p].Exit? && (t.pcs[p].ExitBody? ==> s.pcs[p].Exit?)
  {}

  lemma {:induction false} RunKeepsInit(states: seq<State>, actions: seq<Action>, n: nat)
    requires IsRun(states, actions) && n < |states|
    ensures InitStays(states[n])
  {
    if n > 0 {
      RunKeepsInit(states, actions, n - 1);
      RunIsSafe(states, actions, n - 1);
      assert Next(states[n - 1], actions[n - 1], states[n]);
      NextKeepsInit(states[n - 1], actions[n - 1], states[n]);
    }
  }

  lemma WaitHasResult(t: seq<Proc>, cur: nat) returns (o: Outcome, r: seq<Proc>)
    requires cur < |t|
    ensures WaitResult(t, cur, o, r)
  {
    if i: nat :| FirstZombie(t, cur, i) {
      o, r := Returned(t[i].pid), t[i := Reaped(t[i])];
    } else if !HasKids(t, cur) || t[cur].killed {
      o, r := Returned(-1), t;
    } else {
      o, r := FellAsleep, t[cur := t[cur].(chan := OnProc(cur), state := Sleeping)];
    }
  }

  lemma KillHasResult(t: seq<Proc>, pid: int) returns (r: seq<Proc>)
    ensures KillResult(t, pid, r)
  {
    if i: nat :| FirstPid(t, pid, i) {
      r := t[i := Victim(t[i])];
    } else {
      r := t;
    }
  }

  /** A running process can lose the processor to a clock tick if and only if it holds no spinlock, and the scheduler
  can take ptable.lock. */
  lemma PreemptIff(s: State, p: nat)
    requires Base(s) && p < |s.procs| && s.procs[p].state.Running?
    ensures (exists t :: Next(s, Preempt(p), t)) <==>
            s.pt == -1 && forall l {:trigger s.lk[l]} :: 0 <= l < |s.lk| ==> s.lk[l] != p
  {
    forall l {:trigger s.lk[l]} | 0 <= l < |s.lk|
      ensures HasLk(s.pcs[p], l) <==> s.lk[l] == p
    {}
    assert LockInRange(s.pcs[p], |s.lk|) && (HasPt(s.pcs[p]) <==> s.pt == p);
    if l: nat :| l < |s.lk| && HasLk(s.pcs[p], l) {
      assert s.lk[l] == p;
    } else if s.pcs[p].Test? || s.pcs[p].Sleep1? || s.pcs[p].Take? || s.pcs[p].Leave? || s.pcs[p].Clear?
              || s.pcs[p].Wakeup1? {
      assert HasLk(s.pcs[p], s.pcs[p].l);
    }
    if Interruptible(s.pcs[p]) && s.pt == -1 {
      assert Next(s, Preempt(p), s.(procs := s.procs[p := s.procs[p].(state := Runnable)]));
    }
  }

  /** A running process in the middle of an operation can go on if and only if it does not spin. */
  lemma StepsIff(s: State, p: nat)
    requires Base(s) && InitStays(s) && p < |s.procs| && s.procs[p].state.Running? && !s.pcs[p].User?
    ensures CanStep(s, p) <==> Holder(s, p) == -1
  {
    if Holder(s, p) == -1 {
      var t := StepOf(s, p);
      assert Next(s, Step(p), t);
    }
  }

  lemma StepOf(s: State, p: nat) returns (t: State)
    requires Base(s) && InitStays(s) && p < |s.procs| && s.procs[p].state.Running? && !s.pcs[p].User?
    requires Holder(s, p) == -1
    ensures Stepped(s, p, t)
  {
    match s.pcs[p]
    case Acquire(l) => t := At(s, p, Test(l)).(lk := s.lk[l := p]);
    case Test(l) => t := At(s, p, if s.locked[l] then Sleep1(l) else Take(l));
    case Sleep1(l) => t := At(s, p, Sleep2(l)).(pt := p);
    case Sleep2(l) => t := At(s, p, Sleep3(l)).(lk := s.lk[l := -1]);
    case Sleep3(l) =>
      t := At(s, p, Asleep(l)).(procs := s.procs[p := s.procs[p].(chan := OnLock(l), state := Sleeping)], pt := -1);
    case Awake(l) => t := At(s, p, Acquire(l)).(procs := s.procs[p := s.procs[p].(chan := NoChan)], pt := -1);
    case Take(l) =>
      t := At(s, p, Leave(l)).(locked := s.locked[l := true], inside := s.inside[p := s.inside[p] + {l}]);
    case Leave(l) => t := At(s, p, User).(lk := s.lk[l := -1]);
    case Release(l) => t := At(s, p, Clear(l)).(lk := s.lk[l := p]);
    case Clear(l) =>
      t := At(s, p, Wakeup1(l)).(locked := s.locked[l := false], inside := s.inside[p := s.inside[p] - {l}]);
    case Wakeup1(l) => t := At(s, p, Wakeup2(l)).(pt := p);
    case Wakeup2(l) => t := At(s, p, Wakeup3(l)).(procs := Woken(s.procs, OnLock(l)));
    case Wakeup3(l) => t := At(s, p, Leave(l)).(pt := -1);
    case Wait => t := At(s, p, WaitScan).(pt := p);
    case WaitScan =>
      var o, r := WaitHasResult(s.procs, p);
      t := At(s, p, if o.FellAsleep? then WaitAsleep else User).(procs := r, pt := -1);
    case Exit => t := At(s, p, ExitBody).(pt := p);
    case ExitBody => t := At(s, p, Gone).(procs := Exited(s.procs, p), pt := -1);
    case Kill(pid) => t := At(s, p, KillBody(pid)).(pt := p);
    case KillBody(pid) =>
      var r := KillHasResult(s.procs, pid);
      t := At(s, p, User).(procs := r, pt := -1);
  }

  lemma HolderRuns(s: State, p: nat)
    requires Base(s) && p < |s.procs| && s.procs[p].state.Running? && Holder(s, p) >= 0
    ensures var q := Holder(s, p);
            && q < |s.procs| && s.procs[q].state.Running? && !s.pcs[q].User?
            && (HasPt(s.pcs[q]) || exists l :: HasLk(s.pcs[q], l))
  {
    var q := Holder(s, p);
    assert 0 <= q < |s.pcs|;
    if s.pcs[p].Acquire? || s.pcs[p].Release? {
      assert HasLk(s.pcs[q], s.pcs[p].l) <==> s.lk[s.pcs[p].l] == q;
    } else {
      assert HasPt(s.pcs[q]) <==> s.pt == q;
    }
  }

  /** No deadlock on spinlocks, and nobody who is stuck: in every run a process in the middle of an operation can take
  its next step, or the process that holds the spinlock it needs can, or the one that holds the spinlock that process
  needs. */
  lemma SomeoneSteps(states: seq<State>, actions: seq<Action>, n: nat, p: nat)
    requires IsRun(states, actions) && n < |states| && InRange(states[n], p)
    requires states[n].procs[p].state.Running? && !states[n].pcs[p].User?
    ensures var s, q := states[n], Holder(states[n], p);
            if q < 0 then CanStep(s, p)
            else InRange(s, q) &&
                 (CanStep(s, q) || (Holder(s, q) >= 0 && CanStep(s, Holder(s, q))))
  {
    RunIsSafe(states, actions, n);
    RunKeepsInit(states, actions, n);
    var s := states[n];
    StepsIff(s, p);
    var q := Holder(s, p);
    if q >= 0 {
      HolderRuns(s, p);
      StepsIff(s, q);
      if Holder(s, q) >= 0 {
        HolderRuns(s, q);
        StepsIff(s, Holder(s, q));
      }
    }
  }
}
