/** Sleep locks and wait over sleep and wakeup: every interleaving of any number of processes.

The spinlocks inside sleep locks and ptable.lock are modelled by their owners; what a process does
while it holds ptable.lock is one step. */
module SleepWakeup {
  import opened ProcTable

  /** Where a process is.  l is the sleep lock it works on. */
  datatype Pc =
    | User                    // holds no spinlock, and is free to start any of the below
    | Acquire(l: nat)         // acquiresleep, and sleep after waking up: about to take lk->lk
    | Test(l: nat)            // the while loop, with lk->lk
    | Sleep1(l: nat)          // in sleep, with lk->lk, about to take ptable.lock
    | Sleep2(l: nat)          // with both, about to let go of lk->lk
    | Sleep3(l: nat)          // with ptable.lock, about to mark itself sleeping
    | Asleep(l: nat)          // switched away
    | Awake(l: nat)           // running again, with ptable.lock
    | Take(l: nat)            // with lk->lk, having found the lock free
    | Leave(l: nat)           // with lk->lk, done
    | Release(l: nat)         // releasesleep: about to take lk->lk
    | Clear(l: nat)           // with lk->lk
    | Wakeup1(l: nat)         // with lk->lk, about to take ptable.lock
    | Wakeup2(l: nat)         // with both, about to wake the sleepers
    | Wakeup3(l: nat)         // with both, done waking
    | Wait                    // wait: about to take ptable.lock
    | WaitScan                // with ptable.lock
    | WaitAsleep              // switched away in wait
    | Exit                    // about to take ptable.lock
    | ExitBody                // with ptable.lock
    | Kill(pid: int)          // about to take ptable.lock
    | KillBody(pid: int)      // with ptable.lock
    | Gone

  /** inside: the sleep locks each process has acquired and not yet released. */
  datatype State = State(procs: seq<Proc>, pcs: seq<Pc>, inside: seq<set<nat>>, locked: seq<bool>, lk: seq<int>,
                         pt: int)

  predicate HasLk(pc: Pc, l: nat) {
    match pc
    case Test(k) => k == l
    case Sleep1(k) => k == l
    case Sleep2(k) => k == l
    case Take(k) => k == l
    case Leave(k) => k == l
    case Clear(k) => k == l
    case Wakeup1(k) => k == l
    case Wakeup2(k) => k == l
    case Wakeup3(k) => k == l
    case _ => false
  }

  predicate HasPt(pc: Pc) {
    pc.Sleep2? || pc.Sleep3? || pc.Awake? || pc.Wakeup2? || pc.Wakeup3? || pc.WaitScan? || pc.ExitBody? || pc.KillBody?
  }

  /** The process holds no spinlock, so that interrupts are enabled and it can lose the processor. */
  predicate Interruptible(pc: Pc) {
    pc.User? || pc.Acquire? || pc.Release? || pc.Wait? || pc.Exit? || pc.Kill?
  }

  /** The next step of process p, an operation it starts, the scheduler resuming it, a clock tick that takes
  its processor away, or a fork into an unused position. */
  datatype Action =
    | Step(p: nat) | Start(p: nat, op: Pc) | Resume(p: nat) | Preempt(p: nat) | Fork(p: nat, child: nat, pid: int)

  // ---- one step of a process ----

  ghost function At(s: State, p: nat, pc: Pc): State
    requires p < |s.pcs|
  {
    s.(pcs := s.pcs[p := pc])
  }

  /** Process p is at pc, and the lock l, if any, is in range. */
  ghost predicate InRange(s: State, p: nat) {
    && |s.procs| == |s.pcs| == |s.inside| && p < |s.procs| && |s.lk| == |s.locked|
  }

  /** t is s after a step of process p. */
  ghost predicate Stepped(s: State, p: nat, t: State)
    requires InRange(s, p)
  {
    Acquiring(s, p, t) || Releasing(s, p, t) || OnTable(s, p, t)
  }

  /** A step of acquiresleep, or of sleep inside it. */
  ghost predicate Acquiring(s: State, p: nat, t: State)
    requires InRange(s, p)
  {
    match s.pcs[p]
    case Acquire(l) => l < |s.lk| && s.lk[l] == -1 && t == At(s, p, Test(l)).(lk := s.lk[l := p])
    case Test(l) => l < |s.lk| && t == At(s, p, if s.locked[l] then Sleep1(l) else Take(l))
    case Sleep1(l) => s.pt == -1 && t == At(s, p, Sleep2(l)).(pt := p)
    case Sleep2(l) => l < |s.lk| && t == At(s, p, Sleep3(l)).(lk := s.lk[l := -1])
    case Sleep3(l) =>
      t == At(s, p, Asleep(l)).(procs := s.procs[p := s.procs[p].(chan := OnLock(l), state := Sleeping)], pt := -1)
    case Awake(l) => t == At(s, p, Acquire(l)).(procs := s.procs[p := s.procs[p].(chan := NoChan)], pt := -1)
    case Take(l) =>
      l < |s.lk| && t == At(s, p, Leave(l)).(locked := s.locked[l := true], inside := s.inside[p := s.inside[p] + {l}])
    case Leave(l) => l < |s.lk| && t == At(s, p, User).(lk := s.lk[l := -1])
    case _ => false
  }

  /** A step of releasesleep, or of wakeup inside it. */
  ghost predicate Releasing(s: State, p: nat, t: State)
    requires InRange(s, p)
  {
    match s.pcs[p]
    case Release(l) => l < |s.lk| && s.lk[l] == -1 && t == At(s, p, Clear(l)).(lk := s.lk[l := p])
    case Clear(l) =>
      l < |s.lk| && t == At(s, p, Wakeup1(l)).(locked := s.locked[l := false],
                                               inside := s.inside[p := s.inside[p] - {l}])
    case Wakeup1(l) => s.pt == -1 && t == At(s, p, Wakeup2(l)).(pt := p)
    case Wakeup2(l) => t == At(s, p, Wakeup3(l)).(procs := Woken(s.procs, OnLock(l)))
    case Wakeup3(l) => t == At(s, p, Leave(l)).(pt := -1)
    case _ => false
  }

  /** A step of wait, exit or kill. */
  ghost predicate OnTable(s: State, p: nat, t: State)
    requires InRange(s, p)
  {
    match s.pcs[p]
    case Wait => s.pt == -1 && t == At(s, p, WaitScan).(pt := p)
    case WaitScan =>
      exists o :: WaitResult(s.procs, p, o, t.procs)
        && t == At(s, p, if o.FellAsleep? then WaitAsleep else User).(procs := t.procs, pt := -1)
    case Exit => s.pt == -1 && t == At(s, p, ExitBody).(pt := p)
    case ExitBody => p != INIT && t == At(s, p, Gone).(procs := Exited(s.procs, p), pt := -1)
    case Kill(pid) => s.pt == -1 && t == At(s, p, KillBody(pid)).(pt := p)
    case KillBody(pid) => KillResult(s.procs, pid, t.procs) && t == At(s, p, User).(procs := t.procs, pt := -1)
    case _ => false
  }

  /** Operations a process can start: acquire any sleep lock it has not got, release one it has, wait, exit with
  none, or kill. */
  ghost predicate CanStart(s: State, p: nat, op: Pc)
    requires InRange(s, p)
  {
    match op
    case Acquire(l) => l < |s.lk| && l !in s.inside[p]
    case Release(l) => l < |s.lk| && l in s.inside[p]
    case Wait => true
    case Exit => p != INIT && s.inside[p] == {}
    case Kill(pid) => true
    case _ => false
  }

  /** The scheduler runs p, which gets ptable.lock; unless it was switched away in sleep it lets go of it at once. */
  ghost function Resumed(s: State, p: nat): State
    requires InRange(s, p)
  {
    var r := s.procs[p].(state := Running);
    match s.pcs[p]
    case Asleep(l) => At(s, p, Awake(l)).(procs := s.procs[p := r], pt := p)
    case WaitAsleep => At(s, p, WaitScan).(procs := s.procs[p := r.(chan := NoChan)], pt := p)
    case _ => s.(procs := s.procs[p := r])
  }

  /** The process fork makes in an unused slot.  Nothing clears `killed`, which kill(0) may have set there. */
  function Forked(r: Proc, p: nat, pid: int): Proc {
    r.(state := Runnable, parent := p, pid := pid)
  }

  ghost predicate Next(s: State, a: Action, t: State) {
    match a
    case Step(p) => InRange(s, p) && s.procs[p].state.Running? && Stepped(s, p, t)
    case Start(p, op) =>
      InRange(s, p) && s.procs[p].state.Running? && s.pcs[p].User? && CanStart(s, p, op) && t == At(s, p, op)
    case Resume(p) => InRange(s, p) && s.procs[p].state.Runnable? && s.pt == -1 && t == Resumed(s, p)
    case Preempt(p) =>
      && InRange(s, p) && s.procs[p].state.Running? && Interruptible(s.pcs[p]) && s.pt == -1
      && t == s.(procs := s.procs[p := s.procs[p].(state := Runnable)])
    case Fork(p, child, pid) =>
      && InRange(s, p) && s.procs[p].state.Running? && s.pcs[p].User? && s.pt == -1
      && child < |s.procs| && s.procs[child].state.Unused?
      && t == s.(procs := s.procs[child := Forked(s.procs[child], p, pid)], pcs := s.pcs[child := User])
  }

  // ---- invariants ----

  ghost predicate Sizes(s: State) {
    && |s.procs| == |s.pcs| == |s.inside| > 0 && |s.lk| == |s.locked|
    && -1 <= s.pt < |s.procs| && forall l :: 0 <= l < |s.lk| ==> -1 <= s.lk[l] < |s.procs|
  }

  ghost predicate LockInRange(pc: Pc, n: nat) {
    match pc
    case Acquire(l) => l < n
    case Test(l) => l < n
    case Sleep1(l) => l < n
    case Sleep2(l) => l < n
    case Sleep3(l) => l < n
    case Asleep(l) => l < n
    case Awake(l) => l < n
    case Take(l) => l < n
    case Leave(l) => l < n
    case Release(l) => l < n
    case Clear(l) => l < n
    case Wakeup1(l) => l < n
    case Wakeup2(l) => l < n
    case Wakeup3(l) => l < n
    case _ => true
  }

  /** Each spinlock has exactly the owner that the processes' positions say. */
  ghost predicate Owners(s: State)
    requires Sizes(s)
  {
    && (forall p {:trigger s.pcs[p]} :: 0 <= p < |s.pcs| ==>
        LockInRange(s.pcs[p], |s.lk|) && (HasPt(s.pcs[p]) <==> s.pt == p))
    && (forall p, l {:trigger s.pcs[p], s.lk[l]} :: 0 <= p < |s.pcs| && 0 <= l < |s.lk| ==>
        (HasLk(s.pcs[p], l) <==> s.lk[l] == p))
  }

  /** Running states agree with positions: only processes switched away in sleep are asleep, each on its own
  channel, and only running ones are past the first step of an operation. */
  ghost predicate States(s: State)
    requires Sizes(s)
  {
    forall p {:trigger s.pcs[p]} {:trigger s.procs[p]} :: 0 <= p < |s.pcs| ==>
      match s.procs[p].state
      case Unused => s.pcs[p].Gone?
      case Zombie => s.pcs[p].Gone?
      case Sleeping =>
        || (s.pcs[p].Asleep? && s.procs[p].chan == OnLock(s.pcs[p].l))
        || (s.pcs[p].WaitAsleep? && s.procs[p].chan == OnProc(p))
      case Runnable => Interruptible(s.pcs[p]) || s.pcs[p].Asleep? || s.pcs[p].WaitAsleep?
      case Running => !s.pcs[p].Gone? && !s.pcs[p].Asleep? && !s.pcs[p].WaitAsleep?
  }

  ghost predicate Base(s: State) {
    Sizes(s) && Owners(s) && States(s)
  }

  /** The spinlock of l when process p moves to pc. */
  ghost predicate MovesLock(s: State, p: nat, pc: Pc, t: State, l: nat)
    requires l < |s.lk| && l < |t.lk|
  {
    if HasLk(pc, l) then (s.lk[l] == -1 || s.lk[l] == p) && t.lk[l] == p
    else t.lk[l] == if s.lk[l] == p then -1 else s.lk[l]
  }

  /** Process p moves to pc, with the spinlocks that go with it. */
  ghost predicate Moves(s: State, p: nat, pc: Pc, t: State)
    requires Sizes(s) && p < |s.pcs|
  {
    && t.pcs == s.pcs[p := pc] && |t.procs| == |s.procs| && |t.inside| == |s.inside| && |t.locked| == |t.lk| == |s.lk|
    && LockInRange(pc, |s.lk|)
    && (if HasPt(pc) then (s.pt == -1 || s.pt == p) && t.pt == p else t.pt == if s.pt == p then -1 else s.pt)
    && forall l: nat {:trigger MovesLock(s, p, pc, t, l)} :: l < |s.lk| ==> MovesLock(s, p, pc, t, l)
  }

  lemma MovesKeepsOwners(s: State, p: nat, pc: Pc, t: State)
    requires Sizes(s) && Owners(s) && p < |s.pcs| && Moves(s, p, pc, t)
    ensures Sizes(t) && Owners(t)
  {
    forall q, l | 0 <= q < |t.pcs| && 0 <= l < |t.lk|
      ensures HasLk(t.pcs[q], l) <==> t.lk[l] == q
    {
      assert MovesLock(s, p, pc, t, l);
      assert HasLk(s.pcs[q], l) <==> s.lk[l] == q;
    }
    forall l | 0 <= l < |t.lk|
      ensures -1 <= t.lk[l] < |t.procs|
    {
      assert MovesLock(s, p, pc, t, l);
    }
  }

  lemma AcquiringMoves(s: State, p: nat, t: State)
    requires Sizes(s) && Owners(s) && InRange(s, p) && Acquiring(s, p, t)
    ensures |t.pcs| == |s.pcs| && Moves(s, p, t.pcs[p], t)
  {
    var pc := t.pcs[p];
    forall l: nat | l < |s.lk|
      ensures MovesLock(s, p, pc, t, l)
    {
      assert HasLk(s.pcs[p], l) <==> s.lk[l] == p;
    }
  }

  lemma ReleasingMoves(s: State, p: nat, t: State)
    requires Sizes(s) && Owners(s) && InRange(s, p) && Releasing(s, p, t)
    ensures |t.pcs| == |s.pcs| && Moves(s, p, t.pcs[p], t)
  {
    var pc := t.pcs[p];
    forall l: nat | l < |s.lk|
      ensures MovesLock(s, p, pc, t, l)
    {
      assert HasLk(s.pcs[p], l) <==> s.lk[l] == p;
    }
  }

  lemma OnTableMoves(s: State, p: nat, t: State)
    requires Sizes(s) && Owners(s) && InRange(s, p) && OnTable(s, p, t)
    ensures |t.pcs| == |s.pcs| && Moves(s, p, t.pcs[p], t)
  {
    var pc := t.pcs[p];
    forall l: nat | l < |s.lk|
      ensures MovesLock(s, p, pc, t, l)
    {
      assert HasLk(s.pcs[p], l) <==> s.lk[l] == p;
    }
  }

  lemma AcquiringStates(s: State, p: nat, t: State)
    requires Base(s) && InRange(s, p) && s.procs[p].state.Running? && Acquiring(s, p, t) && Sizes(t)
    ensures States(t)
  {}

  lemma ReleasingStates(s: State, p: nat, t: State)
    requires Base(s) && InRange(s, p) && s.procs[p].state.Running? && Releasing(s, p, t) && Sizes(t)
    ensures States(t)
  {}

  lemma OnTableStates(s: State, p: nat, t: State)
    requires Base(s) && InRange(s, p) && s.procs[p].state.Running? && OnTable(s, p, t) && Sizes(t)
    ensures States(t)
  {}

  /** Every action keeps spinlock owners and running states right. */
  lemma NextKeepsBase(s: State, a: Action, t: State)
    requires Base(s) && Next(s, a, t)
    ensures Base(t)
  {
    match a
    case Step(p) =>
      if Acquiring(s, p, t) {
        AcquiringMoves(s, p, t);
        MovesKeepsOwners(s, p, t.pcs[p], t);
        AcquiringStates(s, p, t);
      } else if Releasing(s, p, t) {
        ReleasingMoves(s, p, t);
        MovesKeepsOwners(s, p, t.pcs[p], t);
        ReleasingStates(s, p, t);
      } else {
        OnTableMoves(s, p, t);
        MovesKeepsOwners(s, p, t.pcs[p], t);
        OnTableStates(s, p, t);
      }
    case _ => OtherKeepsBase(s, a, t);
  }

  lemma OtherMoves(s: State, a: Action, t: State)
    requires Base(s) && Next(s, a, t) && !a.Step?
    ensures var p := if a.Fork? then a.child else a.p;
            p < |s.pcs| == |t.pcs| && Moves(s, p, t.pcs[p], t)
  {
    var p := if a.Fork? then a.child else a.p;
    var pc := t.pcs[p];
    forall l: nat | l < |s.lk|
      ensures MovesLock(s, p, pc, t, l)
    {
      assert HasLk(s.pcs[p], l) <==> s.lk[l] == p;
    }
  }

  lemma OtherKeepsBase(s: State, a: Action, t: State)
    requires Base(s) && Next(s, a, t) && !a.Step?
    ensures Base(t)
  {
    var p := if a.Fork? then a.child else a.p;
    OtherMoves(s, a, t);
    MovesKeepsOwners(s, p, t.pcs[p], t);
  }

  // ---- mutual exclusion ----

  /** At most one process is inside each sleep lock. */
  ghost predicate Exclusive(s: State) {
    forall p, q, l {:trigger l in s.inside[p], l in s.inside[q]} ::
      0 <= p < |s.inside| && 0 <= q < |s.inside| && l in s.inside[p] && l in s.inside[q] ==> p == q
  }

  /** A sleep lock is marked locked exactly while a process is inside. */
  ghost predicate Marked(s: State) {
    && (forall p, l {:trigger l in s.inside[p]} :: 0 <= p < |s.inside| && l in s.inside[p] ==>
        l < |s.locked| && s.locked[l])
    && (forall l {:trigger s.locked[l]} :: 0 <= l < |s.locked| && s.locked[l] ==>
        exists p :: 0 <= p < |s.inside| && l in s.inside[p])
  }

  /** What process p may count on where it is. */
  ghost predicate Knows(s: State, p: nat, pc: Pc)
    requires p < |s.inside|
  {
    && (pc.Take? ==> pc.l < |s.locked| && !s.locked[pc.l])
    && (pc.Release? || pc.Clear? ==> pc.l in s.inside[p])
    && (pc.Gone? || pc.Exit? || pc.ExitBody? ==> s.inside[p] == {})
  }

  ghost predicate Mutex(s: State)
    requires Sizes(s)
  {
    Exclusive(s) && Marked(s) && forall p {:trigger s.pcs[p]} :: 0 <= p < |s.pcs| ==> Knows(s, p, s.pcs[p])
  }

  lemma MutexFrame(s: State, p: nat, t: State)
    requires Sizes(s) && Mutex(s) && Sizes(t) && p < |s.pcs| && |t.pcs| == |s.pcs| && t.pcs == s.pcs[p := t.pcs[p]]
    requires t.inside == s.inside && t.locked == s.locked && Knows(s, p, t.pcs[p])
    ensures Mutex(t)
  {
    forall q | 0 <= q < |t.pcs|
      ensures Knows(t, q, t.pcs[q])
    {
      assert q != p ==> Knows(s, q, s.pcs[q]);
    }
  }

  /** p enters the sleep lock l, which it found free while holding its spinlock. */
  lemma MutexTake(s: State, p: nat, t: State)
    requires Base(s) && Mutex(s) && Base(t) && p < |s.pcs| && s.pcs[p].Take? && Acquiring(s, p, t)
    ensures Mutex(t)
  {
    var l := s.pcs[p].l;
    assert Knows(s, p, s.pcs[p]);
    assert l in t.inside[p];
    forall q | 0 <= q < |t.pcs|
      ensures Knows(t, q, t.pcs[q])
    {
      assert Knows(s, q, s.pcs[q]);
      assert (HasLk(s.pcs[q], l) <==> s.lk[l] == q) && HasLk(s.pcs[p], l) && s.lk[l] == p;
    }
    forall k | 0 <= k < |t.locked| && t.locked[k]
      ensures exists q :: 0 <= q < |t.inside| && k in t.inside[q]
    {
      if k != l {
        var q :| 0 <= q < |s.inside| && k in s.inside[q];
        assert k in t.inside[q];
      }
    }
  }

  lemma MutexClear(s: State, p: nat, t: State)
    requires Base(s) && Mutex(s) && Base(t) && p < |s.pcs| && s.pcs[p].Clear? && Releasing(s, p, t)
    ensures Mutex(t)
  {
    var l := s.pcs[p].l;
    assert Knows(s, p, s.pcs[p]);
    forall q | 0 <= q < |t.pcs|
      ensures Knows(t, q, t.pcs[q])
    {
      assert Knows(s, q, s.pcs[q]);
    }
    forall k | 0 <= k < |t.locked| && t.locked[k]
      ensures exists q :: 0 <= q < |t.inside| && k in t.inside[q]
    {
      var q :| 0 <= q < |s.inside| && k in s.inside[q];
      assert k in t.inside[q];
    }
  }

  /** t.inside and t.locked are those of s, and p knows what it should where it is now. */
  ghost predicate Framed(s: State, p: nat, t: State)
    requires p < |s.inside|
  {
    && t.inside == s.inside && t.locked == s.locked
    && p < |s.pcs| && |t.pcs| == |s.pcs| && t.pcs == s.pcs[p := t.pcs[p]] && Knows(s, p, t.pcs[p])
  }

  lemma StepFramed(s: State, p: nat, t: State)
    requires InRange(s, p) && Knows(s, p, s.pcs[p])
    ensures Acquiring(s, p, t) && !s.pcs[p].Take? ==> Framed(s, p, t)
    ensures Releasing(s, p, t) && !s.pcs[p].Clear? && (s.pcs[p].Release? ==> LockInRange(s.pcs[p], |s.lk|)) ==>
              Framed(s, p, t)
    ensures OnTable(s, p, t) ==> Framed(s, p, t)
  {}

  lemma OtherFramed(s: State, a: Action, t: State)
    requires Sizes(s) && Mutex(s) && States(s) && Next(s, a, t) && !a.Step?
    ensures Framed(s, if a.Fork? then a.child else a.p, t)
  {
    var p := if a.Fork? then a.child else a.p;
    assert Knows(s, p, s.pcs[p]);
  }

  lemma NextKeepsMutex(s: State, a: Action, t: State)
    requires Base(s) && Mutex(s) && Next(s, a, t) && Base(t)
    ensures Mutex(t)
  {
    if a.Step? {
      var p := a.p;
      assert Knows(s, p, s.pcs[p]);
      StepFramed(s, p, t);
      if s.pcs[p].Take? {
        MutexTake(s, p, t);
      } else if s.pcs[p].Clear? {
        MutexClear(s, p, t);
      } else {
        MutexFrame(s, p, t);
      }
    } else {
      OtherFramed(s, a, t);
      MutexFrame(s, if a.Fork? then a.child else a.p, t);
    }
  }

  // ---- no lost wakeup ----

  /** Process q has decided to sleep until the sleep lock l is released, and has not been woken. */
  ghost predicate Waits(s: State, q: nat, l: nat)
    requires q < |s.pcs| && q < |s.procs|
  {
    || s.pcs[q] == Sleep1(l) || s.pcs[q] == Sleep2(l) || s.pcs[q] == Sleep3(l)
    || (s.pcs[q] == Asleep(l) && s.procs[q].state.Sleeping?)
  }

  /** The process that released l has yet to wake the sleepers. */
  ghost predicate Waking(s: State, l: nat)
    requires l < |s.lk|
  {
    0 <= s.lk[l] < |s.pcs| && (s.pcs[s.lk[l]] == Wakeup1(l) || s.pcs[s.lk[l]] == Wakeup2(l))
  }

  /** Nobody sleeps on a free lock without someone about to wake them. */
  ghost predicate NoLostWakeup(s: State)
    requires Sizes(s)
  {
    forall q, l {:trigger Waits(s, q, l)} :: 0 <= q < |s.pcs| && 0 <= l < |s.lk| && Waits(s, q, l) ==>
        s.locked[l] || Waking(s, l)
  }

  /** A move of p that takes no lock away, puts nobody but p to sleep, and p only on a lock that is locked, while p
  is not the one to wake the sleepers. */
  ghost predicate Harmless(s: State, p: nat, t: State)
    requires Sizes(s) && p < |s.pcs|
  {
    && |t.pcs| == |s.pcs| && t.pcs == s.pcs[p := t.pcs[p]] && !s.pcs[p].Wakeup1? && !s.pcs[p].Wakeup2?
    && |t.procs| == |s.procs| && |t.locked| == |s.locked| && |t.lk| == |s.lk|
    && (forall l {:trigger t.locked[l]} :: 0 <= l < |s.locked| && s.locked[l] ==> t.locked[l])
    && (forall l {:trigger t.lk[l]} :: 0 <= l < |s.lk| && t.lk[l] != s.lk[l] ==> s.lk[l] == -1 || s.lk[l] == p)
    && (forall q {:trigger t.procs[q]} :: 0 <= q < |s.procs| && q != p && t.procs[q].state.Sleeping? ==>
        s.procs[q].state.Sleeping?)
    && (forall l: nat {:trigger Waits(t, p, l)} :: l < |s.locked| && Waits(t, p, l) ==> Waits(s, p, l) || s.locked[l])
  }

  lemma HarmlessKeeps(s: State, p: nat, t: State)
    requires Sizes(s) && Sizes(t) && NoLostWakeup(s) && p < |s.pcs| && Harmless(s, p, t)
    ensures NoLostWakeup(t)
  {
    forall q, l | 0 <= q < |t.pcs| && 0 <= l < |t.lk| && Waits(t, q, l)
      ensures t.locked[l] || Waking(t, l)
    {
      if !s.locked[l] {
        assert Waits(s, q, l);
        assert Waking(s, l) && s.lk[l] != p;
        assert t.lk[l] == s.lk[l];
      }
    }
  }

  lemma AcquiringHarmless(s: State, p: nat, t: State)
    requires Sizes(s) && Owners(s) && InRange(s, p) && Acquiring(s, p, t)
    ensures Harmless(s, p, t)
  {
    forall l | 0 <= l < |s.lk|
      ensures HasLk(s.pcs[p], l) <==> s.lk[l] == p
    {}
  }

  lemma OnTableHarmless(s: State, p: nat, t: State)
    requires Sizes(s) && Owners(s) && InRange(s, p) && OnTable(s, p, t)
    ensures Harmless(s, p, t)
  {}

  lemma OtherHarmless(s: State, a: Action, t: State)
    requires Base(s) && Next(s, a, t) && !a.Step?
    ensures Harmless(s, if a.Fork? then a.child else a.p, t)
  {}

  /** The releaser clears the lock, takes ptable.lock, and wakes everybody who waits. */
  lemma ReleasingWakes(s: State, p: nat, t: State, q: nat, l: nat)
    requires Base(s) && NoLostWakeup(s) && InRange(s, p) && Releasing(s, p, t) && Sizes(t)
    requires q < |t.pcs| && l < |t.lk| && Waits(t, q, l)
    ensures t.locked[l] || Waking(t, l)
  {
    assert HasLk(s.pcs[p], l) <==> s.lk[l] == p;
    assert HasLk(s.pcs[q], l) <==> s.lk[l] == q;
    assert Waits(s, q, l);
  }

  lemma ReleasingNoLost(s: State, p: nat, t: State)
    requires Base(s) && NoLostWakeup(s) && InRange(s, p) && Releasing(s, p, t) && Base(t)
    ensures NoLostWakeup(t)
  {
    forall q, l | 0 <= q < |t.pcs| && 0 <= l < |t.lk| && Waits(t, q, l)
      ensures t.locked[l] || Waking(t, l)
    {
      ReleasingWakes(s, p, t, q, l);
    }
  }

  lemma NextKeepsNoLost(s: State, a: Action, t: State)
    requires Base(s) && NoLostWakeup(s) && Next(s, a, t) && Base(t)
    ensures NoLostWakeup(t)
  {
    if a.Step? && Releasing(s, a.p, t) {
      ReleasingNoLost(s, a.p, t);
    } else {
      if a.Step? && Acquiring(s, a.p, t) {
        AcquiringHarmless(s, a.p, t);
      } else if a.Step? {
        OnTableHarmless(s, a.p, t);
      } else {
        OtherHarmless(s, a, t);
      }
      HarmlessKeeps(s, if a.Fork? then a.child else a.p, t);
    }
  }

  // ---- families ----

  ghost predicate Alive(p: Proc) {
    !p.state.Unused? && !p.state.Zombie?
  }

  /** init lives, and every process but init has another, living process as its parent: nobody is left
  behind. */
  ghost predicate Family(t: seq<Proc>) {
    && |t| > 0 && Alive(t[INIT]) && t[INIT].parent == -1
    && forall p: nat {:trigger InFamily(t, p)} :: 0 < p < |t| ==> InFamily(t, p)
  }

  ghost predicate InFamily(t: seq<Proc>, p: nat)
    requires p < |t|
  {
    if t[p].state.Unused? then t[p].parent == -1
    else 0 <= t[p].parent < |t| && t[p].parent != p && Alive(t[t[p].parent])
  }

  /** No child of p has exited. */
  ghost predicate NoZombieChild(t: seq<Proc>, p: int) {
    forall c {:trigger t[c]} :: 0 <= c < |t| && t[c].parent == p ==> !t[c].state.Zombie?
  }

  /** Process p sleeps in wait. */
  ghost predicate InWait(t: seq<Proc>, p: nat) {
    p < |t| && t[p].state.Sleeping? && t[p].chan == OnProc(p)
  }

  /** A process asleep in wait has children, none of which has exited, and has not been killed. */
  ghost predicate WaitsRightly(t: seq<Proc>) {
    forall p: nat {:trigger InWait(t, p)} :: InWait(t, p) ==> NoZombieChild(t, p) && HasKids(t, p) && !t[p].killed
  }

  /** r differs from t in running states and channels only, nobody exits or appears, and nobody newly sleeps in
  wait. */
  ghost predicate Quiet(t: seq<Proc>, r: seq<Proc>) {
    && |r| == |t|
    && forall p {:trigger t[p]} {:trigger r[p]} :: 0 <= p < |t| ==>
         && r[p].parent == t[p].parent && r[p].killed == t[p].killed && Alive(r[p]) == Alive(t[p])
         && r[p].state.Unused? == t[p].state.Unused? && (InWait(r, p) ==> InWait(t, p))
  }

  lemma QuietKeeps(t: seq<Proc>, r: seq<Proc>)
    requires Family(t) && WaitsRightly(t) && Quiet(t, r)
    ensures Family(r) && WaitsRightly(r)
  {
    forall p: nat | 0 < p < |r|
      ensures InFamily(r, p)
    {
      assert InFamily(t, p);
    }
    forall p: nat | InWait(r, p)
      ensures NoZombieChild(r, p) && HasKids(r, p) && !r[p].killed
    {
      var c :| 0 <= c < |t| && t[c].parent == p;
      assert r[c].parent == p;
    }
  }

  lemma ReapKeeps(t: seq<Proc>, cur: nat, i: nat)
    requires Family(t) && WaitsRightly(t) && cur < |t| && !t[cur].state.Sleeping? && FirstZombie(t, cur, i)
    ensures Family(t[i := Reaped(t[i])]) && WaitsRightly(t[i := Reaped(t[i])])
  {
    var r := t[i := Reaped(t[i])];
    forall p: nat | 0 < p < |r|
      ensures InFamily(r, p)
    {
      assert InFamily(t, p);
    }
    forall p: nat | InWait(r, p)
      ensures NoZombieChild(r, p) && HasKids(r, p) && !r[p].killed
    {
      assert InWait(t, p);
      var c :| 0 <= c < |t| && t[c].parent == p;
      assert r[c].parent == p;
    }
  }

  lemma ExitKeepsFamily(t: seq<Proc>, cur: nat)
    requires Family(t) && 0 < cur < |t| && Alive(t[cur])
    ensures Family(Exited(t, cur))
  {
    var r := Exited(t, cur);
    forall p: nat | 0 < p < |r|
      ensures InFamily(r, p)
    {
      assert InFamily(t, p);
    }
  }

  lemma ExitKeepsWaits(t: seq<Proc>, cur: nat)
    requires Family(t) && WaitsRightly(t) && 0 < cur < |t| && Alive(t[cur]) && !t[cur].state.Sleeping?
    ensures WaitsRightly(Exited(t, cur))
  {
    var r := Exited(t, cur);
    assert InFamily(t, cur);
    forall p: nat | InWait(r, p)
      ensures NoZombieChild(r, p) && HasKids(r, p) && !r[p].killed
    {
      assert InWait(t, p) && p != t[cur].parent;
      assert p == INIT ==> !ZombieLeft(t, cur, |t|);
      var c :| 0 <= c < |t| && t[c].parent == p;
      assert r[c].parent == p;
    }
  }

  lemma ZombieIsFirst(t: seq<Proc>, cur: int, i: nat)
    requires i < |t| && t[i].parent == cur && t[i].state.Zombie?
    ensures exists j: nat :: FirstZombie(t, cur, j)
  {
    if !FirstZombie(t, cur, i) {
      var j :| 0 <= j < i && t[j].parent == cur && t[j].state.Zombie?;
      ZombieIsFirst(t, cur, j);
    }
  }

  lemma SleepKeeps(t: seq<Proc>, cur: nat)
    requires Family(t) && WaitsRightly(t) && cur < |t| && Alive(t[cur]) && !t[cur].killed && HasKids(t, cur)
    requires !exists i: nat :: FirstZombie(t, cur, i)
    ensures var r := t[cur := t[cur].(chan := OnProc(cur), state := Sleeping)]; Family(r) && WaitsRightly(r)
  {
    var r := t[cur := t[cur].(chan := OnProc(cur), state := Sleeping)];
    forall c: nat | c < |t| && t[c].parent == cur
      ensures !t[c].state.Zombie?
    {
      if t[c].state.Zombie? {
        ZombieIsFirst(t, cur, c);
      }
    }
    forall p: nat | 0 < p < |r|
      ensures InFamily(r, p)
    {
      assert InFamily(t, p);
    }
    forall p: nat | InWait(r, p)
      ensures NoZombieChild(r, p) && HasKids(r, p) && !r[p].killed
    {
      assert p == cur || InWait(t, p);
      var c :| 0 <= c < |t| && t[c].parent == p;
      assert r[c].parent == p;
    }
  }

  lemma WaitKeeps(t: seq<Proc>, cur: nat, o: Outcome, r: seq<Proc>)
    requires Family(t) && WaitsRightly(t) && cur < |t| && t[cur].state.Running? && WaitResult(t, cur, o, r)
    ensures Family(r) && WaitsRightly(r)
  {
    if i: nat :| FirstZombie(t, cur, i) && o == Returned(t[i].pid) && r == t[i := Reaped(t[i])] {
      ReapKeeps(t, cur, i);
    } else if o.FellAsleep? {
      SleepKeeps(t, cur);
    }
  }

  lemma KillKeeps(t: seq<Proc>, pid: int, r: seq<Proc>)
    requires Family(t) && WaitsRightly(t) && KillResult(t, pid, r)
    ensures Family(r) && WaitsRightly(r)
  {
    if i: nat :| FirstPid(t, pid, i) && r == t[i := Victim(t[i])] {
      forall p: nat | 0 < p < |r|
        ensures InFamily(r, p)
      {
        assert InFamily(t, p);
      }
      forall p: nat | InWait(r, p)
        ensures NoZombieChild(r, p) && HasKids(r, p) && !r[p].killed
      {
        assert InWait(t, p);
        var c :| 0 <= c < |t| && t[c].parent == p;
        assert r[c].parent == p;
      }
    }
  }

  lemma ForkKeeps(t: seq<Proc>, p: nat, child: nat, pid: int)
    requires Family(t) && WaitsRightly(t) && p < |t| && t[p].state.Running? && child < |t| && t[child].state.Unused?
    ensures var r := t[child := Forked(t[child], p, pid)]; Family(r) && WaitsRightly(r)
  {
    var r := t[child := Forked(t[child], p, pid)];
    assert child > 0 && InFamily(t, child);
    forall q: nat | 0 < q < |r|
      ensures InFamily(r, q)
    {
      assert InFamily(t, q);
    }
    forall q: nat | InWait(r, q)
      ensures NoZombieChild(r, q) && HasKids(r, q) && !r[q].killed
    {
      assert InWait(t, q);
      var c :| 0 <= c < |t| && t[c].parent == q;
      assert r[c].parent == q;
    }
  }

  lemma QuietUpdate(t: seq<Proc>, p: nat, r: Proc)
    requires p < |t| && Alive(t[p]) && Alive(r) && (r.state.Sleeping? ==> r.chan != OnProc(p))
    requires r.parent == t[p].parent && r.killed == t[p].killed
    ensures Quiet(t, t[p := r])
  {
    var u := t[p := r];
    forall q: nat | q < |t|
      ensures InWait(u, q) ==> InWait(t, q)
    {
      if q == p {
        assert !InWait(u, p);
      }
    }
  }

  lemma QuietWakeup(t: seq<Proc>, chan: Chan)
    ensures Quiet(t, Woken(t, chan))
  {}

  lemma StepQuiet(s: State, p: nat, t: State)
    requires Base(s) && InRange(s, p) && s.procs[p].state.Running?
    ensures Acquiring(s, p, t) || Releasing(s, p, t) ==> Quiet(s.procs, t.procs)
  {
    if Acquiring(s, p, t) && |t.procs| == |s.procs| {
      QuietUpdate(s.procs, p, t.procs[p]);
      assert t.procs == s.procs[p := t.procs[p]];
    } else if s.pcs[p].Wakeup2? {
      QuietWakeup(s.procs, OnLock(s.pcs[p].l));
    } else {
      QuietUpdate(s.procs, p, s.procs[p]);
      assert s.procs == s.procs[p := s.procs[p]];
    }
  }

  lemma OnTableKeeps(s: State, p: nat, t: State)
    requires Base(s) && InRange(s, p) && s.procs[p].state.Running? && OnTable(s, p, t)
    requires Family(s.procs) && WaitsRightly(s.procs)
    ensures Family(t.procs) && WaitsRightly(t.procs)
  {
    if s.pcs[p].WaitScan? {
      var o :| WaitResult(s.procs, p, o, t.procs);
      WaitKeeps(s.procs, p, o, t.procs);
    } else if s.pcs[p].ExitBody? {
      ExitKeepsFamily(s.procs, p);
      ExitKeepsWaits(s.procs, p);
    } else if s.pcs[p].KillBody? {
      KillKeeps(s.procs, s.pcs[p].pid, t.procs);
    }
  }

  lemma OtherQuiet(s: State, a: Action, t: State)
    requires Base(s) && Next(s, a, t) && !a.Step? && !a.Fork?
    ensures Quiet(s.procs, t.procs)
  {
    match a
    case Start(p, op) => assert t.procs == s.procs;
    case Resume(p) => QuietUpdate(s.procs, p, t.procs[p]);
    case Preempt(p) => QuietUpdate(s.procs, p, t.procs[p]);
  }

  lemma OtherKeeps(s: State, a: Action, t: State)
    requires Base(s) && Family(s.procs) && WaitsRightly(s.procs) && Next(s, a, t) && !a.Step?
    ensures Family(t.procs) && WaitsRightly(t.procs)
  {
    if a.Fork? {
      ForkKeeps(s.procs, a.p, a.child, a.pid);
      assert t.procs == s.procs[a.child := Forked(s.procs[a.child], a.p, a.pid)];
    } else {
      OtherQuiet(s, a, t);
      QuietKeeps(s.procs, t.procs);
    }
  }

  lemma NextKeepsFamily(s: State, a: Action, t: State)
    requires Base(s) && Family(s.procs) && WaitsRightly(s.procs) && Next(s, a, t)
    ensures Family(t.procs) && WaitsRightly(t.procs)
  {
    if !a.Step? {
      OtherKeeps(s, a, t);
    } else if OnTable(s, a.p, t) {
      OnTableKeeps(s, a.p, t);
    } else {
      StepQuiet(s, a.p, t);
      QuietKeeps(s.procs, t.procs);
    }
  }

  // ---- every run ----

  ghost predicate Inv(s: State) {
    Base(s) && Mutex(s) && NoLostWakeup(s) && Family(s.procs) && WaitsRightly(s.procs)
  }

  /** Only init exists, no lock is held, and nobody is inside a sleep lock. */
  ghost predicate Init(s: State) {
    && Sizes(s) && s.pt == -1 && (forall l :: 0 <= l < |s.lk| ==> s.lk[l] == -1 && !s.locked[l])
    && s.pcs[INIT].User? && s.procs[INIT].state.Runnable?
    && (forall p {:trigger s.inside[p]} {:trigger s.procs[p]} :: 0 <= p < |s.pcs| ==>
        s.inside[p] == {} && s.procs[p].parent == -1 && s.procs[p].chan == NoChan)
    && (forall p {:trigger s.pcs[p]} {:trigger s.procs[p]} :: 0 < p < |s.pcs| ==>
        s.pcs[p].Gone? && s.procs[p].state.Unused?)
  }

  lemma InitHasInv(s: State)
    requires Init(s)
    ensures Inv(s)
  {}

  ghost predicate IsRun(states: seq<State>, actions: seq<Action>) {
    && |states| == |actions| + 1 && Init(states[0])
    && forall i {:trigger actions[i]} :: 0 <= i < |actions| ==> Next(states[i], actions[i], states[i + 1])
  }

  /** In every run, of any number of processes and sleep locks, at every moment: at most one process is inside a
  sleep lock; nobody sleeps on a sleep lock that is free unless its releaser is about to wake them;
  every process has a living parent; and nobody sleeps in wait with an exited child or after being
  killed. */
  lemma {:induction false} RunIsSafe(states: seq<State>, actions: seq<Action>, i: nat)
    requires IsRun(states, actions) && i < |states|
    ensures Inv(states[i])
  {
    if i == 0 {
      InitHasInv(states[0]);
    } else {
      RunIsSafe(states, actions, i - 1);
      var s, a, t := states[i - 1], actions[i - 1], states[i];
      assert Next(s, a, t);
      NextKeepsBase(s, a, t);
      NextKeepsMutex(s, a, t);
      NextKeepsNoLost(s, a, t);
      NextKeepsFamily(s, a, t);
    }
  }

  /** For a process asleep in acquiresleep there is one that will wake it: one inside the lock, or one that
  has just left it and not yet called wakeup1. */
  lemma SleeperHasWaker(states: seq<State>, actions: seq<Action>, i: nat, p: nat, l: nat)
    requires IsRun(states, actions) && i < |states|
    requires p < |states[i].pcs| == |states[i].procs| && states[i].pcs[p] == Asleep(l)
    requires states[i].procs[p].state.Sleeping?
    ensures var s := states[i];
            exists q :: 0 <= q < |s.inside| && q < |s.pcs|
              && (l in s.inside[q] || s.pcs[q] == Wakeup1(l) || s.pcs[q] == Wakeup2(l))
  {
    RunIsSafe(states, actions, i);
    var s := states[i];
    assert LockInRange(s.pcs[p], |s.lk|) && Waits(s, p, l);
    if s.locked[l] {
      var q :| 0 <= q < |s.inside| && l in s.inside[q];
      assert q < |s.pcs|;
    } else {
      var q := s.lk[l];
      assert 0 <= q < |s.inside|;
    }
  }
}
