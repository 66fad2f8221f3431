/** proc.c: the process table, and what exit, wait, kill and wakeup1 do to it while they hold
ptable.lock. */
module ProcTable {

  const INIT := 0             // initproc is the first process

  datatype RunState = Unused | Runnable | Running | Sleeping | Zombie

  /** What a process sleeps on: a sleep lock, or (in wait) itself. */
  datatype Chan = NoChan | OnLock(l: nat) | OnProc(p: int)

  /** struct proc; the parent is a position in the table, -1 for none. */
  datatype Proc = Proc(state: RunState, chan: Chan, parent: int, killed: bool, pid: int)

  // ---- what the operations do ----

  ghost function Wake(p: Proc, chan: Chan): Proc {
    if p.state.Sleeping? && p.chan == chan then p.(state := Runnable) else p
  }

  /** wakeup1. */
  ghost function Woken(t: seq<Proc>, chan: Chan): (r: seq<Proc>)
    ensures |r| == |t| && forall i {:trigger r[i]} :: 0 <= i < |t| ==> r[i] == Wake(t[i], chan)
  {
    seq(|t|, i requires 0 <= i < |t| => Wake(t[i], chan))
  }

  /** Some abandoned child among the first n is a zombie. */
  ghost predicate ZombieLeft(t: seq<Proc>, cur: int, n: nat)
    requires n <= |t|
  {
    exists i :: 0 <= i < n && t[i].parent == cur && t[i].state.Zombie?
  }

  /** The part of exit under the lock, up to the n-th child: the parent is woken; the children go to init,
  and a zombie among them wakes init. */
  ghost function Abandoned(t: seq<Proc>, cur: nat, n: nat): (r: seq<Proc>)
    requires cur < |t| && n <= |t|
    ensures |r| == |t|
  {
    var w := Woken(t, OnProc(t[cur].parent));
    seq(|t|, i requires 0 <= i < |t| =>
      var p := if ZombieLeft(t, cur, n) then Wake(w[i], OnProc(INIT)) else w[i];
      if i < n && t[i].parent == cur then p.(parent := INIT) else p)
  }

  /** Process i sleeps on the channel of the parent of cur, or on that of init, which inherits a zombie from cur. */
  ghost predicate WokenByExit(t: seq<Proc>, cur: nat, i: nat)
    requires cur < |t| && i < |t|
  {
    && t[i].state.Sleeping?
    && (t[i].chan == OnProc(t[cur].parent) || (ZombieLeft(t, cur, |t|) && t[i].chan == OnProc(INIT)))
  }

  ghost function Exited(t: seq<Proc>, cur: nat): (r: seq<Proc>)
    requires cur < |t|
    ensures |r| == |t|
    ensures forall i {:trigger r[i]} :: 0 <= i < |t| ==>
              && r[i].parent == (if t[i].parent == cur then INIT else t[i].parent) && r[i].killed == t[i].killed
              && r[i].chan == t[i].chan && r[i].pid == t[i].pid
              && r[i].state == if i == cur then Zombie else if WokenByExit(t, cur, i) then Runnable else t[i].state
  {
    var r := Abandoned(t, cur, |t|);
    r[cur := r[cur].(state := Zombie)]
  }

  /** i is the first child of cur that has exited. */
  ghost predicate FirstZombie(t: seq<Proc>, cur: int, i: nat) {
    && i < |t| && t[i].parent == cur && t[i].state.Zombie?
    && forall j :: 0 <= j < i ==> !(t[j].parent == cur && t[j].state.Zombie?)
  }

  ghost predicate HasKids(t: seq<Proc>, cur: int) {
    exists i :: 0 <= i < |t| && t[i].parent == cur
  }

  function Reaped(p: Proc): Proc {
    p.(pid := 0, parent := -1, killed := false, state := Unused)
  }

  ghost predicate FirstPid(t: seq<Proc>, pid: int, i: nat) {
    i < |t| && t[i].pid == pid && forall j :: 0 <= j < i ==> t[j].pid != pid
  }

  function Victim(p: Proc): Proc {
    p.(killed := true, state := if p.state.Sleeping? then Runnable else p.state)
  }

  /** What wait comes to in one pass over the table. */
  datatype Outcome = Returned(r: int) | FellAsleep

  /** A child that has exited is reaped, the first in the table; without children, or if killed, there is no
  point in waiting; otherwise the process goes to sleep on itself. */
  ghost predicate WaitResult(t: seq<Proc>, cur: nat, o: Outcome, r: seq<Proc>)
    requires cur < |t|
  {
    if exists i: nat :: FirstZombie(t, cur, i) then
      exists i: nat :: FirstZombie(t, cur, i) && o == Returned(t[i].pid) && r == t[i := Reaped(t[i])]
    else if !HasKids(t, cur) || t[cur].killed then o == Returned(-1) && r == t
    else o == FellAsleep && r == t[cur := t[cur].(chan := OnProc(cur), state := Sleeping)]
  }

  ghost predicate KillResult(t: seq<Proc>, pid: int, r: seq<Proc>) {
    if exists i: nat :: FirstPid(t, pid, i) then exists i: nat :: FirstPid(t, pid, i) && r == t[i := Victim(t[i])]
    else r == t
  }

  class Table {
    const procs: array<Proc>

    constructor (t: seq<Proc>)
      ensures procs[..] == t && fresh(procs)
    {
      procs := new Proc[|t|](i requires 0 <= i < |t| => t[i]);
      new;
      assert procs[..] == t;
    }

    method Wakeup1(chan: Chan)
      modifies procs
      ensures procs[..] == Woken(old(procs[..]), chan)
      ensures forall i :: 0 <= i < procs.Length ==>
                procs[i] == if old(procs[i]).state.Sleeping? && old(procs[i]).chan == chan
                            then old(procs[i]).(state := Runnable) else old(procs[i])
    {
      for i := 0 to procs.Length
        invariant forall j :: 0 <= j < i ==> procs[j] == Wake(old(procs[j]), chan)
        invariant forall j :: i <= j < procs.Length ==> procs[j] == old(procs[j])
      {
        if procs[i].state.Sleeping? && procs[i].chan == chan {
          procs[i] := procs[i].(state := Runnable);
        }
      }
    }

    /** exit of the process at position cur, from taking ptable.lock on; panics for init. */
    method Exit(cur: nat)
      requires cur < procs.Length && cur != INIT
      modifies procs
      ensures procs[..] == Exited(old(procs[..]), cur)
    {
      ghost var t := procs[..];
      Wakeup1(OnProc(procs[cur].parent));
      assert procs[..] == Abandoned(t, cur, 0);
      for i := 0 to procs.Length
        invariant procs[..] == Abandoned(t, cur, i)
      {
        assert procs[..][i] == procs[i];
        if procs[i].parent == cur {
          procs[i] := procs[i].(parent := INIT);
          if procs[i].state.Zombie? {
            Wakeup1(OnProc(INIT));
          }
        }
        assert procs[..] == Abandoned(t, cur, i + 1);
      }
      procs[cur] := procs[cur].(state := Zombie);
    }

    /** One pass of wait over the table, for the process at position cur. */
    method WaitPass(cur: nat) returns (o: Outcome)
      requires cur < procs.Length
      modifies procs
      ensures WaitResult(old(procs[..]), cur, o, procs[..])
      ensures forall i: nat {:trigger FirstZombie(old(procs[..]), cur, i)} :: FirstZombie(old(procs[..]), cur, i) ==>
                && o == Returned(old(procs[i]).pid)
                && procs[i] == Proc(Unused, old(procs[i]).chan, -1, false, 0)
                && forall j {:trigger procs[j]} :: 0 <= j < procs.Length && j != i ==> procs[j] == old(procs[j])
      ensures o == FellAsleep <==>
              && !old(procs[cur]).killed && (exists j :: 0 <= j < procs.Length && old(procs[j]).parent == cur)
              && forall j :: 0 <= j < procs.Length && old(procs[j]).parent == cur ==> !old(procs[j]).state.Zombie?
      ensures o == FellAsleep ==>
                && procs[cur] == old(procs[cur]).(state := Sleeping, chan := OnProc(cur))
                && forall j {:trigger procs[j]} :: 0 <= j < procs.Length && j != cur ==> procs[j] == old(procs[j])
      ensures o.Returned? && (forall i: nat :: !FirstZombie(old(procs[..]), cur, i)) ==>
                o.r == -1 && procs[..] == old(procs[..])
    {
      ghost var t := procs[..];
      var havekids := false;
      for i := 0 to procs.Length
        invariant procs[..] == t && (havekids <==> exists j :: 0 <= j < i && t[j].parent == cur)
        invariant forall j :: 0 <= j < i ==> !(t[j].parent == cur && t[j].state.Zombie?)
      {
        assert t[i] == procs[i];
        if procs[i].parent == cur {
          havekids := true;
          if procs[i].state.Zombie? {
            assert FirstZombie(t, cur, i);
            o := Returned(procs[i].pid);
            procs[i] := Reaped(procs[i]);
            assert procs[..] == t[i := Reaped(t[i])];
            return;
          }
        }
      }
      if !havekids || procs[cur].killed {
        return Returned(-1);
      }
      procs[cur] := procs[cur].(chan := OnProc(cur), state := Sleeping);
      return FellAsleep;
    }

    /** kill: the process with the given pid is marked, and woken if it sleeps. */
    method Kill(pid: int) returns (r: int)
      modifies procs
      ensures KillResult(old(procs[..]), pid, procs[..]) && r in {0, -1}
      ensures r == 0 <==> exists i :: 0 <= i < procs.Length && old(procs[i]).pid == pid
      ensures forall i: nat {:trigger FirstPid(old(procs[..]), pid, i)} :: FirstPid(old(procs[..]), pid, i) ==>
                && procs[i].killed && procs[i].chan == old(procs[i]).chan
                && procs[i].parent == old(procs[i]).parent && procs[i].pid == pid
                && procs[i].state == (if old(procs[i]).state.Sleeping? then Runnable else old(procs[i]).state)
                && forall j {:trigger procs[j]} :: 0 <= j < procs.Length && j != i ==> procs[j] == old(procs[j])
    {
      ghost var t := procs[..];
      for i := 0 to procs.Length
        invariant procs[..] == t && forall j :: 0 <= j < i ==> t[j].pid != pid
      {
        assert t[i] == procs[i];
        if procs[i].pid == pid {
          assert FirstPid(t, pid, i);
          procs[i] := procs[i].(killed := true);
          if procs[i].state.Sleeping? {
            procs[i] := procs[i].(state := Runnable);
          }
          assert procs[..] == t[i := Victim(t[i])];
          return 0;
        }
      }
      return -1;
    }
  }
}
