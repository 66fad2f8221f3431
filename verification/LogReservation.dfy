/** When the overflow panic of log_write can fire.

begin_op reserves MAXOPBLOCKS per operation against LOGSIZE, but log_write compares the
log's length with both LOGSIZE and the size of the on-disk log before it looks for a block
it could absorb.  So operations that keep to their reservation can still hit the panic;
this module says exactly for which budgets per operation they cannot. */
module LogReservation {
  import opened Blocks
  import opened RedoLog
  import opened LogProtocol

  /** Some run whose operations each log at most m distinct blocks reaches a log_write, also
  within that budget, that panics. */
  ghost predicate CanOverflow(g: Geometry, m: nat) {
    exists s, op, b :: Reachable(g, m, s) && MayLog(g, m, s, op, b) && TooBig(g, s)
  }

  /** In every reachable state: an operation in progress implies that no commit is running,
  so "log.committing" cannot fire; log.lh.n plus all unused budget stays within bounds; and
  a transaction never holds a block twice. */
  lemma ReservationHolds(g: Geometry, m: nat, s: State)
    requires m <= MAXOPBLOCKS && Reachable(g, m, s)
    ensures s.ops != [] ==> !s.phase.Committing?
    ensures s.ops != [] ==> |s.lh| + Unused(s.ops, m) <= MAXOPBLOCKS + 2 * m <= LOGSIZE
    ensures Distinct(s.lh)
  {
    ReachableHasInv(g, m, s);
  }

  /** begin_op never sleeps for nothing: whenever it has to wait, a commit is running, or an operation is in
  progress whose end wakes it or starts a commit; and when the last commit is done, it is admitted. */
  lemma BeginWaits(g: Geometry, m: nat, s: State)
    requires m <= MAXOPBLOCKS && Reachable(g, m, s) && !s.phase.Recovering?
    ensures !Admits(s) ==> s.phase.Committing? || s.ops != []
    ensures forall t :: Next(g, m, s, CommitDone, t) ==> Admits(t)
  {
    ReachableHasInv(g, m, s);
  }

  lemma NoOverflow(g: Geometry, m: nat)
    requires m <= MAXOPBLOCKS && MAXOPBLOCKS + 2 * m < Capacity(g)
    ensures !CanOverflow(g, m)
  {
    forall s, op, b | Reachable(g, m, s) && MayLog(g, m, s, op, b)
      ensures !TooBig(g, s)
    {
      ReachableHasInv(g, m, s);
      UnusedBounds(s.ops, m);
    }
  }

  // ---- a run that fills the log ----

  function Home(g: Geometry, j: nat): nat {
    g.start + g.size + j
  }

  ghost function FirstHomes(g: Geometry, n: nat): (r: seq<nat>)
    ensures |r| == n && forall j :: 0 <= j < n ==> r[j] == Home(g, j)
  {
    seq(n, j requires 0 <= j < n => Home(g, j))
  }

  /** n blocks are logged: the first MAXOPBLOCKS by operations that have ended, the next m by
  the second outstanding operation, the others by the first. */
  ghost predicate Filled(g: Geometry, m: nat, n: nat, s: State) {
    && s.phase.Running? && |s.view| == |s.disk| == Home(g, 40) && s.lh == FirstHomes(g, n)
    && if n <= MAXOPBLOCKS then s.ops == [{}]
       else
         && |s.ops| == 2 && |s.ops[0]| == (if n <= MAXOPBLOCKS + m then 0 else n - MAXOPBLOCKS - m)
         && |s.ops[1]| == (if n <= MAXOPBLOCKS + m then n - MAXOPBLOCKS else m)
         && (forall b {:trigger b in s.ops[0]} :: b in s.ops[0] ==> b < Home(g, n))
         && (forall b {:trigger b in s.ops[1]} :: b in s.ops[1] ==> b < Home(g, n))
         && (n > MAXOPBLOCKS + m ==> Home(g, MAXOPBLOCKS + m) in s.ops[0])
  }

  ghost predicate SmallGeometry(g: Geometry) {
    1 <= g.size && Home(g, 40) <= WORD_LIMIT
  }

  lemma BootReachable(g: Geometry, m: nat) returns (s: State)
    requires SmallGeometry(g)
    ensures Reachable(g, m, s) && Filled(g, m, 0, s)
  {
    var d := seq(Home(g, 40), i => ZeroBlock());
    var s0 := State(d, d, [], [], Recovering(d, 0));
    WordOfZero(0);
    assert Init(g, s0) && Pending(g, d) == [];
    assert IsRun(g, m, [s0], []);
    var w := RecoverWrite(g, d, 0);
    var s1 := s0.(disk := d[w.b := w.v], phase := Recovering(d, 1));
    ReachableNext(g, m, s0, RecoverDiskWrite, s1);
    var s2 := s1.(view := s1.disk, phase := Running);
    ReachableNext(g, m, s1, RecoverDone, s2);
    s := s2.(ops := s2.ops + [{}]);
    ReachableNext(g, m, s2, Begin, s);
  }

  /** Operation op logs the next fresh home block. */
  lemma LogFresh(g: Geometry, m: nat, n: nat, s: State, op: nat) returns (t: State)
    requires SmallGeometry(g) && Reachable(g, m, s)
    requires |s.view| == |s.disk| == Home(g, 40) && n < 40 && s.lh == FirstHomes(g, n) && n < Capacity(g)
    requires op < |s.ops| && |s.ops[op]| < m && Home(g, n) !in s.ops[op]
    ensures Reachable(g, m, t)
    ensures t.lh == FirstHomes(g, n + 1) && |t.view| == |t.disk| == Home(g, 40) && t.phase == s.phase
    ensures t.ops == s.ops[op := s.ops[op] + {Home(g, n)}]
  {
    t := AfterLogWrite(s, op, Home(g, n), ZeroBlock());
    assert Home(g, n) !in s.lh;
    ReachableNext(g, m, s, LogWrite(op, Home(g, n), ZeroBlock()), t);
  }

  /** While at most MAXOPBLOCKS blocks are logged, begin_op admits a second operation; it logs
  one block, and ends unless it is the one that stays. */
  lemma FillByShortOps(g: Geometry, m: nat, n: nat, s: State) returns (t: State)
    requires SmallGeometry(g) && 1 <= m <= MAXOPBLOCKS
    requires Reachable(g, m, s) && Filled(g, m, n, s) && n < Capacity(g) && n <= MAXOPBLOCKS
    ensures Reachable(g, m, t) && Filled(g, m, n + 1, t)
  {
    var u := s.(ops := s.ops + [{}]);
    ReachableNext(g, m, s, Begin, u);
    t := LogFresh(g, m, n, u, 1);
    assert t.ops == [{}, {Home(g, n)}];
    if n < MAXOPBLOCKS {
      var logged := t;
      t := AfterEnd(logged, 1);
      ReachableNext(g, m, logged, End(1), t);
    }
  }

  lemma FillByLongOps(g: Geometry, m: nat, n: nat, s: State) returns (t: State)
    requires SmallGeometry(g) && 1 <= m <= MAXOPBLOCKS && MAXOPBLOCKS < n < MAXOPBLOCKS + 2 * m
    requires Reachable(g, m, s) && Filled(g, m, n, s) && n < Capacity(g)
    ensures Reachable(g, m, t) && Filled(g, m, n + 1, t)
  {
    t := LogFresh(g, m, n, s, if n < MAXOPBLOCKS + m then 1 else 0);
  }

  lemma FillNext(g: Geometry, m: nat, n: nat, before: State) returns (s: State)
    requires SmallGeometry(g) && 1 <= m <= MAXOPBLOCKS && Reachable(g, m, before) && Filled(g, m, n, before)
    requires n < Capacity(g) && n < MAXOPBLOCKS + 2 * m
    ensures Reachable(g, m, s) && Filled(g, m, n + 1, s)
  {
    if n <= MAXOPBLOCKS {
      s := FillByShortOps(g, m, n, before);
    } else {
      s := FillByLongOps(g, m, n, before);
    }
  }

  lemma {:induction false} FillReachable(g: Geometry, m: nat, n: nat) returns (s: State)
    requires SmallGeometry(g) && 1 <= m <= MAXOPBLOCKS
    requires n <= Capacity(g) && n <= MAXOPBLOCKS + 2 * m
    ensures Reachable(g, m, s) && Filled(g, m, n, s)
  {
    if n == 0 {
      s := BootReachable(g, m);
    } else {
      var before := FillReachable(g, m, n - 1);
      s := FillNext(g, m, n - 1, before);
    }
  }

  lemma Overflow(g: Geometry, m: nat)
    requires SmallGeometry(g) && 1 <= m <= MAXOPBLOCKS && Capacity(g) <= MAXOPBLOCKS + 2 * m
    ensures CanOverflow(g, m)
  {
    var n := Capacity(g);
    var s := FillReachable(g, m, n);
    var b := if n == MAXOPBLOCKS + 2 * m then Home(g, MAXOPBLOCKS + m) else Home(g, n);
    if n == MAXOPBLOCKS + 2 * m {
      assert s.ops[0] + {b} == s.ops[0];
    }
    assert Reachable(g, m, s) && MayLog(g, m, s, 0, b) && TooBig(g, s);
  }

  /** Operations that log at most m distinct blocks each can overflow the log if and only if
  its capacity does not exceed MAXOPBLOCKS + 2m.  With the budget MAXOPBLOCKS the kernel
  promises them they can, whatever the size of the log; with 9 blocks they cannot on the
  log of 30 blocks that mkfs lays out. */
  lemma OverflowIffTight(g: Geometry, m: nat)
    requires SmallGeometry(g) && 1 <= m <= MAXOPBLOCKS
    ensures CanOverflow(g, m) <==> Capacity(g) <= MAXOPBLOCKS + 2 * m
  {
    if Capacity(g) <= MAXOPBLOCKS + 2 * m {
      Overflow(g, m);
    } else {
      NoOverflow(g, m);
    }
  }
}
