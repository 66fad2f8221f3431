/** The logging system as a state machine: file-system operations begin, log blocks and end
in any interleaving, the last one to end commits one disk write at a time, and a crash may
strike between any two steps.

Over every run this machine refines an atomic store, whose durable contents change only by
taking over the current contents at a moment when no operation is in progress. */
module LogProtocol {
  import opened Blocks
  import opened RedoLog

  datatype Phase =
    | Running
    | Committing(from: Disk, done: nat)   // log.committing; `done` disk writes since disk `from`
    | Recovering(from: Disk, done: nat)   // recover_from_log at boot

  /** disk: what is on disk; view: what bread returns; lh: log.lh; ops: for each outstanding
  operation the set of blocks it has logged so far. */
  datatype State = State(disk: Disk, view: Disk, lh: seq<nat>, ops: seq<set<nat>>, phase: Phase)

  datatype Action =
    | Begin
    | LogWrite(op: nat, b: nat, v: Block)
    | End(op: nat)
    | CommitDiskWrite
    | CommitDone
    | Crash
    | RecoverDiskWrite
    | RecoverDone

  function Capacity(g: Geometry): int {
    if g.size - 1 < LOGSIZE then g.size - 1 else LOGSIZE
  }

  ghost predicate Init(g: Geometry, s: State) {
    && Recoverable(g, s.disk) && |s.view| == |s.disk|
    && s.lh == [] && s.ops == [] && s.phase == Recovering(s.disk, 0)
  }

  // ---- steps ----

  /** begin_op admits one more operation. */
  ghost predicate Admits(s: State) {
    s.phase.Running? && |s.lh| + (|s.ops| + 1) * MAXOPBLOCKS <= LOGSIZE
  }

  /** Operation op may log block b without exceeding m distinct blocks. */
  ghost predicate MayLog(g: Geometry, m: nat, s: State, op: nat, b: nat) {
    op < |s.ops| && b < |s.disk| && IsHome(g, b) && |s.ops[op] + {b}| <= m
  }

  /** The guard of log_write that panics, "too big a transaction". */
  ghost predicate TooBig(g: Geometry, s: State) {
    |s.lh| >= LOGSIZE || |s.lh| >= g.size - 1
  }

  ghost function AfterLogWrite(s: State, op: nat, b: nat, v: Block): State
    requires op < |s.ops| && b < |s.view|
  {
    s.(view := s.view[b := v],
       lh := if b in s.lh then s.lh else s.lh + [b],
       ops := s.ops[op := s.ops[op] + {b}])
  }

  ghost function AfterEnd(s: State, op: nat): State
    requires op < |s.ops|
  {
    var ops := s.ops[..op] + s.ops[op + 1..];
    s.(ops := ops, phase := if ops == [] then Committing(s.disk, 0) else s.phase)
  }

  ghost predicate Next(g: Geometry, m: nat, s: State, a: Action, t: State) {
    && |s.view| == |s.disk|
    && match a
       case Begin => Admits(s) && t == s.(ops := s.ops + [{}])
       case LogWrite(op, b, v) => MayLog(g, m, s, op, b) && !TooBig(g, s) && t == AfterLogWrite(s, op, b, v)
       case End(op) => op < |s.ops| && !s.phase.Committing? && t == AfterEnd(s, op)
       case CommitDiskWrite =>
         && s.phase.Committing? && ReadyToCommit(g, s.phase.from, s.view, s.lh)
         && s.phase.done < 2 * |s.lh| + 2 && |s.phase.from| == |s.disk|
         && var w := CommitWrite(g, s.phase.from, s.view, s.lh, s.phase.done);
            t == s.(disk := s.disk[w.b := w.v], phase := Committing(s.phase.from, s.phase.done + 1))
       case CommitDone =>
         && s.phase.Committing? && (s.lh == [] || s.phase.done == 2 * |s.lh| + 2)
         && t == s.(lh := [], phase := Running)
       case Crash =>
         && |t.view| == |s.disk|
         && t == State(s.disk, t.view, [], [], Recovering(s.disk, 0))
       case RecoverDiskWrite =>
         && s.phase.Recovering? && Recoverable(g, s.phase.from) && |s.phase.from| == |s.disk|
         && s.phase.done <= |Pending(g, s.phase.from)|
         && var w := RecoverWrite(g, s.phase.from, s.phase.done);
            t == s.(disk := s.disk[w.b := w.v], phase := Recovering(s.phase.from, s.phase.done + 1))
       case RecoverDone =>
         && s.phase.Recovering? && Recoverable(g, s.phase.from)
         && s.phase.done == |Pending(g, s.phase.from)| + 1
         && t == s.(view := s.disk, phase := Running)
  }

  // ---- the invariant ----

  /** What the operations in progress may still add to the log. */
  ghost function Unused(ops: seq<set<nat>>, m: nat): int {
    if ops == [] then 0 else Unused(ops[..|ops| - 1], m) + m - |ops[|ops| - 1]|
  }

  ghost predicate Distinct(xs: seq<nat>) {
    forall i, j :: 0 <= i < j < |xs| ==> xs[i] != xs[j]
  }

  lemma {:induction false} DistinctSize(xs: seq<nat>, s: set<nat>)
    requires Distinct(xs) && forall b :: b in xs ==> b in s
    ensures |xs| <= |s|
  {
    if xs != [] {
      var n := |xs| - 1;
      forall b | b in xs[..n]
        ensures b in s - {xs[n]}
      {
        var i :| 0 <= i < n && xs[i] == b;
        assert xs[i] != xs[n];
      }
      DistinctSize(xs[..n], s - {xs[n]});
    }
  }

  /** The bookkeeping invariant: the reservation of begin_op covers all outstanding work. */
  ghost predicate Reserved(m: nat, s: State) {
    && Distinct(s.lh)
    && (forall i :: 0 <= i < |s.ops| ==> |s.ops[i]| <= m && forall b :: b in s.ops[i] ==> b in s.lh)
    && (s.ops != [] ==> s.phase.Running? && |s.lh| + Unused(s.ops, m) <= MAXOPBLOCKS + 2 * m)
    && (s.ops == [] && !s.phase.Committing? ==> s.lh == [])
  }

  /** Outside the logged blocks the cache agrees with disk. */
  ghost predicate CleanOutside(g: Geometry, view: Disk, d: Disk, lh: seq<nat>) {
    && |view| == |d|
    && forall b {:trigger IsHome(g, b)} :: 0 <= b < |d| && IsHome(g, b) && b !in lh ==> view[b] == d[b]
  }

  /** The disk is a prefix of the write sequence the current phase is working through. */
  ghost predicate OnDisk(g: Geometry, s: State) {
    && |s.view| == |s.disk| && Fits(g, s.disk) && Loggable(g, s.disk, s.lh)
    && match s.phase
       case Running =>
         Recoverable(g, s.disk) && Pending(g, s.disk) == [] && CleanOutside(g, s.view, s.disk, s.lh)
       case Committing(from, done) =>
         && Recoverable(g, from) && Pending(g, from) == [] && CleanOutside(g, s.view, from, s.lh)
         && (if s.lh == [] then s.disk == from
             else done <= 2 * |s.lh| + 2 && InCommit(g, from, s.view, s.lh, done, s.disk))
       case Recovering(from, done) =>
         && Recoverable(g, from) && |from| == |s.disk|
         && done <= |Pending(g, from)| + 1 && InRecovery(g, from, done, s.disk)
  }

  ghost predicate Inv(g: Geometry, m: nat, s: State) {
    Reserved(m, s) && OnDisk(g, s)
  }

  // ---- reservation ----

  lemma {:induction false} UnusedAppend(ops: seq<set<nat>>, x: set<nat>, m: nat)
    ensures Unused(ops + [x], m) == Unused(ops, m) + m - |x|
  {
    assert (ops + [x])[..|ops|] == ops;
  }

  lemma {:induction false} UnusedUpdate(ops: seq<set<nat>>, i: nat, x: set<nat>, m: nat)
    requires i < |ops|
    ensures Unused(ops[i := x], m) == Unused(ops, m) + |ops[i]| - |x|
    decreases |ops|
  {
    var k := |ops| - 1;
    if i < k {
      UnusedUpdate(ops[..k], i, x, m);
      assert ops[i := x][..k] == ops[..k][i := x];
    } else {
      assert ops[i := x][..k] == ops[..k];
    }
  }

  lemma {:induction false} UnusedRemove(ops: seq<set<nat>>, i: nat, m: nat)
    requires i < |ops|
    ensures Unused(ops[..i] + ops[i + 1..], m) == Unused(ops, m) - m + |ops[i]|
    decreases |ops|
  {
    var k := |ops| - 1;
    var rest := ops[..i] + ops[i + 1..];
    if i < k {
      UnusedRemove(ops[..k], i, m);
      assert rest[..|rest| - 1] == ops[..k][..i] + ops[..k][i + 1..];
    } else {
      assert rest == ops[..k];
    }
  }

  lemma {:induction false} UnusedBounds(ops: seq<set<nat>>, m: nat)
    requires forall i :: 0 <= i < |ops| ==> |ops[i]| <= m
    ensures 0 <= Unused(ops, m) <= |ops| * m
  {
    if ops != [] {
      UnusedBounds(ops[..|ops| - 1], m);
    }
  }

  lemma BeginKeepsReserved(m: nat, s: State)
    requires m <= MAXOPBLOCKS && Reserved(m, s) && Admits(s)
    ensures Reserved(m, s.(ops := s.ops + [{}]))
  {
    UnusedAppend(s.ops, {}, m);
    UnusedBounds(s.ops, m);
  }

  lemma LogWriteKeepsReserved(g: Geometry, m: nat, s: State, op: nat, b: nat, v: Block)
    requires Reserved(m, s) && |s.view| == |s.disk| && MayLog(g, m, s, op, b)
    ensures Reserved(m, AfterLogWrite(s, op, b, v))
  {
    var t := AfterLogWrite(s, op, b, v);
    UnusedUpdate(s.ops, op, s.ops[op] + {b}, m);
    if b !in s.lh {
      assert |s.ops[op] + {b}| == |s.ops[op]| + 1;
    } else {
      assert |s.ops[op]| <= |s.ops[op] + {b}| by {
        assert s.ops[op] + {b} == s.ops[op] + ({b} - s.ops[op]);
      }
    }
  }

  lemma EndKeepsReserved(m: nat, s: State, op: nat)
    requires Reserved(m, s) && op < |s.ops|
    ensures Reserved(m, AfterEnd(s, op))
  {
    UnusedRemove(s.ops, op, m);
  }

  lemma NextKeepsReserved(g: Geometry, m: nat, s: State, a: Action, t: State)
    requires m <= MAXOPBLOCKS && Reserved(m, s) && Next(g, m, s, a, t)
    ensures Reserved(m, t)
  {
    match a
    case Begin => BeginKeepsReserved(m, s);
    case LogWrite(op, b, v) => LogWriteKeepsReserved(g, m, s, op, b, v);
    case End(op) => EndKeepsReserved(m, s, op);
    case _ =>
  }

  // ---- disk contents ----

  lemma LogWriteKeepsDisk(g: Geometry, m: nat, s: State, op: nat, b: nat, v: Block)
    requires Reserved(m, s) && OnDisk(g, s) && MayLog(g, m, s, op, b) && !TooBig(g, s)
    ensures OnDisk(g, AfterLogWrite(s, op, b, v))
  {}

  lemma EndKeepsDisk(g: Geometry, m: nat, s: State, op: nat)
    requires Reserved(m, s) && OnDisk(g, s) && op < |s.ops|
    ensures OnDisk(g, AfterEnd(s, op))
  {
    var t := AfterEnd(s, op);
    if t.phase.Committing? && s.lh != [] {
      CommitPrefix(g, s.disk, s.view, s.lh, 0);
      assert CommitWrites(g, s.disk, s.view, s.lh)[..0] == [];
    }
  }

  lemma CommitDoneKeepsDisk(g: Geometry, s: State, t: State)
    requires OnDisk(g, s) && Next(g, 0, s, CommitDone, t)
    ensures OnDisk(g, t)
  {
    if s.lh != [] {
      var from := s.phase.from;
      InCommitPending(g, from, s.view, s.lh, s.phase.done, s.disk);
      forall b: nat | b < |s.disk| && IsHome(g, b)
        ensures s.view[b] == s.disk[b]
      {
        assert s.disk[b] == Committed(from, s.view, s.lh, b);
      }
    }
  }

  lemma CrashKeepsDisk(g: Geometry, s: State)
    requires OnDisk(g, s)
    ensures Recoverable(g, s.disk)
    ensures InRecovery(g, s.disk, 0, s.disk)
  {
    match s.phase
    case Running =>
    case Committing(from, done) =>
      if s.lh != [] {
        InCommitPending(g, from, s.view, s.lh, done, s.disk);
      }
    case Recovering(from, done) =>
      InRecoveryIsRecoverable(g, from, done, s.disk);
  }

  lemma InRecoveryIsRecoverable(g: Geometry, d: Disk, k: nat, c: Disk)
    requires Recoverable(g, d) && k <= |Pending(g, d)| + 1 && InRecovery(g, d, k, c)
    ensures Recoverable(g, c)
    ensures k == |Pending(g, d)| + 1 ==> Pending(g, c) == []
  {
    ClearedHeadIsEmpty(d[g.start]);
  }

  lemma DiskWriteKeepsDisk(g: Geometry, m: nat, s: State, a: Action, t: State)
    requires Inv(g, m, s) && Next(g, m, s, a, t) && (a.CommitDiskWrite? || a.RecoverDiskWrite?)
    ensures OnDisk(g, t)
  {
    if a.CommitDiskWrite? {
      CommitStep(g, s.phase.from, s.view, s.lh, s.phase.done, s.disk);
    } else {
      RecoveryStep(g, s.phase.from, s.phase.done, s.disk);
    }
  }

  /** Every step keeps the invariant. */
  lemma NextKeepsInv(g: Geometry, m: nat, s: State, a: Action, t: State)
    requires m <= MAXOPBLOCKS && Inv(g, m, s) && Next(g, m, s, a, t)
    ensures Inv(g, m, t)
  {
    NextKeepsReserved(g, m, s, a, t);
    match a
    case Begin =>
    case LogWrite(op, b, v) => LogWriteKeepsDisk(g, m, s, op, b, v);
    case End(op) => EndKeepsDisk(g, m, s, op);
    case CommitDone => CommitDoneKeepsDisk(g, s, t);
    case Crash => CrashKeepsDisk(g, s);
    case RecoverDone => InRecoveryIsRecoverable(g, s.phase.from, s.phase.done, s.disk);
    case _ => DiskWriteKeepsDisk(g, m, s, a, t);
  }

  lemma InitHasInv(g: Geometry, m: nat, s: State)
    requires Init(g, s)
    ensures Inv(g, m, s)
  {}

  // ---- runs ----

  ghost predicate IsRun(g: Geometry, m: nat, states: seq<State>, actions: seq<Action>) {
    && |states| == |actions| + 1 && Init(g, states[0])
    && forall i :: 0 <= i < |actions| ==> Next(g, m, states[i], actions[i], states[i + 1])
  }

  lemma {:induction false} RunKeepsInv(g: Geometry, m: nat, states: seq<State>, actions: seq<Action>, k: nat)
    requires m <= MAXOPBLOCKS && IsRun(g, m, states, actions) && k < |states|
    ensures Inv(g, m, states[k])
  {
    if k == 0 {
      InitHasInv(g, m, states[0]);
    } else {
      RunKeepsInv(g, m, states, actions, k - 1);
      NextKeepsInv(g, m, states[k - 1], actions[k - 1], states[k]);
    }
  }

  ghost predicate Reachable(g: Geometry, m: nat, s: State) {
    exists states, actions :: IsRun(g, m, states, actions) && states[|actions|] == s
  }

  lemma ReachableHasInv(g: Geometry, m: nat, s: State)
    requires m <= MAXOPBLOCKS && Reachable(g, m, s)
    ensures Inv(g, m, s)
  {
    var states, actions :| IsRun(g, m, states, actions) && states[|actions|] == s;
    RunKeepsInv(g, m, states, actions, |actions|);
  }

  lemma ReachableNext(g: Geometry, m: nat, s: State, a: Action, t: State)
    requires Reachable(g, m, s) && Next(g, m, s, a, t)
    ensures Reachable(g, m, t)
  {
    var states, actions :| IsRun(g, m, states, actions) && states[|actions|] == s;
    assert IsRun(g, m, states + [t], actions + [a]);
  }

  // ---- refinement of an atomic store ----

  /** The specification: home blocks that survive a crash, home blocks as operations see
  them, and the number of operations in progress. */
  datatype Store = Store(durable: Disk, current: Disk, active: nat)

  datatype StoreAction = Start | Update(b: nat, v: Block) | Finish | Persist | Forget | Stutter

  /** Durable contents change only by Persist, which takes over the current contents as a
  whole and is possible only while no operation is in progress. */
  ghost predicate StoreNext(g: Geometry, x: Store, a: StoreAction, y: Store) {
    match a
    case Start => y == x.(active := x.active + 1)
    case Update(b, v) =>
      x.active > 0 && b < |x.current| && IsHome(g, b) && y == x.(current := x.current[b := v])
    case Finish => x.active > 0 && y == x.(active := x.active - 1)
    case Persist => x.active == 0 && y == x.(durable := x.current)
    case Forget => y == Store(x.durable, x.durable, 0)
    case Stutter => y == x
  }

  /** The abstract step a concrete step amounts to: the write that completes the header is
  the commit point, every other disk write is invisible. */
  ghost function Meaning(s: State, a: Action): StoreAction {
    match a
    case Begin => Start
    case LogWrite(_, b, v) => Update(b, v)
    case End(_) => Finish
    case CommitDiskWrite => if s.phase.Committing? && s.phase.done == |s.lh| then Persist else Stutter
    case Crash => Forget
    case _ => Stutter
  }

  ghost predicate Refines(g: Geometry, s: State, x: Store) {
    && |x.durable| == |x.current| == |s.disk| == |s.view| && Recoverable(g, s.disk)
    && x.active == |s.ops|
    && forall b {:trigger IsHome(g, b)} :: 0 <= b < |s.disk| && IsHome(g, b) ==>
         && x.durable[b] == Durable(g, s.disk, b)
         && x.current[b] == if s.phase.Recovering? then x.durable[b] else s.view[b]
  }

  ghost function StoreAfter(x: Store, a: StoreAction): Store {
    match a
    case Start => x.(active := x.active + 1)
    case Update(b, v) => if b < |x.current| then x.(current := x.current[b := v]) else x
    case Finish => x.(active := if x.active > 0 then x.active - 1 else 0)
    case Persist => x.(durable := x.current)
    case Forget => Store(x.durable, x.durable, 0)
    case Stutter => x
  }

  /** c is the disk after k writes of a commit of the blocks lh of view to the disk from. */
  ghost predicate CommitPoint(g: Geometry, from: Disk, view: Disk, lh: seq<nat>, k: nat, c: Disk) {
    && Fits(g, from) && |view| == |from| && Loggable(g, from, lh) && k <= 2 * |lh| + 2
    && InCommitBody(g, from, view, lh, k, c)
    && Recoverable(g, c) && Pending(g, c) == (if |lh| < k <= 2 * |lh| + 1 then lh else [])
    && CleanOutside(g, view, from, lh)
  }

  lemma CommittingPoint(g: Geometry, s: State)
    requires OnDisk(g, s) && s.phase.Committing? && s.lh != []
    ensures CommitPoint(g, s.phase.from, s.view, s.lh, s.phase.done, s.disk) == true
  {
    InCommitPending(g, s.phase.from, s.view, s.lh, s.phase.done, s.disk);
  }

  /** What a disk write from c to e does to durable contents: nothing, or it makes them those of view. */
  ghost predicate DurableStep(g: Geometry, c: Disk, e: Disk, view: Disk, persists: bool) {
    && |e| == |c| == |view| && Recoverable(g, c) && Recoverable(g, e)
    && forall b {:trigger IsHome(g, b)} :: 0 <= b < |c| && IsHome(g, b) ==>
         Durable(g, e, b) == if persists then view[b] else Durable(g, c, b)
  }

  lemma CommittedIsView(g: Geometry, view: Disk, from: Disk, lh: seq<nat>, b: nat)
    requires |view| == |from| && CleanOutside(g, view, from, lh) && b < |from| && IsHome(g, b) && Loggable(g, from, lh)
    ensures Committed(from, view, lh, b) == view[b]
  {}

  /** The durable contents of home block b after k writes of a commit of n blocks. */
  ghost function DurableAfter(from: Disk, view: Disk, n: nat, k: nat, b: nat): Block
    requires b < |from| == |view|
  {
    if k <= n then from[b] else view[b]
  }

  lemma DurableInCommit(g: Geometry, from: Disk, view: Disk, lh: seq<nat>, k: nat, c: Disk, b: nat)
    requires CommitPoint(g, from, view, lh, k, c) == true && b < |c| && IsHome(g, b)
    ensures |c| == |from| == |view| && Recoverable(g, c)
    ensures Durable(g, c, b) == DurableAfter(from, view, |lh|, k, b)
  {
    InCommitDurable(g, from, view, lh, k, c, b);
    CommittedIsView(g, view, from, lh, b);
  }

  /** All durable contents after k writes of a commit. */
  ghost predicate DurablesAfter(g: Geometry, from: Disk, view: Disk, n: nat, k: nat, c: Disk) {
    && |c| == |from| == |view| && Recoverable(g, c)
    && forall b {:trigger IsHome(g, b)} :: 0 <= b < |c| && IsHome(g, b) ==>
         Durable(g, c, b) == DurableAfter(from, view, n, k, b)
  }

  lemma DurablesInCommit(g: Geometry, from: Disk, view: Disk, lh: seq<nat>, k: nat, c: Disk)
    requires CommitPoint(g, from, view, lh, k, c) == true
    ensures DurablesAfter(g, from, view, |lh|, k, c) == true
  {
    forall b: nat {:trigger IsHome(g, b)} | b < |c| && IsHome(g, b)
      ensures Durable(g, c, b) == DurableAfter(from, view, |lh|, k, b)
    {
      DurableInCommit(g, from, view, lh, k, c, b);
    }
  }

  lemma CommittingDurables(g: Geometry, s: State)
    requires OnDisk(g, s) == true && s.phase.Committing? && s.lh != []
    ensures DurablesAfter(g, s.phase.from, s.view, |s.lh|, s.phase.done, s.disk) == true
  {
    CommittingPoint(g, s);
    DurablesInCommit(g, s.phase.from, s.view, s.lh, s.phase.done, s.disk);
  }

  /** Durable contents across the disk write after the k-th of a commit: they change at the header
  write, and then become the current contents. */
  lemma CommitWriteDurables(g: Geometry, from: Disk, view: Disk, n: nat, k: nat, c: Disk, e: Disk)
    requires DurablesAfter(g, from, view, n, k, c) == true && DurablesAfter(g, from, view, n, k + 1, e) == true
    ensures DurableStep(g, c, e, view, k == n) == true
  {}

  lemma CommitWriteDurable(g: Geometry, s: State, t: State)
    requires OnDisk(g, s) == true && OnDisk(g, t) == true && s.phase.Committing? && s.lh != []
    requires t == s.(disk := t.disk, phase := Committing(s.phase.from, s.phase.done + 1))
    ensures DurableStep(g, s.disk, t.disk, s.view, s.phase.done == |s.lh|) == true
  {
    CommittingDurables(g, s);
    CommittingDurables(g, t);
    CommitWriteDurables(g, s.phase.from, s.view, |s.lh|, s.phase.done, s.disk, t.disk);
  }

  lemma RecoverWriteDurables(g: Geometry, s: State, t: State)
    requires OnDisk(g, s) == true && OnDisk(g, t) == true && s.phase.Recovering?
    requires t == s.(disk := t.disk, phase := Recovering(s.phase.from, s.phase.done + 1))
    ensures DurableStep(g, s.disk, t.disk, s.view, false)
  {
    RecoveringDurables(g, s);
    RecoveringDurables(g, t);
    SameDurablesStep(g, s.phase.from, s.disk, t.disk, s.view);
  }

  /** The durable contents of c are those of d. */
  ghost predicate SameDurables(g: Geometry, d: Disk, c: Disk)
    requires Recoverable(g, d)
  {
    && |c| == |d| && Recoverable(g, c)
    && forall b {:trigger IsHome(g, b)} :: 0 <= b < |c| && IsHome(g, b) ==> Durable(g, c, b) == Durable(g, d, b)
  }

  lemma RecoveringDurables(g: Geometry, s: State)
    requires OnDisk(g, s) == true && s.phase.Recovering?
    ensures Recoverable(g, s.phase.from) && SameDurables(g, s.phase.from, s.disk) == true && |s.view| == |s.disk|
  {
    var from, k := s.phase.from, s.phase.done;
    InRecoveryIsRecoverable(g, from, k, s.disk);
    forall b: nat {:trigger IsHome(g, b)} | b < |s.disk| && IsHome(g, b)
      ensures Durable(g, s.disk, b) == Durable(g, from, b)
    {
      InRecoveryKeepsDurable(g, from, k, s.disk, b);
    }
  }

  lemma SameDurablesStep(g: Geometry, d: Disk, c: Disk, e: Disk, view: Disk)
    requires Recoverable(g, d) && SameDurables(g, d, c) == true && SameDurables(g, d, e) == true && |view| == |c|
    ensures DurableStep(g, c, e, view, false) == true
  {}

  /** A disk write with such an effect refines Persist, or nothing. */
  lemma DiskWriteRefines(g: Geometry, s: State, t: State, x: Store, persists: bool)
    requires Refines(g, s, x) && DurableStep(g, s.disk, t.disk, s.view, persists)
    requires t.view == s.view && t.ops == s.ops && t.phase.Recovering? == s.phase.Recovering?
    requires persists ==> !s.phase.Recovering?
    ensures Refines(g, t, StoreAfter(x, if persists then Persist else Stutter))
  {}

  lemma {:induction false} StepRefines(g: Geometry, m: nat, s: State, a: Action, t: State, x: Store)
    requires m <= MAXOPBLOCKS && Inv(g, m, s) && Next(g, m, s, a, t) && Refines(g, s, x)
    ensures StoreNext(g, x, Meaning(s, a), StoreAfter(x, Meaning(s, a)))
    ensures Refines(g, t, StoreAfter(x, Meaning(s, a)))
  {
    NextKeepsInv(g, m, s, a, t);
    if a.CommitDiskWrite? {
      CommitWriteDurable(g, s, t);
      DiskWriteRefines(g, s, t, x, s.phase.done == |s.lh|);
    } else if a.RecoverDiskWrite? {
      RecoverWriteDurables(g, s, t);
      DiskWriteRefines(g, s, t, x, false);
    } else if a.RecoverDone? {
      InRecoveryIsRecoverable(g, s.phase.from, s.phase.done, s.disk);
    }
  }

  /** The store a state stands for at boot. */
  ghost function Boot(g: Geometry, d: Disk): Store
    requires Recoverable(g, d)
  {
    var homes := seq(|d|, b requires 0 <= b < |d| => Durable(g, d, b));
    Store(homes, homes, 0)
  }

  /** The abstract run that goes with a concrete one. */
  ghost function StoreAt(g: Geometry, states: seq<State>, actions: seq<Action>, k: nat): Store
    requires k <= |actions| < |states| && Recoverable(g, states[0].disk)
  {
    if k == 0 then Boot(g, states[0].disk)
    else StoreAfter(StoreAt(g, states, actions, k - 1), Meaning(states[k - 1], actions[k - 1]))
  }

  lemma {:induction false} RunRefines(g: Geometry, m: nat, states: seq<State>, actions: seq<Action>, k: nat)
    requires m <= MAXOPBLOCKS && IsRun(g, m, states, actions) && k <= |actions|
    ensures Refines(g, states[k], StoreAt(g, states, actions, k))
  {
    if k > 0 {
      RunRefines(g, m, states, actions, k - 1);
      RunKeepsInv(g, m, states, actions, k - 1);
      StepRefines(g, m, states[k - 1], actions[k - 1], states[k], StoreAt(g, states, actions, k - 1));
    }
  }

  /** Refinement: every run of the logging system, with crashes at any point including during
  recovery, is a run of the atomic store. */
  lemma RunRefinesStore(g: Geometry, m: nat, states: seq<State>, actions: seq<Action>, k: nat)
    requires m <= MAXOPBLOCKS && IsRun(g, m, states, actions) && k <= |actions|
    ensures Refines(g, states[k], StoreAt(g, states, actions, k))
    ensures k < |actions| ==>
              StoreNext(g, StoreAt(g, states, actions, k), Meaning(states[k], actions[k]),
                        StoreAt(g, states, actions, k + 1))
  {
    RunRefines(g, m, states, actions, k);
    if k < |actions| {
      RunKeepsInv(g, m, states, actions, k);
      StepRefines(g, m, states[k], actions[k], states[k + 1], StoreAt(g, states, actions, k));
    }
  }

  // ---- a commit from start to end ----

  /** The state once a commit that has just started is through. */
  ghost function CommitEnd(g: Geometry, s: State): State
    requires s.lh != [] ==> ReadyToCommit(g, s.disk, s.view, s.lh)
  {
    s.(disk := if s.lh == [] then s.disk else Apply(s.disk, CommitWrites(g, s.disk, s.view, s.lh)),
       lh := [], phase := Running)
  }

  lemma {:induction false} CommitReaches(g: Geometry, m: nat, s: State, k: nat)
    requires Reachable(g, m, s) && s.phase == Committing(s.disk, 0)
    requires ReadyToCommit(g, s.disk, s.view, s.lh) && k <= 2 * |s.lh| + 2
    ensures Reachable(g, m, s.(disk := Apply(s.disk, CommitWrites(g, s.disk, s.view, s.lh)[..k]),
                               phase := Committing(s.disk, k)))
  {
    var ws := CommitWrites(g, s.disk, s.view, s.lh);
    if k == 0 {
      assert ws[..0] == [];
    } else {
      CommitReaches(g, m, s, k - 1);
      ApplyNext(s.disk, ws, k - 1);
      var before := s.(disk := Apply(s.disk, ws[..k - 1]), phase := Committing(s.disk, k - 1));
      var after := s.(disk := Apply(s.disk, ws[..k]), phase := Committing(s.disk, k));
      CommitNext(g, m, s, k - 1, before, after);
      ReachableNext(g, m, before, CommitDiskWrite, after);
    }
  }

  lemma CommitNext(g: Geometry, m: nat, s: State, k: nat, before: State, after: State)
    requires ReadyToCommit(g, s.disk, s.view, s.lh) && k < 2 * |s.lh| + 2
    requires before.view == s.view && before.lh == s.lh && before.phase == Committing(s.disk, k)
    requires |before.disk| == |s.disk|
    requires var w := CommitWrites(g, s.disk, s.view, s.lh)[k];
             after == before.(disk := before.disk[w.b := w.v], phase := Committing(s.disk, k + 1))
    ensures Next(g, m, before, CommitDiskWrite, after)
  {}

  /** A started commit can run to its end. */
  lemma CommitCompletes(g: Geometry, m: nat, s: State)
    requires Reachable(g, m, s) && s.phase == Committing(s.disk, 0) && |s.view| == |s.disk|
    requires s.lh != [] ==> ReadyToCommit(g, s.disk, s.view, s.lh)
    ensures Reachable(g, m, CommitEnd(g, s))
  {
    if s.lh == [] {
      ReachableNext(g, m, s, CommitDone, CommitEnd(g, s));
    } else {
      var ws := CommitWrites(g, s.disk, s.view, s.lh);
      CommitReaches(g, m, s, |ws|);
      assert ws[..|ws|] == ws;
      ReachableNext(g, m, s.(disk := Apply(s.disk, ws), phase := Committing(s.disk, |ws|)), CommitDone,
                    CommitEnd(g, s));
    }
  }
}
