/** Transactions one after another as operations of LogProtocol, with crashes between any two disk writes.

A client keeps a value on the home blocks of the disk.  Each of its transactions names the blocks it will log, and
turns the value into the next one by what it stores there.  At every moment recovery would leave a value that results
from the transactions that have ended: from all of them, or, until the commit has written the header, from all but the
last one. */
module Transactions {
  import opened Blocks
  import opened RedoLog
  import opened LogProtocol

  /** holds(d, v): home blocks d hold value v; what a reader sees of a value is look(v), and play(c, op) is what
  operation op makes of that. */
  datatype Client<!V(!new), !O, !C> = Client(holds: (Disk, V) -> bool, look: V -> C, play: (C, O) -> C)

  ghost predicate SameHome(g: Geometry, d: Disk, e: Disk) {
    |d| == |e| && forall b {:trigger IsHome(g, b)} :: 0 <= b < |d| && IsHome(g, b) ==> d[b] == e[b]
  }

  /** The client does not look at the log. */
  ghost predicate AtHome<V(!new), O, C>(g: Geometry, c: Client<V, O, C>) {
    forall d, e, v {:trigger SameHome(g, d, e), c.holds(d, v)} :: SameHome(g, d, e) && c.holds(d, v) ==> c.holds(e, v)
  }

  function Play<O, C>(play: (C, O) -> C, c: C, ops: seq<O>): C {
    if ops == [] then c else play(Play(play, c, ops[..|ops| - 1]), ops[|ops| - 1])
  }

  // ---- the machine ----

  datatype Goal<V, O> = Idle | Writing(op: O, next: V, target: Disk, logged: set<nat>)

  /** v: the value between transactions; kept: the one a crash would leave; done, safe: the operations they result
  from. */
  datatype TxState<V, O> = TxState(s: State, v: V, done: seq<O>, kept: V, safe: seq<O>, goal: Goal<V, O>)

  datatype Move<V, O> =
    | BeginOp(op: O, next: V, target: Disk, logged: set<nat>)
    | Log(b: nat, x: Block)
    | EndOp
    | Other(a: Action)

  /** Outside the blocks to be logged, the home blocks are as the transaction wants them. */
  ghost predicate TargetOutside(g: Geometry, view: Disk, target: Disk, logged: set<nat>) {
    && |view| == |target|
    && forall b {:trigger IsHome(g, b)} :: 0 <= b < |view| && IsHome(g, b) && b !in logged ==> view[b] == target[b]
  }

  /** The step after which a crash leaves what is in memory: the header write of a commit, or the end of a commit of
  nothing. */
  ghost predicate Persists(s: State, a: Action) {
    || (a.CommitDiskWrite? && s.phase.Committing? && s.phase.done == |s.lh|)
    || (a.CommitDone? && s.lh == [])
  }

  ghost predicate Turns<V(!new), O, C>(c: Client<V, O, C>, v: V, op: O, next: V) {
    c.look(next) == c.play(c.look(v), op)
  }

  ghost predicate TxNext<V(!new), O, C>(g: Geometry, c: Client<V, O, C>, j: TxState<V, O>, a: Move<V, O>,
                                        k: TxState<V, O>)
  {
    match a
    case BeginOp(op, next, target, logged) =>
      && j.goal.Idle? && j.s.ops == [] && |logged| <= MAXOPBLOCKS && TargetOutside(g, j.s.view, target, logged)
      && c.holds(target, next) && Turns(c, j.v, op, next)
      && Next(g, MAXOPBLOCKS, j.s, Begin, k.s) && k == j.(s := k.s, goal := Writing(op, next, target, logged))
    case Log(b, x) =>
      && j.goal.Writing? && b in j.goal.logged && Next(g, MAXOPBLOCKS, j.s, LogWrite(0, b, x), k.s)
      && k == j.(s := k.s)
    case EndOp =>
      && j.goal.Writing? && SameHome(g, j.goal.target, j.s.view) && Next(g, MAXOPBLOCKS, j.s, End(0), k.s)
      && k == j.(s := k.s, v := j.goal.next, done := j.done + [j.goal.op], goal := Idle)
    case Other(Crash) =>
      Next(g, MAXOPBLOCKS, j.s, Crash, k.s) && k == TxState(k.s, j.kept, j.safe, j.kept, j.safe, Idle)
    case Other(b) =>
      && (b.CommitDiskWrite? || b.CommitDone? || b.RecoverDiskWrite? || b.RecoverDone?)
      && Next(g, MAXOPBLOCKS, j.s, b, k.s)
      && k == if Persists(j.s, b) then j.(s := k.s, kept := j.v, safe := j.done) else j.(s := k.s)
  }

  /** Recovery of disk d leaves v. */
  ghost predicate Leaves<V(!new), O, C>(g: Geometry, c: Client<V, O, C>, d: Disk, v: V) {
    Recoverable(g, d) && c.holds(Recover(g, d), v)
  }

  ghost predicate TxInit<V(!new), O, C>(g: Geometry, c: Client<V, O, C>, j: TxState<V, O>) {
    && Init(g, j.s) && j.goal.Idle? && j.done == j.safe == [] && j.v == j.kept && Leaves(g, c, j.s.disk, j.kept)
  }

  /** A disk with an empty log, as it is after mkfs. */
  lemma EmptyLog(g: Geometry, d: Disk)
    requires Fits(g, d) && d[g.start] == ZeroBlock()
    ensures Recoverable(g, d) && Pending(g, d) == []
  {
    WordOfZero(0);
  }

  /** A boot from such a disk starts a run. */
  lemma BootStarts<V(!new), O, C>(g: Geometry, c: Client<V, O, C>, d: Disk, v: V)
    requires AtHome(g, c) && Fits(g, d) && d[g.start] == ZeroBlock() && c.holds(d, v)
    ensures TxInit(g, c, TxState(State(d, d, [], [], Recovering(d, 0)), v, [], v, [], Idle)) == true
  {
    EmptyLog(g, d);
    RecoverResult(g, d);
    assert SameHome(g, d, Recover(g, d));
  }

  // ---- what every step keeps ----

  ghost predicate TxInv<V(!new), O, C>(g: Geometry, c: Client<V, O, C>, j: TxState<V, O>) {
    && LogProtocol.Inv(g, MAXOPBLOCKS, j.s) && Leaves(g, c, j.s.disk, j.kept)
    && match j.goal
       case Idle =>
         && j.s.ops == []
         && (j.s.phase.Committing? ==> c.holds(j.s.view, j.v))
         && (!j.s.phase.Committing? || (j.s.lh != [] && j.s.phase.done > |j.s.lh|) ==>
               j.v == j.kept && j.done == j.safe)
       case Writing(op, next, target, logged) =>
         && j.v == j.kept && j.done == j.safe && InWrite(g, j.s, target, logged)
         && c.holds(target, next) && Turns(c, j.v, op, next)
  }

  /** One operation is in progress, with all that is in the log, and within its budget. */
  ghost predicate InWrite(g: Geometry, s: State, target: Disk, logged: set<nat>) {
    && |s.ops| == 1 && s.ops[0] <= logged && (forall b :: b in s.lh ==> b in s.ops[0]) && |logged| <= MAXOPBLOCKS
    && TargetOutside(g, s.view, target, logged)
  }

  /** A disk whose durable contents are those of view holds what view holds. */
  lemma LeavesView<V(!new), O, C>(g: Geometry, c: Client<V, O, C>, d: Disk, view: Disk, v: V)
    requires AtHome(g, c) && Recoverable(g, d) && c.holds(view, v) && |view| == |d|
    requires forall b {:trigger IsHome(g, b)} :: 0 <= b < |d| && IsHome(g, b) ==> Durable(g, d, b) == view[b]
    ensures Leaves(g, c, d, v)
  {
    RecoverResult(g, d);
    assert SameHome(g, view, Recover(g, d));
  }

  /** A disk write that keeps all durable contents keeps what recovery leaves. */
  lemma LeavesSame<V(!new), O, C>(g: Geometry, c: Client<V, O, C>, d: Disk, e: Disk, view: Disk, v: V)
    requires AtHome(g, c) && Leaves(g, c, d, v) && DurableStep(g, d, e, view, false)
    ensures Leaves(g, c, e, v)
  {
    RecoverResult(g, d);
    RecoverResult(g, e);
    assert SameHome(g, Recover(g, d), Recover(g, e));
  }

  /** With an empty log, what is in memory is what is on disk. */
  lemma ViewHolds<V(!new), O, C>(g: Geometry, c: Client<V, O, C>, d: Disk, view: Disk, v: V)
    requires AtHome(g, c) && Leaves(g, c, d, v) && Pending(g, d) == [] && CleanOutside(g, view, d, [])
    ensures c.holds(view, v)
  {
    RecoverResult(g, d);
    assert SameHome(g, Recover(g, d), view);
  }

  // ---- one step ----

  lemma BeginKeeps<V(!new), O, C>(g: Geometry, c: Client<V, O, C>, j: TxState<V, O>, a: Move<V, O>, k: TxState<V, O>)
    requires TxInv(g, c, j) && a.BeginOp? && TxNext(g, c, j, a, k)
    ensures TxInv(g, c, k)
  {
    NextKeepsInv(g, MAXOPBLOCKS, j.s, Begin, k.s);
  }

  lemma InWriteNext(g: Geometry, s: State, target: Disk, logged: set<nat>, b: nat, x: Block)
    requires InWrite(g, s, target, logged) && b in logged && b < |s.view|
    ensures InWrite(g, AfterLogWrite(s, 0, b, x), target, logged) == true
  {}

  lemma LogKeeps<V(!new), O, C>(g: Geometry, c: Client<V, O, C>, j: TxState<V, O>, a: Move<V, O>, k: TxState<V, O>)
    requires TxInv(g, c, j) && a.Log? && TxNext(g, c, j, a, k)
    ensures TxInv(g, c, k)
  {
    NextKeepsInv(g, MAXOPBLOCKS, j.s, LogWrite(0, a.b, a.x), k.s);
    InWriteNext(g, j.s, j.goal.target, j.goal.logged, a.b, a.x);
  }

  lemma EndKeeps<V(!new), O, C>(g: Geometry, c: Client<V, O, C>, j: TxState<V, O>, k: TxState<V, O>)
    requires AtHome(g, c) && TxInv(g, c, j) && TxNext(g, c, j, EndOp, k)
    ensures TxInv(g, c, k)
  {
    NextKeepsInv(g, MAXOPBLOCKS, j.s, End(0), k.s);
  }

  lemma CommitWriteKeeps<V(!new), O, C>(g: Geometry, c: Client<V, O, C>, j: TxState<V, O>, k: TxState<V, O>)
    requires AtHome(g, c) && TxInv(g, c, j) && TxNext(g, c, j, Other(CommitDiskWrite), k)
    ensures TxInv(g, c, k)
  {
    NextKeepsInv(g, MAXOPBLOCKS, j.s, CommitDiskWrite, k.s);
    CommitWriteDurable(g, j.s, k.s);
    if j.s.phase.done == |j.s.lh| {
      LeavesView(g, c, k.s.disk, j.s.view, j.v);
    } else {
      LeavesSame(g, c, j.s.disk, k.s.disk, j.s.view, j.kept);
    }
  }

  lemma CommitDoneKeeps<V(!new), O, C>(g: Geometry, c: Client<V, O, C>, j: TxState<V, O>, k: TxState<V, O>)
    requires AtHome(g, c) && TxInv(g, c, j) && TxNext(g, c, j, Other(CommitDone), k)
    ensures TxInv(g, c, k)
  {
    NextKeepsInv(g, MAXOPBLOCKS, j.s, CommitDone, k.s);
    if j.s.lh == [] {
      LeavesView(g, c, j.s.disk, j.s.view, j.v);
    }
  }

  lemma CrashKeeps<V(!new), O, C>(g: Geometry, c: Client<V, O, C>, j: TxState<V, O>, k: TxState<V, O>)
    requires TxInv(g, c, j) && TxNext(g, c, j, Other(Crash), k)
    ensures TxInv(g, c, k)
  {
    NextKeepsInv(g, MAXOPBLOCKS, j.s, Crash, k.s);
  }

  lemma RecoveryKeeps<V(!new), O, C>(g: Geometry, c: Client<V, O, C>, j: TxState<V, O>, a: Action, k: TxState<V, O>)
    requires AtHome(g, c) && TxInv(g, c, j) && (a.RecoverDiskWrite? || a.RecoverDone?) && TxNext(g, c, j, Other(a), k)
    ensures TxInv(g, c, k)
  {
    NextKeepsInv(g, MAXOPBLOCKS, j.s, a, k.s);
    if a.RecoverDiskWrite? {
      RecoverWriteDurables(g, j.s, k.s);
      LeavesSame(g, c, j.s.disk, k.s.disk, j.s.view, j.kept);
    }
  }

  lemma TxNextKeeps<V(!new), O, C>(g: Geometry, c: Client<V, O, C>, j: TxState<V, O>, a: Move<V, O>, k: TxState<V, O>)
    requires AtHome(g, c) && TxInv(g, c, j) && TxNext(g, c, j, a, k)
    ensures TxInv(g, c, k)
  {
    match a
    case BeginOp(_, _, _, _) => BeginKeeps(g, c, j, a, k);
    case Log(_, _) => LogKeeps(g, c, j, a, k);
    case EndOp => EndKeeps(g, c, j, k);
    case Other(CommitDiskWrite) => CommitWriteKeeps(g, c, j, k);
    case Other(CommitDone) => CommitDoneKeeps(g, c, j, k);
    case Other(Crash) => CrashKeeps(g, c, j, k);
    case Other(b) => RecoveryKeeps(g, c, j, b, k);
  }

  // ---- a transaction can always be completed ----

  /** When the log is idle, the home blocks in memory hold the value. */
  lemma RunningHolds<V(!new), O, C>(g: Geometry, c: Client<V, O, C>, j: TxState<V, O>)
    requires AtHome(g, c) && TxInv(g, c, j) && j.goal.Idle? && j.s.phase.Running?
    ensures c.holds(j.s.view, j.v) && |j.s.view| == |j.s.disk|
  {
    ViewHolds(g, c, j.s.disk, j.s.view, j.v);
  }

  lemma CanBegin<V(!new), O, C>(g: Geometry, c: Client<V, O, C>, j: TxState<V, O>, op: O, next: V, target: Disk,
                                logged: set<nat>)
    requires TxInv(g, c, j) && j.goal.Idle? && j.s.phase.Running? && |logged| <= MAXOPBLOCKS
    requires TargetOutside(g, j.s.view, target, logged) && c.holds(target, next) && Turns(c, j.v, op, next)
    ensures TxNext(g, c, j, BeginOp(op, next, target, logged),
                   j.(s := j.s.(ops := [{}]), goal := Writing(op, next, target, logged))) == true
  {}

  /** The home blocks that still have to be logged. */
  ghost function Missing(g: Geometry, view: Disk, target: Disk): set<nat>
    requires |view| == |target|
  {
    set b: nat | b < |view| && IsHome(g, b) && view[b] != target[b]
  }

  lemma SubsetSize(s: set<nat>, t: set<nat>)
    requires s <= t
    ensures |s| <= |t|
  {
    assert t == s + (t - s);
  }

  lemma LogRoom(g: Geometry, s: State, target: Disk, logged: set<nat>, b: nat)
    requires InWrite(g, s, target, logged) == true && Distinct(s.lh) && b in logged
    ensures |s.ops| == 1 && |s.lh| <= MAXOPBLOCKS && |s.ops[0] + {b}| <= MAXOPBLOCKS
  {
    DistinctSize(s.lh, s.ops[0]);
    SubsetSize(s.ops[0], logged);
    SubsetSize(s.ops[0] + {b}, logged);
  }

  lemma LogAdmits(g: Geometry, s: State, b: nat, x: Block)
    requires |s.ops| == 1 && |s.lh| <= MAXOPBLOCKS < g.size - 1 && |s.ops[0] + {b}| <= MAXOPBLOCKS
    requires |s.view| == |s.disk| && b < |s.disk| && IsHome(g, b)
    ensures Next(g, MAXOPBLOCKS, s, LogWrite(0, b, x), AfterLogWrite(s, 0, b, x)) == true
  {}

  /** The log never refuses a block of a transaction. */
  lemma CanLog<V(!new), O, C>(g: Geometry, c: Client<V, O, C>, j: TxState<V, O>, b: nat, x: Block)
    requires TxInv(g, c, j) && j.goal.Writing? && g.size > MAXOPBLOCKS + 1
    requires b in j.goal.logged && b < |j.s.disk| && IsHome(g, b)
    ensures TxNext(g, c, j, Log(b, x), j.(s := AfterLogWrite(j.s, 0, b, x))) == true
  {
    LogRoom(g, j.s, j.goal.target, j.goal.logged, b);
    LogAdmits(g, j.s, b, x);
  }

  ghost function Ended<V, O>(j: TxState<V, O>): TxState<V, O>
    requires |j.s.ops| > 0 && j.goal.Writing?
  {
    TxState(AfterEnd(j.s, 0), j.goal.next, j.done + [j.goal.op], j.kept, j.safe, Idle)
  }

  lemma CanEnd<V(!new), O, C>(g: Geometry, c: Client<V, O, C>, j: TxState<V, O>)
    requires TxInv(g, c, j) && j.goal.Writing? && Missing(g, j.s.view, j.goal.target) == {}
    ensures TxNext(g, c, j, EndOp, Ended(j))
  {
    forall b {:trigger IsHome(g, b)} | 0 <= b < |j.s.view| && IsHome(g, b)
      ensures j.s.view[b] == j.goal.target[b]
    {
      assert b !in Missing(g, j.s.view, j.goal.target);
    }
  }

  lemma MissingOne(g: Geometry, view: Disk, target: Disk, b: nat)
    requires |view| == |target| && b in Missing(g, view, target)
    ensures Missing(g, view[b := target[b]], target) == Missing(g, view, target) - {b}
  {}

  ghost predicate IsPath<V(!new), O, C>(g: Geometry, c: Client<V, O, C>, states: seq<TxState<V, O>>,
                                        moves: seq<Move<V, O>>)
  {
    && |states| == |moves| + 1
    && forall i :: 0 <= i < |moves| ==> TxNext(g, c, states[i], moves[i], states[i + 1])
  }

  lemma PathFrom<V(!new), O, C>(g: Geometry, c: Client<V, O, C>, j: TxState<V, O>, a: Move<V, O>,
                                states: seq<TxState<V, O>>, moves: seq<Move<V, O>>)
    requires IsPath(g, c, states, moves) && TxNext(g, c, j, a, states[0])
    ensures IsPath(g, c, [j] + states, [a] + moves)
  {
    var ss, ms := [j] + states, [a] + moves;
    forall i | 0 <= i < |ms|
      ensures TxNext(g, c, ss[i], ms[i], ss[i + 1])
    {
      if i > 0 {
        assert ss[i] == states[i - 1] && ms[i] == moves[i - 1] && ss[i + 1] == states[i - 1 + 1];
      }
    }
  }

  /** Whatever it has logged so far, a transaction that has begun can go on and end. */
  lemma {:induction false} Completes<V(!new), O, C>(g: Geometry, c: Client<V, O, C>, j: TxState<V, O>)
    returns (states: seq<TxState<V, O>>, moves: seq<Move<V, O>>)
    requires TxInv(g, c, j) && j.goal.Writing? && g.size > MAXOPBLOCKS + 1
    ensures IsPath(g, c, states, moves) && states[0] == j
    ensures states[|moves|].done == j.done + [j.goal.op] && states[|moves|].v == j.goal.next
    decreases |Missing(g, j.s.view, j.goal.target)|
  {
    var missing := Missing(g, j.s.view, j.goal.target);
    if missing == {} {
      CanEnd(g, c, j);
      states, moves := [j, Ended(j)], [EndOp];
    } else {
      var b :| b in missing;
      var x := j.goal.target[b];
      var k := j.(s := AfterLogWrite(j.s, 0, b, x));
      CanLog(g, c, j, b, x);
      LogKeeps(g, c, j, Log(b, x), k);
      MissingOne(g, j.s.view, j.goal.target, b);
      states, moves := Completes(g, c, k);
      PathFrom(g, c, j, Log(b, x), states, moves);
      states, moves := [j] + states, [Log(b, x)] + moves;
    }
  }

  // ---- runs ----

  ghost predicate IsTxRun<V(!new), O, C>(g: Geometry, c: Client<V, O, C>, states: seq<TxState<V, O>>,
                                         moves: seq<Move<V, O>>)
  {
    IsPath(g, c, states, moves) && TxInit(g, c, states[0])
  }

  /** Both values are what their operations make of z; the last operation may not be safe yet. */
  ghost predicate History<V(!new), O, C>(c: Client<V, O, C>, z: C, j: TxState<V, O>) {
    && c.look(j.v) == Play(c.play, z, j.done) && c.look(j.kept) == Play(c.play, z, j.safe)
    && (j.done == j.safe || (|j.done| == |j.safe| + 1 && j.safe <= j.done))
  }

  lemma PlayMore<O, C>(play: (C, O) -> C, c: C, ops: seq<O>, op: O)
    ensures Play(play, c, ops + [op]) == play(Play(play, c, ops), op)
  {
    assert (ops + [op])[..|ops|] == ops;
  }

  lemma HistoryNext<V(!new), O, C>(g: Geometry, c: Client<V, O, C>, z: C, j: TxState<V, O>, a: Move<V, O>,
                                   k: TxState<V, O>)
    requires TxInv(g, c, j) && TxNext(g, c, j, a, k) && History(c, z, j)
    ensures History(c, z, k) && j.safe <= k.safe
  {
    if a.EndOp? {
      PlayMore(c.play, z, j.done, j.goal.op);
    }
  }

  lemma RunStarts<V(!new), O, C>(g: Geometry, c: Client<V, O, C>, j: TxState<V, O>)
    requires TxInit(g, c, j) == true
    ensures TxInv(g, c, j) == true && History(c, c.look(j.v), j) == true
  {
    InitHasInv(g, MAXOPBLOCKS, j.s);
  }

  lemma RunNext<V(!new), O, C>(g: Geometry, c: Client<V, O, C>, z: C, j: TxState<V, O>, a: Move<V, O>,
                               k: TxState<V, O>)
    requires AtHome(g, c) == true && TxInv(g, c, j) == true && TxNext(g, c, j, a, k) == true && History(c, z, j) == true
    ensures TxInv(g, c, k) == true && History(c, z, k) == true
  {
    TxNextKeeps(g, c, j, a, k);
    HistoryNext(g, c, z, j, a, k);
  }

  lemma {:induction false} RunHistory<V(!new), O, C>(g: Geometry, c: Client<V, O, C>, states: seq<TxState<V, O>>,
                                                     moves: seq<Move<V, O>>, n: nat)
    requires AtHome(g, c) == true && IsTxRun(g, c, states, moves) && n < |states|
    ensures TxInv(g, c, states[n]) == true && History(c, c.look(states[0].v), states[n]) == true
  {
    if n == 0 {
      RunStarts(g, c, states[0]);
    } else {
      RunHistory(g, c, states, moves, n - 1);
      RunNext(g, c, c.look(states[0].v), states[n - 1], moves[n - 1], states[n]);
    }
  }

  /** At every moment of every run a crash and a recovery would leave a value that all the operations that have ended
  make of the first one, or all but the last one; all of them once the commit is over. */
  lemma CrashAtomic<V(!new), O, C>(g: Geometry, c: Client<V, O, C>, states: seq<TxState<V, O>>,
                                   moves: seq<Move<V, O>>, n: nat)
    requires AtHome(g, c) && IsTxRun(g, c, states, moves) && n < |states|
    ensures var j := states[n];
            && Recoverable(g, j.s.disk) && c.holds(Recover(g, j.s.disk), j.kept)
            && c.look(j.kept) == Play(c.play, c.look(states[0].v), j.safe)
            && (j.safe == j.done || (j.s.phase.Committing? && |j.done| == |j.safe| + 1 && j.safe <= j.done))
  {
    RunHistory(g, c, states, moves, n);
  }

  lemma SafeNext<V(!new), O, C>(g: Geometry, c: Client<V, O, C>, states: seq<TxState<V, O>>,
                                moves: seq<Move<V, O>>, n: nat)
    requires AtHome(g, c) && IsTxRun(g, c, states, moves) && n < |moves|
    ensures states[n].safe <= states[n + 1].safe
  {
    RunHistory(g, c, states, moves, n);
    HistoryNext(g, c, c.look(states[0].v), states[n], moves[n], states[n + 1]);
  }

  /** What is safe once stays safe. */
  lemma {:induction false} SafeStays<V(!new), O, C>(g: Geometry, c: Client<V, O, C>, states: seq<TxState<V, O>>,
                                                    moves: seq<Move<V, O>>, m: nat, n: nat)
    requires AtHome(g, c) && IsTxRun(g, c, states, moves) && m <= n < |states|
    ensures states[m].safe <= states[n].safe
  {
    if m < n {
      SafeStays(g, c, states, moves, m, n - 1);
      SafeNext(g, c, states, moves, n - 1);
    }
  }

  /** Between transactions the blocks that bread returns hold what all operations make of the first value. */
  lemma ReadsBack<V(!new), O, C>(g: Geometry, c: Client<V, O, C>, states: seq<TxState<V, O>>,
                                 moves: seq<Move<V, O>>, n: nat)
    requires AtHome(g, c) && IsTxRun(g, c, states, moves) && n < |states|
    requires states[n].goal.Idle? && !states[n].s.phase.Recovering?
    ensures var j := states[n];
            c.holds(j.s.view, j.v) && c.look(j.v) == Play(c.play, c.look(states[0].v), j.done)
  {
    RunHistory(g, c, states, moves, n);
    if states[n].s.phase.Running? {
      RunningHolds(g, c, states[n]);
    }
  }
}
