/** log_write compares the length of the list with the size of the log before it takes log.lock (log.c:217-218), and
appends to the list after.  Between the two, other operations may append, so a list that passed the test can
outgrow the log, and write_log then goes beyond it.

Here log_write is two steps; everything else is as in LogProtocol.  This module says exactly for which budgets per
operation the list stays within the log, in every run. */
module LogRace {
  import opened Blocks
  import opened RedoLog
  import opened LogProtocol
  import opened LogReservation

  /** Whether an operation is past the test of log_write, and for which block. */
  datatype Stage = Outside | Past(b: nat)

  datatype Race = Race(s: State, stages: seq<Stage>)

  datatype Move =
    | Test(op: nat, b: nat)
    | Append(op: nat, v: Block)
    | Other(a: Action)

  ghost predicate RaceNext(g: Geometry, m: nat, r: Race, a: Move, t: Race) {
    && |r.stages| == |r.s.ops|
    && match a
       case Test(op, b) =>
         && MayLog(g, m, r.s, op, b) && r.stages[op].Outside? && !TooBig(g, r.s)
         && t == r.(stages := r.stages[op := Past(b)])
       case Append(op, v) =>
         && op < |r.s.ops| && r.stages[op].Past? && r.stages[op].b < |r.s.view|
         && t == Race(AfterLogWrite(r.s, op, r.stages[op].b, v), r.stages[op := Outside])
       case Other(Begin) => Next(g, m, r.s, Begin, t.s) && t.stages == r.stages + [Outside]
       case Other(LogWrite(_, _, _)) => false
       case Other(End(op)) =>
         && Next(g, m, r.s, End(op), t.s) && r.stages[op].Outside?
         && t.stages == r.stages[..op] + r.stages[op + 1..]
       case Other(Crash) => Next(g, m, r.s, Crash, t.s) && t.stages == []
       case Other(a) => Next(g, m, r.s, a, t.s) && t.stages == r.stages
  }

  ghost predicate IsRaceRun(g: Geometry, m: nat, races: seq<Race>, moves: seq<Move>) {
    && |races| == |moves| + 1 && Init(g, races[0].s) && races[0].stages == []
    && forall i :: 0 <= i < |moves| ==> RaceNext(g, m, races[i], moves[i], races[i + 1])
  }

  ghost predicate RaceReachable(g: Geometry, m: nat, r: Race) {
    exists races, moves :: IsRaceRun(g, m, races, moves) && races[|moves|] == r
  }

  lemma RaceReachableNext(g: Geometry, m: nat, r: Race, a: Move, t: Race)
    requires RaceReachable(g, m, r) && RaceNext(g, m, r, a, t)
    ensures RaceReachable(g, m, t)
  {
    var races, moves :| IsRaceRun(g, m, races, moves) && races[|moves|] == r;
    assert IsRaceRun(g, m, races + [t], moves + [a]);
  }

  /** In some run, with operations of at most m blocks, the list outgrows the log. */
  ghost predicate CanOutgrow(g: Geometry, m: nat) {
    exists r :: RaceReachable(g, m, r) && |r.s.lh| > Capacity(g)
  }

  // ---- what every step keeps ----

  /** Whoever is past the test stays within its budget. */
  ghost predicate RaceInv(g: Geometry, m: nat, r: Race) {
    && |r.stages| == |r.s.ops| && |r.s.view| == |r.s.disk| && Reserved(m, r.s)
    && |r.s.lh| <= MAXOPBLOCKS + 2 * m && (Capacity(g) <= 0 ==> r.s.lh == [])
    && forall i {:trigger r.stages[i]} :: 0 <= i < |r.stages| && r.stages[i].Past? ==>
         MayLog(g, m, r.s, i, r.stages[i].b) && Capacity(g) > 0
  }

  lemma AppendKeeps(g: Geometry, m: nat, r: Race, op: nat, v: Block, t: Race)
    requires RaceInv(g, m, r) && RaceNext(g, m, r, Append(op, v), t)
    ensures RaceInv(g, m, t)
  {
    LogWriteKeepsReserved(g, m, r.s, op, r.stages[op].b, v);
    UnusedBounds(t.s.ops, m);
  }

  lemma EndKeeps(g: Geometry, m: nat, r: Race, op: nat, t: Race)
    requires m <= MAXOPBLOCKS && RaceInv(g, m, r) && RaceNext(g, m, r, Other(End(op)), t)
    ensures RaceInv(g, m, t)
  {
    EndKeepsReserved(m, r.s, op);
    forall i {:trigger t.stages[i]} | 0 <= i < |t.stages| && t.stages[i].Past?
      ensures MayLog(g, m, t.s, i, t.stages[i].b) && Capacity(g) > 0
    {
      Shifted(r.stages, op, i);
      Shifted(r.s.ops, op, i);
    }
  }

  lemma Shifted<T>(s: seq<T>, k: nat, i: nat)
    requires k < |s| && i < |s| - 1
    ensures (s[..k] + s[k + 1..])[i] == s[if i < k then i else i + 1]
  {}

  lemma RaceKeepsInv(g: Geometry, m: nat, r: Race, a: Move, t: Race)
    requires m <= MAXOPBLOCKS && RaceInv(g, m, r) && RaceNext(g, m, r, a, t)
    ensures RaceInv(g, m, t)
  {
    match a
    case Test(op, b) =>
    case Append(op, v) => AppendKeeps(g, m, r, op, v, t);
    case Other(x) => OtherKeeps(g, m, r, x, t);
  }

  lemma OtherKeeps(g: Geometry, m: nat, r: Race, a: Action, t: Race)
    requires m <= MAXOPBLOCKS && RaceInv(g, m, r) && RaceNext(g, m, r, Other(a), t)
    ensures RaceInv(g, m, t)
  {
    match a
    case End(op) => EndKeeps(g, m, r, op, t);
    case Begin => BeginKeepsReserved(m, r.s);
    case x => NextKeepsReserved(g, m, r.s, x, t.s);
  }

  lemma {:induction false} RaceRunKeepsInv(g: Geometry, m: nat, races: seq<Race>, moves: seq<Move>, k: nat)
    requires m <= MAXOPBLOCKS && IsRaceRun(g, m, races, moves) && k < |races|
    ensures RaceInv(g, m, races[k])
  {
    if k > 0 {
      RaceRunKeepsInv(g, m, races, moves, k - 1);
      RaceKeepsInv(g, m, races[k - 1], moves[k - 1], races[k]);
    }
  }

  lemma RaceReachableHasInv(g: Geometry, m: nat, r: Race)
    requires m <= MAXOPBLOCKS && RaceReachable(g, m, r)
    ensures RaceInv(g, m, r)
  {
    var races, moves :| IsRaceRun(g, m, races, moves) && races[|moves|] == r;
    RaceRunKeepsInv(g, m, races, moves, |moves|);
  }

  /** Where the list cannot outgrow the log, the two steps do no harm: everything that ties memory, disk and header
  together, and with it crash atomicity, holds in every reachable state. */
  lemma RaceIsSafe(g: Geometry, m: nat, races: seq<Race>, moves: seq<Move>, k: nat)
    requires m <= MAXOPBLOCKS && MAXOPBLOCKS + 2 * m <= Capacity(g)
    requires IsRaceRun(g, m, races, moves) && k < |races|
    ensures LogProtocol.Inv(g, m, races[k].s)
  {
    if k == 0 {
      InitHasInv(g, m, races[0].s);
    } else {
      RaceIsSafe(g, m, races, moves, k - 1);
      RaceRunKeepsInv(g, m, races, moves, k - 1);
      RaceStepIsSafe(g, m, races[k - 1], moves[k - 1], races[k]);
    }
  }

  lemma RaceStepIsSafe(g: Geometry, m: nat, r: Race, a: Move, t: Race)
    requires m <= MAXOPBLOCKS && MAXOPBLOCKS + 2 * m <= Capacity(g)
    requires RaceInv(g, m, r) && LogProtocol.Inv(g, m, r.s) && RaceNext(g, m, r, a, t)
    ensures LogProtocol.Inv(g, m, t.s)
  {
    if a.Append? {
      AppendIsSafe(g, m, r, a.op, a.v);
    } else if a.Other? {
      NextKeepsInv(g, m, r.s, a.a, t.s);
    }
  }

  /** A block that is not in the list yet is one its operation has budget for, so there is room for it. */
  lemma AppendIsSafe(g: Geometry, m: nat, r: Race, op: nat, v: Block)
    requires m <= MAXOPBLOCKS && MAXOPBLOCKS + 2 * m <= Capacity(g) && RaceInv(g, m, r) && LogProtocol.Inv(g, m, r.s)
    requires op < |r.stages| && r.stages[op].Past?
    ensures LogProtocol.Inv(g, m, AfterLogWrite(r.s, op, r.stages[op].b, v))
  {
    var b := r.stages[op].b;
    var t := AfterLogWrite(r.s, op, b, v);
    LogWriteKeepsReserved(g, m, r.s, op, b, v);
    UnusedBounds(t.ops, m);
    if b !in r.s.lh {
      LogWriteKeepsDisk(g, m, r.s, op, b, v);
    }
  }

  // ---- a run that outgrows the log ----

  ghost function AllOutside(n: nat): seq<Stage> {
    seq(n, _ => Outside)
  }

  /** Where the test and the append happen at once, nothing is lost. */
  lemma Embeds(g: Geometry, m: nat, s: State, a: Action, t: State)
    requires Next(g, m, s, a, t) && RaceReachable(g, m, Race(s, AllOutside(|s.ops|)))
    ensures RaceReachable(g, m, Race(t, AllOutside(|t.ops|)))
  {
    var r, u := Race(s, AllOutside(|s.ops|)), Race(t, AllOutside(|t.ops|));
    if a.LogWrite? {
      var q := r.(stages := r.stages[a.op := Past(a.b)]);
      RaceReachableNext(g, m, r, Test(a.op, a.b), q);
      assert u.stages == q.stages[a.op := Outside];
      RaceReachableNext(g, m, q, Append(a.op, a.v), u);
    } else {
      assert a.Begin? ==> u.stages == r.stages + [Outside];
      assert a.End? ==> u.stages == r.stages[..a.op] + r.stages[a.op + 1..];
      RaceReachableNext(g, m, r, Other(a), u);
    }
  }

  lemma {:induction false} RunEmbeds(g: Geometry, m: nat, states: seq<State>, actions: seq<Action>, k: nat)
    requires IsRun(g, m, states, actions) && k < |states|
    ensures RaceReachable(g, m, Race(states[k], AllOutside(|states[k].ops|)))
  {
    if k == 0 {
      var r := Race(states[0], []);
      assert AllOutside(0) == [];
      assert IsRaceRun(g, m, [r], []);
    } else {
      RunEmbeds(g, m, states, actions, k - 1);
      Embeds(g, m, states[k - 1], actions[k - 1], states[k]);
    }
  }

  lemma ReachableEmbeds(g: Geometry, m: nat, s: State)
    requires Reachable(g, m, s)
    ensures RaceReachable(g, m, Race(s, AllOutside(|s.ops|)))
  {
    var states, actions :| IsRun(g, m, states, actions) && states[|actions|] == s;
    RunEmbeds(g, m, states, actions, |actions|);
  }

  /** Two operations, the first of which has logged k of the n blocks; the second is past the test. */
  ghost predicate Waiting(g: Geometry, m: nat, n: nat, k: nat, r: Race) {
    && |r.s.view| == |r.s.disk| == Home(g, 40) && r.s.lh == FirstHomes(g, n) && |r.s.ops| == 2
    && |r.s.ops[0]| == k && (forall b {:trigger b in r.s.ops[0]} :: b in r.s.ops[0] ==> b < Home(g, n))
    && r.stages == [Outside, Past(Home(g, 39))]
  }

  lemma FirstLogs(g: Geometry, m: nat, n: nat, k: nat, r: Race) returns (u: Race)
    requires SmallGeometry(g) && RaceReachable(g, m, r) && Waiting(g, m, n, k, r) && n < Capacity(g) && n < 39 && k < m
    ensures RaceReachable(g, m, u) == true && Waiting(g, m, n + 1, k + 1, u) == true
  {
    var b := Home(g, n);
    var q := r.(stages := r.stages[0 := Past(b)]);
    assert b !in r.s.ops[0] && b !in r.s.lh;
    RaceReachableNext(g, m, r, Test(0, b), q);
    u := Race(AfterLogWrite(q.s, 0, b, ZeroBlock()), q.stages[0 := Outside]);
    RaceReachableNext(g, m, q, Append(0, ZeroBlock()), u);
    FirstLogged(g, m, n, k, r, u);
  }

  lemma FirstLogged(g: Geometry, m: nat, n: nat, k: nat, r: Race, u: Race)
    requires Waiting(g, m, n, k, r) && Home(g, n) !in r.s.lh && n < 40 && Home(g, n) !in r.s.ops[0]
    requires u == Race(AfterLogWrite(r.s, 0, Home(g, n), ZeroBlock()), r.stages[0 := Past(Home(g, n))][0 := Outside])
    ensures Waiting(g, m, n + 1, k + 1, u) == true
  {
    assert u.s.lh == FirstHomes(g, n + 1) && u.stages == r.stages;
  }

  lemma {:induction false} FirstFills(g: Geometry, m: nat, n: nat, k: nat, r: Race, cap: nat) returns (t: Race)
    requires SmallGeometry(g) && RaceReachable(g, m, r) == true && Waiting(g, m, n, k, r) == true
    requires n <= cap < 39 && cap <= Capacity(g) && k + cap - n <= m
    ensures RaceReachable(g, m, t) == true && Waiting(g, m, cap, k + cap - n, t) == true
    decreases cap - n
  {
    t := r;
    if n < cap {
      var u := FirstLogs(g, m, n, k, r);
      t := FirstFills(g, m, n + 1, k + 1, u, cap);
    }
  }

  /** A state with n blocks in the list and two operations, the first of which has logged none. */
  lemma TwoOps(g: Geometry, m: nat, n: nat) returns (s: State)
    requires SmallGeometry(g) && 1 <= m <= MAXOPBLOCKS && n <= Capacity(g) && n < MAXOPBLOCKS + m
    ensures Reachable(g, m, s) && |s.view| == |s.disk| == Home(g, 40) && s.lh == FirstHomes(g, n)
    ensures |s.ops| == 2 && s.ops[0] == {} && |s.ops[1]| < m && Home(g, 39) !in s.ops[1]
  {
    s := FillReachable(g, m, n);
    if n <= MAXOPBLOCKS {
      var t := s.(ops := s.ops + [{}]);
      ReachableNext(g, m, s, Begin, t);
      s := t;
    }
  }

  lemma Outgrow(g: Geometry, m: nat)
    requires SmallGeometry(g) && 1 <= m <= MAXOPBLOCKS && 1 <= Capacity(g) < MAXOPBLOCKS + 2 * m
    ensures CanOutgrow(g, m)
  {
    var cap := Capacity(g);
    var n := if cap < MAXOPBLOCKS + m then cap - 1 else MAXOPBLOCKS + m - 1;
    var s := TwoOps(g, m, n);
    var r := Race(s, AllOutside(2));
    ReachableEmbeds(g, m, s);
    var q := r.(stages := r.stages[1 := Past(Home(g, 39))]);
    RaceReachableNext(g, m, r, Test(1, Home(g, 39)), q);
    assert Waiting(g, m, n, 0, q);
    var t := FirstFills(g, m, n, 0, q, cap);
    SecondFollows(g, m, cap - n, t);
  }

  /** The second operation appends its block to a list as long as the log. */
  lemma SecondFollows(g: Geometry, m: nat, k: nat, t: Race)
    requires 0 <= Capacity(g) < 39 && RaceReachable(g, m, t) == true && Waiting(g, m, Capacity(g), k, t)
    ensures CanOutgrow(g, m)
  {
    var u := Race(AfterLogWrite(t.s, 1, Home(g, 39), ZeroBlock()), t.stages[1 := Outside]);
    RaceReachableNext(g, m, t, Append(1, ZeroBlock()), u);
    assert |u.s.lh| == Capacity(g) + 1;
  }

  /** Operations that log at most m distinct blocks each can outgrow the log, past the test of log_write, if and only if
  the log has a block, and fewer than MAXOPBLOCKS + 2m.  With the promised budget MAXOPBLOCKS they can on the log of
  30 blocks that mkfs lays out; with 9 blocks they cannot. */
  lemma OutgrowIff(g: Geometry, m: nat)
    requires SmallGeometry(g) && 1 <= m <= MAXOPBLOCKS
    ensures CanOutgrow(g, m) <==> 1 <= Capacity(g) < MAXOPBLOCKS + 2 * m
  {
    if 1 <= Capacity(g) < MAXOPBLOCKS + 2 * m {
      Outgrow(g, m);
    } else {
      forall r | RaceReachable(g, m, r)
        ensures |r.s.lh| <= Capacity(g)
      {
        RaceReachableHasInv(g, m, r);
      }
    }
  }
}
