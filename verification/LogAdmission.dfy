/** Whom begin_op admits: exactly those operations with which the list of logged blocks cannot become longer than
LOGSIZE, when every operation in progress may still log a full MAXOPBLOCKS blocks. */
module LogAdmission {
  import opened Blocks
  import opened RedoLog
  import opened LogProtocol
  import opened LogReservation

  /** log_write of block b by operation op. */
  datatype Entry = Entry(op: nat, b: nat, v: Block)

  /** t is s after the given calls of log_write, with which no operation logs more than MAXOPBLOCKS blocks. */
  ghost predicate Logs(g: Geometry, s: State, es: seq<Entry>, t: State)
    decreases |es|
  {
    if es == [] then t == s
    else
      && MayLog(g, MAXOPBLOCKS, s, es[0].op, es[0].b) && es[0].b < |s.view|
      && Logs(g, AfterLogWrite(s, es[0].op, es[0].b, es[0].v), es[1..], t)
  }

  /** The same log with n operations in progress, each with all its budget left. */
  ghost function Afresh(s: State, n: nat): State {
    s.(ops := FullBudgets(n))
  }

  ghost function FullBudgets(n: nat): seq<set<nat>> {
    seq(n, _ => {})
  }

  /** The list can become too long. */
  ghost predicate CanOverrun(g: Geometry, s: State, n: nat) {
    exists es, t :: Logs(g, Afresh(s, n), es, t) && |t.lh| > LOGSIZE
  }

  // ---- the list grows by no more than the budgets ----

  ghost predicate Logged(s: State) {
    forall i :: 0 <= i < |s.ops| ==> |s.ops[i]| <= MAXOPBLOCKS && forall b :: b in s.ops[i] ==> b in s.lh
  }

  ghost function Reach(s: State): int {
    |s.lh| + Unused(s.ops, MAXOPBLOCKS)
  }

  lemma LogReach(g: Geometry, s: State, op: nat, b: nat, v: Block)
    requires Logged(s) && MayLog(g, MAXOPBLOCKS, s, op, b) && b < |s.view|
    ensures var t := AfterLogWrite(s, op, b, v);
            Logged(t) && Reach(t) <= Reach(s) && (b !in s.lh ==> Reach(t) == Reach(s))
  {
    UnusedUpdate(s.ops, op, s.ops[op] + {b}, MAXOPBLOCKS);
    if b in s.ops[op] {
      assert s.ops[op] + {b} == s.ops[op];
    }
  }

  lemma {:induction false} LogsReach(g: Geometry, s: State, es: seq<Entry>, t: State)
    requires Logged(s) && Logs(g, s, es, t)
    ensures |t.lh| <= Reach(s)
    decreases |es|
  {
    if es == [] {
      UnusedBounds(s.ops, MAXOPBLOCKS);
    } else {
      LogReach(g, s, es[0].op, es[0].b, es[0].v);
      LogsReach(g, AfterLogWrite(s, es[0].op, es[0].b, es[0].v), es[1..], t);
    }
  }

  lemma {:induction false} UnusedAfresh(n: nat)
    ensures Unused(FullBudgets(n), MAXOPBLOCKS) == n * MAXOPBLOCKS
  {
    if n > 0 {
      UnusedAfresh(n - 1);
      assert FullBudgets(n)[..n - 1] == FullBudgets(n - 1);
    }
  }

  // ---- and can grow by as much ----

  /** The j-th home block. */
  function HomeAt(g: Geometry, j: nat): nat {
    if j < g.start then j else j + g.size
  }

  ghost function Homes(g: Geometry, n: nat): set<nat> {
    set j: nat | j < n :: HomeAt(g, j)
  }

  lemma {:induction false} HomesSize(g: Geometry, n: nat)
    ensures |Homes(g, n)| == n
  {
    if n > 0 {
      HomesSize(g, n - 1);
      assert Homes(g, n) == Homes(g, n - 1) + {HomeAt(g, n - 1)};
    } else {
      assert Homes(g, n) == {};
    }
  }

  lemma {:induction false} ListSize(xs: seq<nat>, s: set<nat>)
    requires forall b :: b in s ==> b in xs
    ensures |s| <= |xs|
  {
    if xs == [] {
      assert s == {};
    } else {
      var n := |xs| - 1;
      ListSize(xs[..n], s - {xs[n]});
    }
  }

  /** A home block that is not in the list. */
  lemma FreshHome(g: Geometry, d: Disk, lh: seq<nat>) returns (b: nat)
    requires g.start + g.size <= |d| && |lh| + g.size < |d|
    ensures b < |d| && IsHome(g, b) && b !in lh
  {
    var n := |d| - g.size;
    HomesSize(g, n);
    if forall b :: b in Homes(g, n) ==> b in lh {
      ListSize(lh, Homes(g, n));
    }
    b :| b in Homes(g, n) && b !in lh;
  }

  lemma {:induction false} SomeUnused(ops: seq<set<nat>>) returns (i: nat)
    requires Unused(ops, MAXOPBLOCKS) > 0
    ensures i < |ops| && |ops[i]| < MAXOPBLOCKS
  {
    var n := |ops| - 1;
    if |ops[n]| < MAXOPBLOCKS {
      i := n;
    } else {
      i := SomeUnused(ops[..n]);
    }
  }

  lemma {:induction false} LogsBeyond(g: Geometry, s: State) returns (es: seq<Entry>, t: State)
    requires Logged(s) && |s.view| == |s.disk| && g.start + g.size <= |s.disk| && LOGSIZE + g.size < |s.disk|
    requires Reach(s) > LOGSIZE
    ensures Logs(g, s, es, t) && |t.lh| > LOGSIZE
    decreases LOGSIZE - |s.lh|
  {
    if |s.lh| > LOGSIZE {
      es, t := [], s;
    } else {
      var op := SomeUnused(s.ops);
      var b := FreshHome(g, s.disk, s.lh);
      var e := Entry(op, b, ZeroBlock());
      LogReach(g, s, op, b, e.v);
      var rest;
      rest, t := LogsBeyond(g, AfterLogWrite(s, op, b, e.v));
      es := [e] + rest;
      assert es[1..] == rest;
    }
  }

  // ---- admission ----

  /** begin_op admits only if the list then cannot become too long. */
  lemma AdmittedFits(g: Geometry, m: nat, s: State, t: State)
    requires Next(g, m, s, Begin, t)
    ensures !CanOverrun(g, s, |s.ops| + 1)
  {
    var n := |s.ops| + 1;
    UnusedAfresh(n);
    if es, u :| Logs(g, Afresh(s, n), es, u) && |u.lh| > LOGSIZE {
      LogsReach(g, Afresh(s, n), es, u);
    }
  }

  /** In every reachable state in which no commit is running, begin_op admits one more operation if and only if the list
  then cannot become longer than LOGSIZE; on a disk, that is, that has more than LOGSIZE blocks to log. */
  lemma AdmittedIff(g: Geometry, m: nat, s: State)
    requires m <= MAXOPBLOCKS && Reachable(g, m, s) && s.phase.Running? && LOGSIZE + g.size < |s.disk|
    ensures (exists t :: Next(g, m, s, Begin, t)) <==> !CanOverrun(g, s, |s.ops| + 1)
  {
    ReachableHasInv(g, m, s);
    var n := |s.ops| + 1;
    if t :| Next(g, m, s, Begin, t) {
      AdmittedFits(g, m, s, t);
    } else if !CanOverrun(g, s, n) {
      UnusedAfresh(n);
      assert !Next(g, m, s, Begin, s.(ops := s.ops + [{}]));
      var es, u := LogsBeyond(g, Afresh(s, n));
      assert false;
    }
  }

  ghost predicate HomesOnly(g: Geometry, s: State) {
    && |s.view| == |s.disk| && Distinct(s.lh)
    && forall b :: b in s.lh ==> b < |s.disk| && IsHome(g, b)
  }

  lemma {:induction false} LogsHomes(g: Geometry, s: State, es: seq<Entry>, t: State)
    requires HomesOnly(g, s) && Logs(g, s, es, t)
    ensures HomesOnly(g, t) && |t.disk| == |s.disk|
    decreases |es|
  {
    if es != [] {
      LogsHomes(g, AfterLogWrite(s, es[0].op, es[0].b, es[0].v), es[1..], t);
    }
  }

  /** On a smaller disk the list never becomes too long, whomever begin_op admits. */
  lemma SmallDiskFits(g: Geometry, m: nat, s: State, n: nat)
    requires m <= MAXOPBLOCKS && Reachable(g, m, s) && |s.disk| <= LOGSIZE + g.size
    ensures !CanOverrun(g, s, n)
  {
    ReachableHasInv(g, m, s);
    if es, t :| Logs(g, Afresh(s, n), es, t) && |t.lh| > LOGSIZE {
      LogsHomes(g, Afresh(s, n), es, t);
      var k := |s.disk| - g.size;
      HomesSize(g, k);
      forall b | b in t.lh
        ensures b in Homes(g, k)
      {
        assert b == HomeAt(g, if b < g.start then b else b - g.size);
      }
      DistinctSize(t.lh, Homes(g, k));
    }
  }

  /** Three operations can be in progress at a time. */
  lemma ThreeAtOnce(g: Geometry, m: nat) returns (s: State)
    requires SmallGeometry(g)
    ensures Reachable(g, m, s) && |s.ops| == 3 && s.phase.Running?
  {
    s := BootReachable(g, m);
    var t := s.(ops := s.ops + [{}]);
    ReachableNext(g, m, s, Begin, t);
    s := t.(ops := t.ops + [{}]);
    ReachableNext(g, m, t, Begin, s);
  }
}
