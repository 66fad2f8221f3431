/** What becomes of a process that outgrows memory, step by step from nothing. */
module Outgrown {
  import opened PageQueue
  import opened Paging
  import opened Growth
  import opened Replacement
  import opened PolicyRuns
  import opened AddressSpace
  import opened Swapping
  import opened Forking

  lemma PagesOfPages(n: nat)
    ensures PagesOf(n * PGSIZE) == n
  {}

  /** A new process that has grown to n pages. */
  method GrowNew(policy: Policy, n: nat) returns (p: Process)
    requires n * PGSIZE < KERNBASE
    ensures fresh(p) && fresh(p.pages) && fresh(p.offsets) && fresh(p.pq) && fresh(p.pq.pages)
    ensures p.policy == policy && p.Valid() && Sized(p.Abs(), n) && Excess(p.Abs()) == 0
    ensures forall va {:trigger va in p.entry} :: va in p.entry <==> Below(va, n) && Below(va, MAX_TOTAL_PAGES)
    ensures Reached(policy, p.Abs())
  {
    p := new Process(policy);
    PagesOfPages(0);
    PagesOfPages(n);
    NothingBelow();
    var r, panic := p.AllocUvm(0, n * PGSIZE);
  }

  lemma NothingBelow()
    ensures forall va {:trigger Below(va, 0)} :: !Below(va, 0)
  {}

  /** Page va is left over from larger times, and swapped out. */
  ghost predicate LeftOut(s: Space, va: nat) {
    va in s.entry && !Below(va, 0) && PagedOut(s, va)
  }

  lemma LeftOver(s: Space, t: Space, n: nat)
    requires Sized(s, n) && Clean(s.entry, n) && n > MAX_PSYC_PAGES && Shrunk(s, t, 0, n)
    ensures SomeLeft(t.entry, 0, n) && exists va :: IsOut(t.ptes, va)
  {
    ShrinkToNothing(s, t, n);
    NothingBelow();
    var va :| va in t.entry && !Below(va, 0);
    assert va in s.entry && Below(va, n) && Between(va, 0, n);
    assert IsOut(t.ptes, va);
  }

  lemma OutIsLeft(t: Space, va: nat)
    requires Covers(t.entry, t.ptes, 0) && IsOut(t.ptes, va)
    ensures LeftOut(t, va) == true
  {
    NothingBelow();
  }

  /** Under either policy: a new process grows to any n pages, more than fit in memory, gives all of them
  back, and is left with records and page table entries of pages it does not have. */
  method GiveBack(policy: Policy, n: nat) returns (p: Process, va: nat)
    requires MAX_PSYC_PAGES < n && n * PGSIZE < KERNBASE
    ensures fresh(p) && fresh(p.pages) && fresh(p.offsets) && fresh(p.pq) && fresh(p.pq.pages)
    ensures p.policy == policy && p.Valid() == true && Sized(p.Abs(), 0) == true && |p.Abs().queue| <= MAX_PSYC_PAGES
    ensures SomeLeft(p.entry, 0, n) == true && LeftOut(p.Abs(), va) == true && Reached(policy, p.Abs()) == true
  {
    p := GrowNew(policy, n);
    PagesOfPages(0);
    PagesOfPages(n);
    ghost var s := p.Abs();
    var r := p.DeallocUvm(n * PGSIZE, 0);
    LeftOver(s, p.Abs(), n);
    assert exists va :: IsOut(p.ptes, va);
    va :| va in p.ptes && !p.ptes[va].present && p.ptes[va].pagedOut;
    OutIsLeft(p.Abs(), va);
  }

  /** When such a process grows to that size again, the kernel panics. */
  method GrowAgain(p: Process, n: nat) returns (panic: bool)
    requires p.Valid() && Sized(p.Abs(), 0) && SomeLeft(p.entry, 0, n) && n * PGSIZE < KERNBASE
    modifies p, p.pages, p.offsets, p.pq, p.pq.pages
    ensures panic
  {
    PagesOfPages(0);
    PagesOfPages(n);
    var r;
    r, panic := p.AllocUvm(0, n * PGSIZE);
  }

  lemma NotFull(policy: Policy, s: Space)
    requires Bounded(s) && QueueFits(policy, s) && |s.queue| <= MAX_PSYC_PAGES
    ensures Excess(s) <= MAX_PSYC_PAGES
  {}

  lemma LeftAligned(s: Space, va: nat)
    requires InPlace(s.entry) && va in s.entry
    ensures PgRoundDown(va) == va
  {
    assert s.entry[va] == PageNo(va);
  }

  lemma FaultInMemory(policy: Policy, s: Space, va: nat, f: nat)
    requires Bounded(s) && QueueFits(policy, s) && PagedOut(s, va) && va in s.entry && f !in s.mem
    ensures var t := FaultBy(policy, s, va, f, false); va in t.entry && !InBack(t, va)
  {
    MayChoose(policy, s);
    FaultKeeps(s, Choose(policy, s), va, f, false);
    PresentOrOut(FaultBy(policy, s, va, f, false), va);
  }

  /** The page fault handler does not look at the size of the process: it brings back a page that is left over. */
  method TouchLeftover(p: Process, va: nat)
    requires p.Valid() && Sized(p.Abs(), 0) && |p.Abs().queue| <= MAX_PSYC_PAGES && LeftOut(p.Abs(), va) == true
    modifies p, p.pages, p.offsets, p.pq, p.pq.pages
    ensures p.Valid() == true && Sized(p.Abs(), 0) == true
    ensures va in p.entry && !InBack(p.Abs(), va) && !Below(va, 0) && !LeftoversOut(p.Abs(), 0)
  {
    ghost var s := p.Abs();
    NotFull(p.policy, s);
    LeftAligned(s, va);
    var frame := p.Kalloc();
    var ok := p.SafePageIn(va, frame, false, 0);
    FaultInMemory(p.policy, s, va, frame);
  }

  /** Then the child of a fork has a record of a page in memory that it does not have. */
  method ForkLeftover(p: Process, va: nat) returns (child: Process)
    requires p.Valid() && Sized(p.Abs(), 0) && va in p.entry && !InBack(p.Abs(), va) && !Below(va, 0)
    modifies p`ptes
    ensures p.Valid() == true && Sized(p.Abs(), 0) == true
    ensures fresh(child) && !child.Valid() && child.pq.Valid() == true
    ensures va in child.entry && !InBack(child.Abs(), va) && va !in child.ptes
  {
    PagesOfPages(0);
    child := Fork(p, 0);
  }

  /** All of this in a row, from nothing, for any number of pages above MAX_PSYC_PAGES. */
  method ForkOutgrown(policy: Policy, n: nat) returns (p: Process, child: Process, va: nat)
    requires MAX_PSYC_PAGES < n && n * PGSIZE < KERNBASE
    ensures p.Valid() == true && Sized(p.Abs(), 0) == true && !child.Valid() && child.pq.Valid() == true
    ensures va in child.entry && !InBack(child.Abs(), va) && va !in child.ptes
  {
    p, va := GiveBack(policy, n);
    TouchLeftover(p, va);
    child := ForkLeftover(p, va);
  }

  /** A new process that grows to 33 pages has a page without a record. */
  method GrowTooLarge(policy: Policy) returns (p: Process)
    ensures p.Valid() && Sized(p.Abs(), MAX_TOTAL_PAGES + 1) && !AllRecorded(p.entry, p.ptes)
  {
    p := GrowNew(policy, MAX_TOTAL_PAGES + 1);
    PageNoOf(MAX_TOTAL_PAGES);
    assert Below(MAX_TOTAL_PAGES * PGSIZE, MAX_TOTAL_PAGES + 1);
  }
}
