/** Runs of a process under one of the two policies: what becomes of the queue, and which pages are
swapped out. */
module PolicyRuns {
  import opened Blocks
  import opened PageQueue
  import opened Paging
  import opened AddressSpace
  import opened Growth
  import opened Replacement
  import opened SwapRuns
  import opened Aging

  /** What holds at every moment of such a run. */
  ghost predicate Kept(p: Policy, s: Space) {
    Bounded(s) && QueueFits(p, s) && InPlace(s.entry) && OnlyHighUnrecorded(s.entry, s.ptes)
  }

  /** The event is one of a process under policy p, which does not panic: the policy makes the choices,
  page i takes record i, pages without a record have none left, and there is room in the queue. */
  ghost predicate Follows(p: Policy, s: Space, e: Event)
    requires Kept(p, s)
  {
    match e
    case Fault(pick, va, _, _) => pick == Choose(p, s) && |RoomBy(p, s).queue| < MAX_TOTAL_PAGES
    case Grow(pick, va, _) => pick == Choose(p, s) && GrowsInPlace(p, s, va)
    case _ => true
  }

  ghost predicate GrowsInPlace(p: Policy, s: Space, va: nat)
    requires Kept(p, s)
  {
    if Below(va, MAX_TOTAL_PAGES) then FreeRecord(s.pages) == PageNo(va) && |RoomBy(p, s).queue| < MAX_TOTAL_PAGES
    else FreeRecord(s.pages) == MAX_TOTAL_PAGES
  }

  ghost predicate IsRunOf(p: Policy, states: seq<Space>, events: seq<Event>) {
    && IsRun(states, events)
    && forall i {:trigger events[i]} :: 0 <= i < |events| ==> Kept(p, states[i]) ==> Follows(p, states[i], events[i])
  }

  // ---- every step keeps the queue ----

  lemma FaultKept(p: Policy, s: Space, e: Event, t: Space)
    requires Kept(p, s) && e.Fault? && Next(s, e, t) && Follows(p, s, e)
    ensures Kept(p, t) && Excess(t) == Excess(s)
  {
    FaultKeeps(s, e.pick, e.va, e.frame, e.accessed);
    FaultQueue(p, s, e.va, e.frame, e.accessed);
  }

  lemma GrowKept(p: Policy, s: Space, e: Event, t: Space)
    requires Kept(p, s) && e.Grow? && Next(s, e, t) && Follows(p, s, e)
    ensures Kept(p, t) && Excess(t) == Excess(s)
  {
    GrowKeeps(s, e.pick, e.va, e.frame);
    GrowQueue(p, s, e.va, e.frame);
    RoomEntry(s, e.pick, e.va, e.frame);
    PlaceNext(s.entry, s.ptes, t.entry, t.ptes, e.va, FreeRecord(s.pages));
  }

  /** Pages without a record have none left. */
  ghost predicate OnlyHighUnrecorded(entry: map<nat, nat>, ptes: map<nat, Pte>) {
    forall va {:trigger va in ptes} :: va in ptes && va !in entry ==> !Below(va, MAX_TOTAL_PAGES)
  }

  lemma PlaceNext(entry: map<nat, nat>, ptes: map<nat, Pte>, entry': map<nat, nat>, ptes': map<nat, Pte>, va: nat,
                  k: nat)
    requires InPlace(entry) && OnlyHighUnrecorded(entry, ptes) && va !in entry
    requires forall vb {:trigger vb in ptes'} {:trigger vb in ptes} :: vb in ptes' <==> vb in ptes || vb == va
    requires if Below(va, MAX_TOTAL_PAGES) then k == PageNo(va) else k == MAX_TOTAL_PAGES
    requires entry' == if k < MAX_TOTAL_PAGES then entry[va := k] else entry
    ensures InPlace(entry') && OnlyHighUnrecorded(entry', ptes')
  {}

  lemma ShrinkKept(p: Policy, s: Space, e: Event, t: Space)
    requires Kept(p, s) && e.Shrink? && Next(s, e, t)
    ensures Kept(p, t) && Excess(s) <= Excess(t) && (p.Scfifo? ==> Excess(t) == 0)
  {
    DropKeeps(s, e.va);
    DropOne(s, e.va);
    DropQueue(p, s, e.va);
  }

  lemma OtherKept(p: Policy, s: Space, e: Event, t: Space)
    requires Kept(p, s) && (e.Touch? || e.Tick? || e.Store? || e.Load?) && Next(s, e, t)
    ensures Kept(p, t) && Excess(t) == Excess(s)
  {
    OtherBounded(s, e, t);
    SameQueue(p, s, t);
  }

  /** The same records but for ages, the same queue and the same pages. */
  ghost predicate SameSpace(s: Space, t: Space) {
    && t.queue == s.queue && t.entry == s.entry && SameButAges(s.pages, t.pages)
    && forall va {:trigger va in t.ptes} {:trigger va in s.ptes} :: va in t.ptes <==> va in s.ptes
  }

  lemma OtherBounded(s: Space, e: Event, t: Space)
    requires Bounded(s) && (e.Touch? || e.Tick? || e.Store? || e.Load?) && Next(s, e, t)
    ensures Bounded(t) == true && SameSpace(s, t) == true
  {
    match e
    case Touch(ptes) =>
      TouchBounded(s, ptes);
      TouchSame(s, ptes);
    case Tick(pages, ptes) =>
      TickBounded(s, pages, ptes);
      TickSame(s, pages, ptes);
    case Store(va, off, b) =>
      StoreKeeps(s, va, off, b);
      MemSame(s, Stored(s, va, off, b).mem);
    case Load(va, off, b) =>
      MemSame(s, s.mem);
  }

  lemma TouchBounded(s: Space, ptes: map<nat, Pte>)
    requires Bounded(s) && SameButAccessed(s.ptes, ptes)
    ensures Bounded(s.(ptes := ptes)) == true
  {
    AccessKeeps(s, ptes);
  }

  lemma TouchSame(s: Space, ptes: map<nat, Pte>)
    requires SameButAccessed(s.ptes, ptes)
    ensures SameSpace(s, s.(ptes := ptes)) == true
  {}

  lemma TickBounded(s: Space, pages: seq<Page>, ptes: map<nat, Pte>)
    requires Bounded(s) && Ticked(s, pages, ptes)
    ensures Bounded(s.(pages := pages, ptes := ptes)) == true
  {
    TickKeeps(s, pages, ptes);
  }

  lemma TickSame(s: Space, pages: seq<Page>, ptes: map<nat, Pte>)
    requires |s.pages| == MAX_TOTAL_PAGES && Ticked(s, pages, ptes)
    ensures SameSpace(s, s.(pages := pages, ptes := ptes)) == true
  {}

  lemma MemSame(s: Space, mem: map<nat, Bytes>)
    ensures SameSpace(s, s.(mem := mem)) == true
  {}

  lemma StepKept(p: Policy, s: Space, e: Event, t: Space)
    requires Kept(p, s) && Next(s, e, t) && Follows(p, s, e)
    ensures Kept(p, t) && Excess(s) <= Excess(t)
    ensures !e.Shrink? || p.Scfifo? ==> Excess(t) == Excess(s)
  {
    match e
    case Fault(_, _, _, _) => FaultKept(p, s, e, t);
    case Grow(_, _, _) => GrowKept(p, s, e, t);
    case Shrink(_) => ShrinkKept(p, s, e, t);
    case _ => OtherKept(p, s, e, t);
  }

  /** In every run under either policy the tables stay in step and the queue is long enough; under
  second-chance FIFO it holds exactly the recorded pages in memory, each once.  It is too long only under
  NFUA, and only after memory has been given back. */
  lemma {:induction false} RunKeepsQueue(p: Policy, states: seq<Space>, events: seq<Event>, i: nat)
    requires IsRunOf(p, states, events) && i <= |events|
    ensures Kept(p, states[i]) && Excess(states[i]) >= 0
    ensures p.Scfifo? ==> QueueOk(states[i]) && Excess(states[i]) == 0
    ensures (forall j :: 0 <= j < i ==> !events[j].Shrink?) ==> Excess(states[i]) == 0
  {
    if i == 0 {
      EmptyKept(p, states[0]);
    } else {
      RunKeepsQueue(p, states, events, i - 1);
      assert Follows(p, states[i - 1], events[i - 1]) && Next(states[i - 1], events[i - 1], states[i]);
      StepKept(p, states[i - 1], events[i - 1], states[i]);
    }
  }

  lemma EmptyKept(p: Policy, s: Space)
    requires IsEmpty(s)
    ensures Kept(p, s) && Excess(s) == 0
  {}

  // ---- the states some run leads to ----

  ghost predicate Reached(p: Policy, s: Space) {
    exists states, events :: IsRunOf(p, states, events) && states[|events|] == s
  }

  /** e is an event of a run that leads from s to t. */
  ghost predicate Leads(p: Policy, s: Space, e: Event, t: Space) {
    (Bounded(s) ==> Next(s, e, t)) && (Kept(p, s) ==> Follows(p, s, e))
  }

  lemma RunLeads(p: Policy, states: seq<Space>, events: seq<Event>)
    requires |states| == |events| + 1
    ensures IsRunOf(p, states, events) <==>
            && IsEmpty(states[0])
            && forall i {:trigger events[i]} :: 0 <= i < |events| ==> Leads(p, states[i], events[i], states[i + 1])
  {}

  lemma RunMore(p: Policy, states: seq<Space>, events: seq<Event>, e: Event, t: Space)
    requires |states| == |events| + 1 && Leads(p, states[|events|], e, t) == true
    requires forall i {:trigger events[i]} :: 0 <= i < |events| ==>
               Leads(p, states[i], events[i], states[i + 1]) == true
    ensures var states', events' := states + [t], events + [e];
            forall i {:trigger events'[i]} :: 0 <= i < |events'| ==>
              Leads(p, states'[i], events'[i], states'[i + 1]) == true
  {
    var states', events' := states + [t], events + [e];
    forall i {:trigger events'[i]} | 0 <= i < |events'|
      ensures Leads(p, states'[i], events'[i], states'[i + 1]) == true
    {
      if i < |events| {
        assert events'[i] == events[i] && states'[i] == states[i] && states'[i + 1] == states[i + 1];
      }
    }
  }

  lemma ReachedKept(p: Policy, s: Space)
    requires Reached(p, s)
    ensures Kept(p, s) == true
  {
    var states, events :| IsRunOf(p, states, events) == true && states[|events|] == s;
    RunKeepsQueue(p, states, events, |events|);
  }

  lemma ReachNext(p: Policy, s: Space, e: Event, t: Space)
    requires Reached(p, s) && Kept(p, s) && Next(s, e, t) && Follows(p, s, e)
    ensures Reached(p, t)
  {
    LeadsOn(p, s, e, t);
    var states, events :| IsRunOf(p, states, events) == true && states[|events|] == s;
    RunNext(p, states, events, s, e, t);
  }

  lemma LeadsOn(p: Policy, s: Space, e: Event, t: Space)
    requires Kept(p, s) && Next(s, e, t) && Follows(p, s, e)
    ensures Leads(p, s, e, t) == true
  {}

  lemma RunNext(p: Policy, states: seq<Space>, events: seq<Event>, s: Space, e: Event, t: Space)
    requires IsRunOf(p, states, events) && states[|events|] == s && Leads(p, s, e, t) == true
    ensures IsRunOf(p, states + [t], events + [e]) == true && (states + [t])[|events + [e]|] == t
    ensures Reached(p, t)
  {
    RunLeads(p, states, events);
    RunMore(p, states, events, e, t);
    RunLeads(p, states + [t], events + [e]);
  }

  lemma EmptyReached(p: Policy, s: Space)
    requires IsEmpty(s)
    ensures Reached(p, s)
  {
    assert IsRunOf(p, [s], []);
  }

  // ---- page faults ----

  /** A page fault on a mapped page that is not present can be served; and there is room in the queue for it if and
  only if the queue is not full, or just full and a page has to leave memory.  There is room while the queue is at
  most MAX_PSYC_PAGES too long. */
  lemma FaultServedIff(p: Policy, s: Space, va: nat, f: nat, accessed: bool)
    requires Kept(p, s) && va in s.ptes && f !in s.mem && !Hit(s, va, 0)
    ensures PagedOut(s, va)
    ensures var e := Fault(Choose(p, s), va, f, accessed);
            Next(s, e, FaultBy(p, s, va, f, accessed)) && Hit(FaultBy(p, s, va, f, accessed), va, 0)
    ensures |RoomBy(p, s).queue| < MAX_TOTAL_PAGES <==>
              || |s.queue| < MAX_TOTAL_PAGES
              || (|s.queue| == MAX_TOTAL_PAGES && CountIn(s.pages) == MAX_PSYC_PAGES)
    ensures Excess(s) <= MAX_PSYC_PAGES ==> |RoomBy(p, s).queue| < MAX_TOTAL_PAGES
  {
    MayChoose(p, s);
    FaultServed(s, Choose(p, s), va, f, accessed);
    RoomQueue(p, s);
    RoomLength(p, s);
  }

  // ---- what the kernel does, as steps of runs ----

  /** If a run leads to s, one leads to t. */
  ghost predicate Onward(p: Policy, s: Space, t: Space) {
    Reached(p, s) ==> Reached(p, t)
  }

  lemma OnwardTrans(p: Policy, s: Space, t: Space, u: Space)
    requires Onward(p, s, t) && Onward(p, t, u)
    ensures Onward(p, s, u) == true
  {}

  lemma FaultOnward(p: Policy, s: Space, va: nat, f: nat, accessed: bool)
    requires Bounded(s) && QueueFits(p, s) && PagedOut(s, va) && f !in s.mem && |RoomBy(p, s).queue| < MAX_TOTAL_PAGES
    ensures Onward(p, s, FaultBy(p, s, va, f, accessed)) == true
  {
    if Reached(p, s) {
      ReachedKept(p, s);
      MayChoose(p, s);
      ReachNext(p, s, Fault(Choose(p, s), va, f, accessed), FaultBy(p, s, va, f, accessed));
    }
  }

  lemma GrowOnward(p: Policy, s: Space, n: nat, f: nat)
    requires Sized(s, n) && QueueFits(p, s) && n * PGSIZE !in s.entry && f !in RoomBy(p, s).mem
    requires n < MAX_TOTAL_PAGES ==> |RoomBy(p, s).queue| < MAX_TOTAL_PAGES
    ensures Onward(p, s, MapPage(RoomBy(p, s), n * PGSIZE, f)) == true
  {
    if Reached(p, s) {
      ReachedKept(p, s);
      MayChoose(p, s);
      NextRecord(s, n);
      PageNoOf(n);
      ReachNext(p, s, Grow(Choose(p, s), n * PGSIZE, f), MapPage(RoomBy(p, s), n * PGSIZE, f));
    }
  }

  lemma DropOnward(p: Policy, s: Space, va: nat)
    ensures Onward(p, s, DropPage(s, va)) == true
  {
    if Reached(p, s) && va in s.ptes && s.ptes[va].present {
      ReachedKept(p, s);
      ReachNext(p, s, Shrink(va), DropPage(s, va));
    }
  }

  lemma TickOnward(p: Policy, s: Space, pages: seq<Page>, ptes: map<nat, Pte>)
    requires |s.pages| == MAX_TOTAL_PAGES && Ticked(s, pages, ptes)
    ensures Onward(p, s, s.(pages := pages, ptes := ptes)) == true
  {
    if Reached(p, s) {
      ReachedKept(p, s);
      ReachNext(p, s, Tick(pages, ptes), s.(pages := pages, ptes := ptes));
    }
  }

  /** What the processor does, it can do in every state: set and clear accessed bits, and store into present pages. */
  lemma ProcessorOnward(p: Policy, s: Space, ptes: map<nat, Pte>, va: nat, off: nat, b: byte)
    requires SameButAccessed(s.ptes, ptes)
    ensures Onward(p, s, s.(ptes := ptes)) == true
    ensures Hit(s, va, off) ==> Onward(p, s, Stored(s, va, off, b)) == true
  {
    if Reached(p, s) {
      ReachedKept(p, s);
      ReachNext(p, s, Touch(ptes), s.(ptes := ptes));
      if Hit(s, va, off) {
        ReachNext(p, s, Store(va, off, b), Stored(s, va, off, b));
      }
    }
  }

  /** The memory of a process in such a state is what the events of a run make of a flat memory. */
  lemma ReachedIsFlat(p: Policy, s: Space)
    requires Reached(p, s)
    ensures exists states, events :: IsRunOf(p, states, events) && states[|events|] == s && IsFlat(s, FlatRun(events))
  {
    var states, events :| IsRunOf(p, states, events) && states[|events|] == s;
    RunIsFlat(states, events, |events|);
    assert events[..|events|] == events;
  }

  /** In every run no page leaves memory but the one picked, and that one only to make room: nothing is swapped out
  while fewer than MAX_PSYC_PAGES pages are in memory. */
  lemma OnlyPickLeaves(states: seq<Space>, events: seq<Event>, n: nat, va: nat)
    requires IsRun(states, events) && n < |events| && InMemory(states[n], va)
    requires !(events[n].Shrink? && events[n].va == va)
    requires (events[n].Fault? || events[n].Grow?) && events[n].pick.va == va ==>
               CountIn(states[n].pages) < MAX_PSYC_PAGES
    ensures InMemory(states[n + 1], va)
  {
    RunIsFlat(states, events, n);
    var s, e, t := states[n], events[n], states[n + 1];
    assert Next(s, e, t);
    match e
    case Fault(pick, vb, f, accessed) =>
      RoomKeeps(s, pick);
      RoomKeepsOut(s, pick, vb);
      RoomHolds(s, pick, va);
      InHolds(Room(s, pick), vb, f, accessed, va);
    case Grow(pick, vb, f) =>
      RoomKeeps(s, pick);
      RoomHolds(s, pick, va);
      MapHolds(Room(s, pick), vb, f, va);
    case Shrink(vb) => ForgetMembers(s, vb);
    case _ =>
  }

  lemma RoomHolds(s: Space, c: Choice, va: nat)
    requires Inv(s) && MayTake(s, c) && InMemory(s, va) && (c.va == va ==> CountIn(s.pages) < MAX_PSYC_PAGES)
    ensures InMemory(Room(s, c), va)
  {
    if CountIn(s.pages) == MAX_PSYC_PAGES {
      RoomFits(s, c);
      assert s.entry[va] != s.entry[c.va];
    }
  }

  lemma InHolds(r: Space, vb: nat, f: nat, accessed: bool, va: nat)
    requires Inv(r) && vb in r.ptes && InBack(r, vb) && InMemory(r, va)
    ensures InMemory(SwapIn(r, vb, f, accessed), va)
  {
    assert r.entry[va] != r.entry[vb];
  }

  lemma MapHolds(r: Space, vb: nat, f: nat, va: nat)
    requires Inv(r) && InMemory(r, va) && vb !in r.entry
    ensures InMemory(MapPage(r, vb, f), va)
  {
    assert r.pages[r.entry[va]].live;
  }

  // ---- what second-chance FIFO swaps out ----

  /** In every run under second-chance FIFO, whenever room is made, the page that leaves memory is the first one in the
  queue that has not been accessed, or the head if all have.  The pages before it, or all, lose their accessed bits,
  and nothing else of the page table changes; the queue goes on with the pages behind it and then those before it. */
  lemma ScfifoSwapsUnaccessed(states: seq<Space>, events: seq<Event>, n: nat) returns (k: nat)
    requires IsRunOf(Scfifo, states, events) && n < |events| && (events[n].Fault? || events[n].Grow?)
    requires CountIn(states[n].pages) == MAX_PSYC_PAGES
    ensures FirstUnaccessed(states[n].queue, states[n].ptes, k)
    ensures var q, c := states[n].queue, events[n].pick;
            && |q| == MAX_PSYC_PAGES && c.va == (if k < |q| then q[k] else q[0])
            && c.rest == (if k < |q| then q[k + 1..] + q[..k] else q[1..])
            && OnlyCleared(states[n].ptes, c.ptes, q[..k])
    ensures InMemory(states[n], events[n].pick.va) && InBack(states[n + 1], events[n].pick.va)
    ensures events[n].Fault? ==> states[n + 1].queue == events[n].pick.rest + [events[n].va]
  {
    RunKeepsQueue(Scfifo, states, events, n);
    var s, e, t := states[n], events[n], states[n + 1];
    assert Follows(Scfifo, s, e) && Next(s, e, t);
    k := SomeUnaccessed(s);
    ScfifoChooses(s, k);
    ChoiceFits(Scfifo, s);
    VictimLeaves(s, e, t);
    if e.Fault? {
      RoomKeepsOut(s, e.pick, e.va);
      RoomFits(s, e.pick);
    }
  }

  // ---- what NFUA swaps out ----

  /** What the clock ticks among the first n events saw of page va since it last came into memory, the
  latest first. */
  ghost function Past(states: seq<Space>, events: seq<Event>, n: nat, va: nat): seq<bool>
    requires n <= |events| < |states|
  {
    if n == 0 then []
    else
      match events[n - 1]
      case Fault(_, vb, _, _) => if vb == va then [] else Past(states, events, n - 1, va)
      case Grow(_, vb, _) => if vb == va then [] else Past(states, events, n - 1, va)
      case Tick(_, _) =>
        if InMemory(states[n - 1], va) then [IsAccessed(states[n - 1], va)] + Past(states, events, n - 1, va)
        else Past(states, events, n - 1, va)
      case _ => Past(states, events, n - 1, va)
  }

  ghost function PastAt(states: seq<Space>, events: seq<Event>, n: nat): nat -> seq<bool>
    requires n <= |events| < |states|
  {
    (va: nat) => Past(states, events, n, va)
  }

  ghost predicate IsAccessed(s: Space, va: nat) {
    va in s.ptes && s.ptes[va].accessed
  }

  /** The record of page va is the same in t as in s. */
  ghost predicate SameRecord(s: Space, t: Space, va: nat) {
    InMemory(s, va) && InMemory(t, va) && t.pages[t.entry[va]] == s.pages[s.entry[va]]
  }

  lemma RoomRecords(s: Space, c: Choice, va: nat)
    requires Inv(s) && MayTake(s, c) && InMemory(Room(s, c), va)
    ensures SameRecord(s, Room(s, c), va)
  {
    RoomOnlyOut(s, c);
  }

  /** The ages of a page that has just come into memory. */
  ghost predicate NewAges(t: Space, va: nat) {
    InMemory(t, va) && t.pages[t.entry[va]].age == 0 && t.pages[t.entry[va]].age2 == ALL_ONES
  }

  const ALL_ONES := 0xffff_ffff

  lemma FaultRecords(s: Space, e: Event, t: Space, va: nat)
    requires Bounded(s) && e.Fault? && Next(s, e, t) && InMemory(t, va)
    ensures if va == e.va then NewAges(t, va) else SameRecord(s, t, va)
  {
    RoomKeeps(s, e.pick);
    RoomKeepsOut(s, e.pick, e.va);
    if va != e.va {
      assert InMemory(Room(s, e.pick), va);
      RoomRecords(s, e.pick, va);
    }
  }

  lemma GrowRecords(s: Space, e: Event, t: Space, va: nat)
    requires Bounded(s) && e.Grow? && Next(s, e, t) && InMemory(t, va)
    ensures if va == e.va then NewAges(t, va) else SameRecord(s, t, va)
  {
    var r := Room(s, e.pick);
    RoomKeeps(s, e.pick);
    RoomOnlyOut(s, e.pick);
    MapRecords(r, e.va, e.frame, va);
    if va != e.va {
      RoomRecords(s, e.pick, va);
    }
  }

  lemma MapRecords(r: Space, va: nat, f: nat, vb: nat)
    requires TableOk(r) && va !in r.entry && InMemory(MapPage(r, va, f), vb)
    ensures var t := MapPage(r, va, f); if vb == va then NewAges(t, vb) else SameRecord(r, t, vb)
  {}

  lemma TickRecords(s: Space, e: Event, t: Space, va: nat)
    requires Bounded(s) && e.Tick? && Next(s, e, t) && InMemory(t, va)
    ensures InMemory(s, va) && t.pages[t.entry[va]].age == NextAge(s.pages[s.entry[va]].age, IsAccessed(s, va))
    ensures t.pages[t.entry[va]].age2 == NextAge(s.pages[s.entry[va]].age2, IsAccessed(s, va))
  {
    assert t.entry[va] == s.entry[va] && s.pages[s.entry[va]].vaddr == va;
  }

  lemma OtherRecords(s: Space, e: Event, t: Space, va: nat)
    requires Bounded(s) && !e.Fault? && !e.Grow? && !e.Tick? && Next(s, e, t) && InMemory(t, va)
    ensures SameRecord(s, t, va)
  {
    if e.Shrink? {
      ForgetMembers(s, e.va);
      assert InMemory(Forget(s, e.va), va);
    }
  }

  /** In every run, of whatever policy, the age of a page in memory encodes when it was used since it came
  into memory. */
  lemma {:induction false} AgeIsPast(states: seq<Space>, events: seq<Event>, n: nat, va: nat)
    requires IsRun(states, events) && n <= |events| && InMemory(states[n], va)
    ensures states[n].pages[states[n].entry[va]].age == AgeOf(Past(states, events, n, va))
    ensures states[n].pages[states[n].entry[va]].age2 == AgeFrom(ALL_ONES, Past(states, events, n, va))
    decreases n
  {
    if n > 0 {
      RunIsFlat(states, events, n - 1);
      var s, e, t := states[n - 1], events[n - 1], states[n];
      assert Next(s, e, t);
      match e {
        case Fault(_, _, _, _) => FaultRecords(s, e, t, va);
        case Grow(_, _, _) => GrowRecords(s, e, t, va);
        case Tick(_, _) => TickRecords(s, e, t, va);
        case _ => OtherRecords(s, e, t, va);
      }
      if InMemory(s, va) {
        AgeIsPast(states, events, n - 1, va);
      }
    }
  }

  /** Page va is the coldest of the pages in memory: none has gone unused for longer, as far as the last 32
  ticks tell, and every one with a lower record for less long. */
  ghost predicate IsColdest(s: Space, past: nat -> seq<bool>, va: nat) {
    && InMemory(s, va)
    && forall vb {:trigger InMemory(s, vb)} :: InMemory(s, vb) ==>
         && !Colder(past(vb), past(va), 0, 32)
         && (s.entry[vb] < s.entry[va] ==> Colder(past(va), past(vb), 0, 32))
  }

  ghost predicate Remembers(s: Space, past: nat -> seq<bool>) {
    forall va {:trigger InMemory(s, va)} :: InMemory(s, va) ==> s.pages[s.entry[va]].age == AgeOf(past(va))
  }

  lemma PickedIffColdest(s: Space, past: nat -> seq<bool>, va: nat)
    requires TableOk(s) && Remembers(s, past) && InMemory(s, va)
    ensures Picked(s.pages, s.entry[va]) <==> IsColdest(s, past, va)
  {
    forall vb {:trigger InMemory(s, vb)} | InMemory(s, vb)
      ensures Colder(past(vb), past(va), 0, 32) <==> s.pages[s.entry[vb]].age < s.pages[s.entry[va]].age
      ensures Colder(past(va), past(vb), 0, 32) <==> s.pages[s.entry[va]].age < s.pages[s.entry[vb]].age
    {
      LessIffColder(past(vb), past(va));
      LessIffColder(past(va), past(vb));
    }
    forall k | 0 <= k < MAX_TOTAL_PAGES && Resident(s.pages[k])
      ensures InMemory(s, s.pages[k].vaddr) && s.entry[s.pages[k].vaddr] == k
    {}
  }

  /** In every run under NFUA, whenever room is made, the page that leaves memory is the coldest. */
  lemma NfuaSwapsColdest(states: seq<Space>, events: seq<Event>, n: nat)
    requires IsRunOf(Nfua, states, events) && n < |events| && (events[n].Fault? || events[n].Grow?)
    requires CountIn(states[n].pages) == MAX_PSYC_PAGES
    ensures IsColdest(states[n], PastAt(states, events, n), events[n].pick.va)
    ensures InBack(states[n + 1], events[n].pick.va)
  {
    RunKeepsQueue(Nfua, states, events, n);
    var s, e, t := states[n], events[n], states[n + 1];
    assert Follows(Nfua, s, e) && Next(s, e, t);
    RunRemembers(states, events, n);
    NfuaPicks(s);
    PickedIffColdest(s, PastAt(states, events, n), e.pick.va);
    VictimLeaves(s, e, t);
  }

  lemma RunRemembers(states: seq<Space>, events: seq<Event>, n: nat)
    requires IsRun(states, events) && n <= |events|
    ensures Remembers(states[n], PastAt(states, events, n))
  {
    forall va: nat {:trigger InMemory(states[n], va)} | InMemory(states[n], va)
      ensures states[n].pages[states[n].entry[va]].age == AgeOf(PastAt(states, events, n)(va))
    {
      AgeIsPast(states, events, n, va);
    }
  }

  lemma NfuaPicks(s: Space)
    requires Inv(s) && QueueFits(Nfua, s) && CountIn(s.pages) > 0
    ensures var va := Choose(Nfua, s).va; InMemory(s, va) && Picked(s.pages, s.entry[va])
  {
    ChoiceFits(Nfua, s);
    SomeIn(s.pages);
    assert s.pages[Coldest(s.pages)].live;
  }

  lemma VictimLeaves(s: Space, e: Event, t: Space)
    requires Bounded(s) && (e.Fault? || e.Grow?) && CountIn(s.pages) == MAX_PSYC_PAGES && Next(s, e, t)
    ensures InBack(t, e.pick.va) == true
  {
    RoomKeeps(s, e.pick);
    RoomVictim(s, e.pick);
    if e.Fault? {
      PresentOrOut(s, e.va);
      RoomOnlyOut(s, e.pick);
      StaysOut(Room(s, e.pick), e.pick.va, e.va, e.frame, e.accessed);
    } else {
      StaysOutGrowing(Room(s, e.pick), e.pick.va, e.va, e.frame);
    }
  }

  lemma StaysOut(r: Space, v: nat, va: nat, frame: nat, accessed: bool)
    requires Inv(r) && InBack(r, v) && InBack(r, va) && va in r.ptes && va != v
    ensures InBack(SwapIn(r, va, frame, accessed), v) == true
  {
    assert r.entry[va] != r.entry[v];
  }

  lemma StaysOutGrowing(r: Space, v: nat, va: nat, frame: nat)
    requires Inv(r) && InBack(r, v) && va !in r.entry
    ensures InBack(MapPage(r, va, frame), v) == true
  {
    assert r.pages[r.entry[v]].live;
  }

  lemma RoomVictim(s: Space, c: Choice)
    requires Inv(s) && CountIn(s.pages) == MAX_PSYC_PAGES && Eligible(s, c)
    ensures InBack(Room(s, c), c.va) && Room(s, c).entry == s.entry && !InBack(s, c.va)
  {
    RoomFits(s, c);
  }
}
