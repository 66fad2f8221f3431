/** What page faults, clock ticks, growth and shrinking do to the memory of a process, as functions
of the whole state, for any page replacement policy: it may pick any page in memory, clear accessed
bits, and leave of the queue what it likes. */
module AddressSpace {
  import opened PageQueue
  import opened Paging
  import Aging

  /** At most MAX_PSYC_PAGES recorded pages are in memory, at most one more are swapped out, and the swap file has at
  most as many slots. */
  ghost predicate Bounded(s: Space) {
    && Inv(s) && CountIn(s.pages) <= MAX_PSYC_PAGES && CountBack(s.pages) <= MAX_PSYC_PAGES + 1
    && |s.swap| <= (MAX_PSYC_PAGES + 1) * PGSIZE
  }

  // ---- making room ----

  /** What a selection comes up with: the victim, and the page table and the queue it leaves. */
  datatype Choice = Choice(va: nat, ptes: map<nat, Pte>, rest: seq<nat>)

  ghost predicate Eligible(s: Space, c: Choice) {
    InMemory(s, c.va) && SameButAccessed(s.ptes, c.ptes)
  }

  /** c is a choice the policy may make if it has to make one. */
  ghost predicate MayTake(s: Space, c: Choice) {
    CountIn(s.pages) == MAX_PSYC_PAGES ==> Eligible(s, c)
  }

  lemma RoomFits(s: Space, c: Choice)
    requires Inv(s) && CountIn(s.pages) == MAX_PSYC_PAGES && Eligible(s, c)
    ensures CountBack(s.pages) <= MAX_PSYC_PAGES
    ensures FreeSlot(s.offsets) <= MAX_PSYC_PAGES && FreeSlot(s.offsets) * PGSIZE <= |s.swap|
    ensures Inv(s.(ptes := c.ptes)) && SameMemory(s, s.(ptes := c.ptes)) && InMemory(s.(ptes := c.ptes), c.va)
  {
    CountBound(s.pages);
    FreeSlotFits(s);
    AccessKeeps(s, c.ptes);
  }

  /** With MAX_PSYC_PAGES pages in memory, the victim goes to the first free slot. */
  ghost function Room(s: Space, c: Choice): (t: Space)
    requires Inv(s) && MayTake(s, c)
    ensures |t.pages| == MAX_TOTAL_PAGES
  {
    if CountIn(s.pages) != MAX_PSYC_PAGES then s
    else
      RoomFits(s, c);
      SwapOut(s.(ptes := c.ptes), c.va, FreeSlot(s.offsets), c.rest)
  }

  /** Nothing was swapped in, no record made, and no frame allocated. */
  ghost predicate OnlyOut(s: Space, t: Space)
    requires |s.pages| == |t.pages| == MAX_TOTAL_PAGES
  {
    && t.entry == s.entry
    && (forall f {:trigger f in t.mem} :: f in t.mem ==> f in s.mem)
    && forall i {:trigger s.pages[i]} {:trigger t.pages[i]} :: 0 <= i < MAX_TOTAL_PAGES ==>
         || t.pages[i] == s.pages[i]
         || (Resident(s.pages[i]) && Swapped(t.pages[i]) && t.pages[i].vaddr == s.pages[i].vaddr)
  }

  lemma RoomOnlyOut(s: Space, c: Choice)
    requires Inv(s) && MayTake(s, c)
    ensures OnlyOut(s, Room(s, c))
  {
    if CountIn(s.pages) == MAX_PSYC_PAGES {
      RoomFits(s, c);
    }
  }

  lemma RoomSwaps(s: Space, c: Choice)
    requires Inv(s) && CountIn(s.pages) == MAX_PSYC_PAGES && Eligible(s, c)
    ensures Inv(Room(s, c)) && SameMemory(s, Room(s, c))
    ensures CountIn(Room(s, c).pages) == CountIn(s.pages) - 1 && CountBack(Room(s, c).pages) == CountBack(s.pages) + 1
  {
    RoomFits(s, c);
    var t := s.(ptes := c.ptes);
    assert Room(s, c) == SwapOut(t, c.va, FreeSlot(s.offsets), c.rest);
    SwapOutKeeps(t, c.va, FreeSlot(s.offsets), c.rest);
    SameMemoryTrans(s, t, Room(s, c));
  }

  /** Making room swaps at most one page out, and changes the contents of none. */
  lemma RoomKeeps(s: Space, c: Choice)
    requires Bounded(s) && MayTake(s, c)
    ensures var t := Room(s, c); Bounded(t) && SameMemory(s, t) && CountIn(t.pages) < MAX_PSYC_PAGES
  {
    if CountIn(s.pages) == MAX_PSYC_PAGES {
      RoomSwaps(s, c);
      RoomFits(s, c);
    } else {
      RoomStays(s, c);
    }
  }

  lemma RoomStays(s: Space, c: Choice)
    requires Inv(s) && CountIn(s.pages) != MAX_PSYC_PAGES
    ensures Room(s, c) == s && SameMemory(s, s)
  {}

  // ---- page faults ----

  /** What isPagedOut tells the fault handler about page va. */
  ghost predicate IsOut(ptes: map<nat, Pte>, va: nat) {
    va in ptes && !ptes[va].present && ptes[va].pagedOut
  }

  ghost predicate PagedOut(s: Space, va: nat) {
    IsOut(s.ptes, va)
  }

  lemma PresentOrOut(s: Space, va: nat)
    requires Inv(s) && va in s.ptes
    ensures IsOut(s.ptes, va) <==> InBack(s, va)
    ensures IsOut(s.ptes, va) <==> !s.ptes[va].present
  {}

  lemma RoomKeepsOut(s: Space, c: Choice, va: nat)
    requires Bounded(s) && MayTake(s, c) && PagedOut(s, va)
    ensures InBack(s, va) && va in Room(s, c).ptes && InBack(Room(s, c), va)
  {
    RoomKeeps(s, c);
    RoomOnlyOut(s, c);
    assert s.entry[va] < MAX_TOTAL_PAGES;
  }

  /** safe_page_in of page va into the free frame f. */
  ghost function Fault(s: Space, c: Choice, va: nat, f: nat, accessed: bool): Space
    requires Bounded(s) && MayTake(s, c) && PagedOut(s, va)
  {
    RoomKeeps(s, c);
    RoomKeepsOut(s, c, va);
    SwapIn(Room(s, c), va, f, accessed)
  }

  /** A fault keeps all tables in step and within bounds, changes the contents of no page, and makes
  the page accessible. */
  lemma FaultKeeps(s: Space, c: Choice, va: nat, f: nat, accessed: bool)
    requires Bounded(s) && MayTake(s, c) && PagedOut(s, va) && f !in s.mem
    ensures var t := Fault(s, c, va, f, accessed);
            Bounded(t) && SameMemory(s, t) && t.entry == s.entry && va in t.ptes && t.ptes[va].present
  {
    RoomKeeps(s, c);
    RoomKeepsOut(s, c, va);
    RoomOnlyOut(s, c);
    SwapInKeeps(Room(s, c), va, f, accessed);
    SameMemoryTrans(s, Room(s, c), Fault(s, c, va, f, accessed));
  }

  // ---- clock ticks ----

  /** Two tables that differ in ages only. */
  ghost predicate SameButAges(p: seq<Page>, q: seq<Page>) {
    && |q| == |p|
    && forall i {:trigger p[i]} {:trigger q[i]} :: 0 <= i < |p| ==> q[i] == p[i].(age := q[i].age, age2 := q[i].age2)
  }

  lemma {:induction false} SameCounts(p: seq<Page>, q: seq<Page>)
    requires SameButAges(p, q)
    ensures CountIn(q) == CountIn(p) && CountBack(q) == CountBack(p)
    decreases |p|
  {
    if p != [] {
      var n := |p| - 1;
      assert q[n] == p[n].(age := q[n].age, age2 := q[n].age2);
      SameCounts(p[..n], q[..n]);
    }
  }

  function AgedPage(p: Page, accessed: bool): Page {
    p.(age := Aging.NextAge(p.age, accessed), age2 := Aging.NextAge(p.age2, accessed))
  }

  /** Page va is one of the first n records, and in memory. */
  ghost predicate AgedBelow(s: Space, va: nat, n: nat) {
    InMemory(s, va) && s.entry[va] < n
  }

  /** The accessed bit of the page in record i. */
  ghost predicate Accessed(s: Space, i: nat)
    requires |s.pages| == MAX_TOTAL_PAGES && i < MAX_TOTAL_PAGES
  {
    s.pages[i].vaddr in s.ptes && s.ptes[s.pages[i].vaddr].accessed
  }

  /** age_process_pages, after the first n records: the recorded pages in memory have aged, and their
  accessed bits are cleared. */
  ghost predicate TickedUpTo(s: Space, pages: seq<Page>, ptes: map<nat, Pte>, n: nat)
    requires |s.pages| == MAX_TOTAL_PAGES
  {
    PagesUpTo(s, pages, n) && PtesUpTo(s, ptes, n)
  }

  ghost predicate PagesUpTo(s: Space, pages: seq<Page>, n: nat)
    requires |s.pages| == MAX_TOTAL_PAGES
  {
    && |pages| == MAX_TOTAL_PAGES
    && forall i {:trigger pages[i]} {:trigger s.pages[i]} :: 0 <= i < MAX_TOTAL_PAGES ==>
         pages[i] == if i < n && Resident(s.pages[i]) then AgedPage(s.pages[i], Accessed(s, i)) else s.pages[i]
  }

  ghost predicate PtesUpTo(s: Space, ptes: map<nat, Pte>, n: nat) {
    && SameButAccessed(s.ptes, ptes)
    && forall va {:trigger ptes[va]} :: va in s.ptes ==>
         ptes[va].accessed == (s.ptes[va].accessed && !AgedBelow(s, va, n))
  }

  ghost predicate Ticked(s: Space, pages: seq<Page>, ptes: map<nat, Pte>)
    requires |s.pages| == MAX_TOTAL_PAGES
  {
    TickedUpTo(s, pages, ptes, MAX_TOTAL_PAGES)
  }

  lemma TickNext(s: Space, pages: seq<Page>, ptes: map<nat, Pte>, n: nat)
    requires Inv(s) && TickedUpTo(s, pages, ptes, n) && n < MAX_TOTAL_PAGES
    ensures pages[n] == s.pages[n] && (Resident(pages[n]) ==> pages[n].vaddr in ptes)
    ensures var p := pages[n];
            if Resident(p) then
              TickedUpTo(s, pages[n := AgedPage(p, ptes[p.vaddr].accessed)],
                         ptes[p.vaddr := ptes[p.vaddr].(accessed := false)], n + 1)
            else TickedUpTo(s, pages, ptes, n + 1)
  {
    var va := s.pages[n].vaddr;
    OthersBelow(s, n);
    if Resident(s.pages[n]) {
      assert s.entry[va] == n;
      PtesNext(s, ptes, va, n);
    }
  }

  /** Below n + 1 there is one more record than below n. */
  lemma OthersBelow(s: Space, n: nat)
    requires TableOk(s) && n < MAX_TOTAL_PAGES
    ensures forall va {:trigger AgedBelow(s, va, n + 1)} {:trigger AgedBelow(s, va, n)} ::
              AgedBelow(s, va, n + 1) <==> AgedBelow(s, va, n) || (va == s.pages[n].vaddr && Resident(s.pages[n]))
  {}

  lemma PtesNext(s: Space, ptes: map<nat, Pte>, va: nat, n: nat)
    requires TableOk(s) && PtesUpTo(s, ptes, n) && n < MAX_TOTAL_PAGES && Resident(s.pages[n]) && s.pages[n].vaddr == va
    requires va in ptes
    ensures ptes[va].accessed == s.ptes[va].accessed
    ensures PtesUpTo(s, ptes[va := ptes[va].(accessed := false)], n + 1)
  {
    assert s.entry[va] == n;
    OthersBelow(s, n);
  }

  lemma AgesKeep(s: Space, pages: seq<Page>)
    requires Inv(s) && SameButAges(s.pages, pages)
    ensures Inv(s.(pages := pages)) && SameMemory(s, s.(pages := pages))
    ensures CountIn(pages) == CountIn(s.pages) && CountBack(pages) == CountBack(s.pages)
  {
    SameCounts(s.pages, pages);
    AgesTables(s, pages);
    AgesFrames(s, pages);
  }

  lemma AgesTables(s: Space, pages: seq<Page>)
    requires Inv(s) && SameButAges(s.pages, pages) && CountBack(pages) == CountBack(s.pages)
    ensures TableOk(s.(pages := pages)) && SlotsOk(s.(pages := pages))
  {
    var t := s.(pages := pages);
    assert RecordsHaveSlots(t) && SlotsHaveRecords(t);
  }

  lemma AgesFrames(s: Space, pages: seq<Page>)
    requires |s.pages| == MAX_TOTAL_PAGES && FramesOk(s) && SameButAges(s.pages, pages)
    ensures FramesOk(s.(pages := pages)) && SameMemory(s, s.(pages := pages))
  {
    var t := s.(pages := pages);
    assert forall va :: InBack(t, va) == InBack(s, va) && Logical(t, va) == Logical(s, va);
  }

  /** A clock tick changes neither contents nor residency. */
  lemma TickKeeps(s: Space, pages: seq<Page>, ptes: map<nat, Pte>)
    requires Inv(s) && Ticked(s, pages, ptes)
    ensures Inv(s.(pages := pages, ptes := ptes)) && SameMemory(s, s.(pages := pages, ptes := ptes))
    ensures CountIn(pages) == CountIn(s.pages) && CountBack(pages) == CountBack(s.pages)
  {
    AgesKeep(s, pages);
    AccessKeeps(s.(pages := pages), ptes);
    SameMemoryTrans(s, s.(pages := pages), s.(pages := pages, ptes := ptes));
  }

  // ---- a new page ----

  /** The record add_new_page picks: the first unused one, |pages| if there is none. */
  ghost function FreeRecord(pages: seq<Page>): (i: nat)
    ensures i <= |pages| && (forall j :: 0 <= j < i ==> pages[j].live) && (i < |pages| ==> !pages[i].live)
  {
    if pages == [] || !pages[0].live then 0 else 1 + FreeRecord(pages[1..])
  }

  /** add_new_page panics: it meets a record of va before an unused one. */
  ghost predicate Clash(pages: seq<Page>, va: nat) {
    exists i :: 0 <= i < FreeRecord(pages) && pages[i].vaddr == va
  }

  /** Without an unused record the page is mapped but not recorded, and nobody notices. */
  ghost function MapPage(r: Space, va: nat, f: nat): Space {
    var i := FreeRecord(r.pages);
    if i < |r.pages| then Record(Map(r, va, f), va, i) else Map(r, va, f)
  }

  lemma MapPageKeeps(r: Space, va: nat, f: nat)
    requires Inv(r) && va !in r.ptes && va !in r.entry && f !in r.mem && (va == 0 ==> FreeRecord(r.pages) == 0)
    ensures var t := MapPage(r, va, f);
            && Inv(t) && Added(r, t, va) && CountBack(t.pages) == CountBack(r.pages)
            && CountIn(t.pages) <= CountIn(r.pages) + 1
  {
    MapKeeps(r, va, f);
    var m, i := Map(r, va, f), FreeRecord(r.pages);
    if i < MAX_TOTAL_PAGES {
      AddRecord(r, m, va, i);
    }
  }

  lemma AddRecord(r: Space, m: Space, va: nat, i: nat)
    requires Inv(m) && Added(r, m, va) && va !in m.entry && va in m.ptes && m.ptes[va].present
    requires i < MAX_TOTAL_PAGES && !m.pages[i].live && (va == 0 ==> i == 0)
    ensures var t := Record(m, va, i);
            && Inv(t) == true && Added(r, t, va) == true && CountBack(t.pages) == CountBack(m.pages)
            && CountIn(t.pages) <= CountIn(m.pages) + 1
  {
    RecordKeeps(m, va, i);
    AddedSame(r, m, Record(m, va, i), va);
  }

  lemma AddedSame(s: Space, t: Space, u: Space, va: nat)
    requires Added(s, t, va) && SameMemory(t, u)
    ensures Added(s, u, va)
  {
    assert va in t.ptes && Logical(u, va) == Logical(t, va);
    forall vb | vb in s.ptes
      ensures Logical(u, vb) == Logical(s, vb)
    {
      assert vb in t.ptes && Logical(t, vb) == Logical(s, vb);
    }
  }

  lemma SameAdded(s: Space, t: Space, u: Space, va: nat)
    requires SameMemory(s, t) && Added(t, u, va)
    ensures Added(s, u, va)
  {
    forall vb | vb in s.ptes
      ensures Logical(u, vb) == Logical(s, vb)
    {
      assert vb in t.ptes && Logical(t, vb) == Logical(s, vb);
    }
  }

  lemma SameRecords(p: seq<Page>, q: seq<Page>)
    requires |p| == |q|
    requires forall i {:trigger p[i]} :: 0 <= i < |p| ==>
               q[i].live == p[i].live && q[i].vaddr == p[i].vaddr
    ensures FreeRecord(q) == FreeRecord(p) && forall va :: Clash(q, va) <==> Clash(p, va)
  {}

  lemma RoomSameRecord(s: Space, c: Choice)
    requires Inv(s) && MayTake(s, c)
    ensures FreeRecord(Room(s, c).pages) == FreeRecord(s.pages)
    ensures forall va :: Clash(Room(s, c).pages, va) <==> Clash(s.pages, va)
  {
    RoomOnlyOut(s, c);
    SameRecords(s.pages, Room(s, c).pages);
  }

  /** A new page reads as zeroes, the others read as before, and the bounds hold. */
  lemma GrowKeeps(s: Space, c: Choice, va: nat, f: nat)
    requires Bounded(s) && MayTake(s, c) && va !in s.ptes && va !in s.entry && f !in Room(s, c).mem
    requires va == 0 ==> FreeRecord(s.pages) == 0
    ensures var t := MapPage(Room(s, c), va, f); Bounded(t) && Added(s, t, va)
  {
    RoomKeeps(s, c);
    RoomOnlyOut(s, c);
    RoomSameRecord(s, c);
    MapBounded(Room(s, c), va, f);
    SameAdded(s, Room(s, c), MapPage(Room(s, c), va, f), va);
  }

  lemma MapBounded(r: Space, va: nat, f: nat)
    requires Bounded(r) && CountIn(r.pages) < MAX_PSYC_PAGES && va !in r.ptes && va !in r.entry && f !in r.mem
    requires va == 0 ==> FreeRecord(r.pages) == 0
    ensures Bounded(MapPage(r, va, f)) == true && Added(r, MapPage(r, va, f), va) == true
  {
    MapPageKeeps(r, va, f);
  }

  // ---- a page less ----

  /** deallocuvm's steps for the address va: a page that is swapped out stays as it is. */
  ghost function DropPage(s: Space, va: nat): Space {
    if va in s.ptes && s.ptes[va].present then Unmap(Forget(s, va), va) else s
  }

  lemma DropKeeps(s: Space, va: nat)
    requires Bounded(s) && va in s.ptes && s.ptes[va].present
    ensures Bounded(DropPage(s, va)) && Removed(s, DropPage(s, va), va)
  {
    ForgetKeeps(s, va);
    UnmapKeeps(Forget(s, va), va);
    SameRemoved(s, Forget(s, va), DropPage(s, va), va);
  }

  lemma SameRemoved(s: Space, t: Space, u: Space, va: nat)
    requires SameMemory(s, t) && Removed(t, u, va)
    ensures Removed(s, u, va)
  {
    forall vb | vb in s.ptes && vb != va
      ensures Logical(u, vb) == Logical(s, vb)
    {
      assert vb in t.ptes && Logical(t, vb) == Logical(s, vb);
    }
  }
}
