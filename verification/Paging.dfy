/** The bookkeeping behind swapping: the table of page records, the swap slots, the page table and
the physical frames, and why these four stay in step when a page is swapped out, swapped in, added
or removed, whichever page is picked and whatever the queue of pages holds. */
module Paging {
  import opened Blocks
  import opened PageQueue
  import FM = FileModel

  const PGSIZE := 4096
  const MAX_PSYC_PAGES := 16

  type Bytes = s: seq<byte> | |s| == PGSIZE witness seq(PGSIZE, _ => 0)

  function ZeroPage(): Bytes {
    seq(PGSIZE, _ => 0)
  }

  /** A page table entry: PTE_P, PTE_PG, PTE_A and the frame. */
  datatype Pte = Pte(present: bool, pagedOut: bool, accessed: bool, frame: nat)

  // ---- counting ----

  ghost predicate Resident(p: Page) { p.live && !p.inBack }
  ghost predicate Swapped(p: Page) { p.live && p.inBack }

  ghost function CountIn(pages: seq<Page>): nat {
    if pages == [] then 0
    else CountIn(pages[..|pages| - 1]) + if Resident(pages[|pages| - 1]) then 1 else 0
  }

  ghost function CountBack(pages: seq<Page>): nat {
    if pages == [] then 0
    else CountBack(pages[..|pages| - 1]) + if Swapped(pages[|pages| - 1]) then 1 else 0
  }

  ghost function CountTaken(offsets: seq<bool>): nat {
    if offsets == [] then 0
    else CountTaken(offsets[..|offsets| - 1]) + if offsets[|offsets| - 1] then 1 else 0
  }

  lemma {:induction false} CountUpdate(pages: seq<Page>, i: nat, p: Page)
    requires i < |pages|
    ensures CountIn(pages[i := p]) ==
            CountIn(pages) - (if Resident(pages[i]) then 1 else 0) + (if Resident(p) then 1 else 0)
    ensures CountBack(pages[i := p]) ==
            CountBack(pages) - (if Swapped(pages[i]) then 1 else 0) + (if Swapped(p) then 1 else 0)
    decreases |pages|
  {
    var n := |pages| - 1;
    if i < n {
      CountUpdate(pages[..n], i, p);
      assert pages[i := p][..n] == pages[..n][i := p];
    } else {
      assert pages[i := p][..n] == pages[..n];
    }
  }

  lemma {:induction false} TakenUpdate(offsets: seq<bool>, k: nat, b: bool)
    requires k < |offsets|
    ensures CountTaken(offsets[k := b]) == CountTaken(offsets) - (if offsets[k] then 1 else 0) + (if b then 1 else 0)
    decreases |offsets|
  {
    var n := |offsets| - 1;
    if k < n {
      TakenUpdate(offsets[..n], k, b);
      assert offsets[k := b][..n] == offsets[..n][k := b];
    } else {
      assert offsets[k := b][..n] == offsets[..n];
    }
  }

  lemma {:induction false} CountBound(pages: seq<Page>)
    ensures CountIn(pages) + CountBack(pages) <= |pages|
  {
    if pages != [] {
      CountBound(pages[..|pages| - 1]);
    }
  }

  /** If the first k slots are taken, at least k slots are taken. */
  lemma {:induction false} TakenPrefix(offsets: seq<bool>, k: nat)
    requires k <= |offsets| && forall j :: 0 <= j < k ==> offsets[j]
    ensures CountTaken(offsets) >= k
    decreases |offsets|
  {
    if offsets != [] {
      var n := |offsets| - 1;
      TakenPrefix(offsets[..n], if k <= n then k else n);
    }
  }

  lemma NothingCounted(pages: seq<Page>, offsets: seq<bool>)
    requires forall i :: 0 <= i < |pages| ==> !pages[i].live
    requires forall i :: 0 <= i < |offsets| ==> !offsets[i]
    ensures CountIn(pages) == 0 && CountBack(pages) == 0 && CountTaken(offsets) == 0
    decreases |pages| + |offsets|
  {
    if pages != [] {
      NothingCounted(pages[..|pages| - 1], offsets);
    }
    if offsets != [] {
      NothingCounted(pages, offsets[..|offsets| - 1]);
    }
  }

  // ---- the tables ----

  /** All state of one process's memory.  entry: the table index of each recorded page; owner: the
  page in each taken swap slot; mapped: the page in each frame. */
  datatype Space = Space(pages: seq<Page>, offsets: seq<bool>, queue: seq<nat>, ptes: map<nat, Pte>,
                         mem: map<nat, Bytes>, swap: seq<byte>,
                         entry: map<nat, nat>, owner: map<nat, nat>, mapped: map<nat, nat>)

  /** The table and `entry` are inverse to each other.  Unused records have address 0, and page 0
  sits in record 0 if it is recorded at all. */
  ghost predicate TableOk(s: Space) {
    && |s.pages| == |s.offsets| == MAX_TOTAL_PAGES
    && (forall va {:trigger s.entry[va]} :: va in s.entry ==>
          s.entry[va] < MAX_TOTAL_PAGES && s.pages[s.entry[va]].live && s.pages[s.entry[va]].vaddr == va)
    && (forall i {:trigger s.pages[i]} :: 0 <= i < MAX_TOTAL_PAGES ==>
          if s.pages[i].live then s.pages[i].vaddr in s.entry && s.entry[s.pages[i].vaddr] == i
          else s.pages[i].vaddr == 0)
    && (0 in s.entry ==> s.entry[0] == 0)
  }

  /** Swapped pages hold pairwise distinct slots inside the swap file, and offsets[] marks exactly
  those slots. */
  ghost predicate SlotsOk(s: Space)
    requires |s.pages| == |s.offsets| == MAX_TOTAL_PAGES
  {
    && RecordsHaveSlots(s) && SlotsHaveRecords(s)
    && (forall k {:trigger s.offsets[k]} :: 0 <= k < MAX_TOTAL_PAGES ==> (s.offsets[k] <==> k in s.owner))
    && CountTaken(s.offsets) == CountBack(s.pages) && |s.swap| % PGSIZE == 0
  }

  ghost predicate RecordsHaveSlots(s: Space)
    requires |s.pages| == MAX_TOTAL_PAGES
  {
    forall i {:trigger s.pages[i]} :: 0 <= i < MAX_TOTAL_PAGES && Swapped(s.pages[i]) ==>
      var k := s.pages[i].offset / PGSIZE;
      s.pages[i].offset == k * PGSIZE && k in s.owner && s.owner[k] == s.pages[i].vaddr
  }

  ghost predicate SlotsHaveRecords(s: Space)
    requires |s.pages| == MAX_TOTAL_PAGES
  {
    forall k {:trigger s.owner[k]} :: k in s.owner ==>
      && k < MAX_TOTAL_PAGES && (k + 1) * PGSIZE <= |s.swap|
      && s.owner[k] in s.entry && s.entry[s.owner[k]] < MAX_TOTAL_PAGES
      && Swapped(s.pages[s.entry[s.owner[k]]]) && s.pages[s.entry[s.owner[k]]].offset == k * PGSIZE
  }

  /** The record of page va says that it is in the swap file. */
  ghost predicate InBack(s: Space, va: nat) {
    va in s.entry && s.entry[va] < |s.pages| && s.pages[s.entry[va]].inBack
  }

  /** A mapped page is marked paged out if its record says so, and is present in a frame of its own
  otherwise, also if it has no record.  Recorded pages in memory are mapped. */
  ghost predicate FramesOk(s: Space)
    requires |s.pages| == MAX_TOTAL_PAGES
  {
    && (forall va {:trigger s.ptes[va]} :: va in s.ptes ==>
          var e := s.ptes[va];
          if InBack(s, va) then !e.present && e.pagedOut
          else e.present && !e.pagedOut && e.frame in s.mem && e.frame in s.mapped && s.mapped[e.frame] == va)
    && (forall va {:trigger s.entry[va]} :: va in s.entry && !InBack(s, va) ==> va in s.ptes)
  }

  ghost predicate Inv(s: Space) {
    TableOk(s) && SlotsOk(s) && FramesOk(s)
  }

  /** Records and slots do not depend on page table and frames. */
  lemma SameTables(s: Space, t: Space)
    requires TableOk(s) && SlotsOk(s) && t.pages == s.pages && t.offsets == s.offsets && t.swap == s.swap
    requires t.entry == s.entry && t.owner == s.owner
    ensures TableOk(t) && SlotsOk(t)
  {
    assert RecordsHaveSlots(t) && SlotsHaveRecords(t);
  }

  /** The contents of a mapped page: its frame if it is present, and its slot otherwise. */
  ghost function Logical(s: Space, va: nat): seq<byte> {
    if va !in s.ptes then []
    else if s.ptes[va].present then
      if s.ptes[va].frame in s.mem then s.mem[s.ptes[va].frame] else []
    else if va in s.entry && s.entry[va] < |s.pages| && s.pages[s.entry[va]].offset + PGSIZE <= |s.swap| then
      s.swap[s.pages[s.entry[va]].offset..s.pages[s.entry[va]].offset + PGSIZE]
    else []
  }

  /** A mapped page always has contents. */
  lemma LogicalSize(s: Space, va: nat)
    requires Inv(s) && va in s.ptes
    ensures |Logical(s, va)| == PGSIZE
  {
    if InBack(s, va) {
      var p := s.pages[s.entry[va]];
      assert s.owner[p.offset / PGSIZE] == va;
    }
  }

  /** t maps the same pages as s, and each has the same contents. */
  ghost predicate SameMemory(s: Space, t: Space) {
    && (forall va {:trigger va in t.ptes} {:trigger va in s.ptes} :: va in t.ptes <==> va in s.ptes)
    && forall va {:trigger Logical(t, va)} {:trigger Logical(s, va)} :: va in s.ptes ==>
           Logical(t, va) == Logical(s, va)
  }

  lemma SameMemoryTrans(s: Space, t: Space, u: Space)
    requires SameMemory(s, t) && SameMemory(t, u)
    ensures SameMemory(s, u)
  {
    forall va | va in s.ptes
      ensures Logical(u, va) == Logical(s, va)
    {
      assert va in t.ptes && Logical(t, va) == Logical(s, va);
    }
  }

  /** Nor does anything depend on the queue. */
  lemma AnyQueue(s: Space, q: seq<nat>)
    requires Inv(s)
    ensures Inv(s.(queue := q)) && SameMemory(s, s.(queue := q))
  {
    SameTables(s, s.(queue := q));
    SameFrames(s, s.(queue := q));
  }

  lemma SameFrames(s: Space, t: Space)
    requires |s.pages| == MAX_TOTAL_PAGES && FramesOk(s) && t.pages == s.pages && t.entry == s.entry
    requires t.ptes == s.ptes && t.mem == s.mem && t.mapped == s.mapped && t.swap == s.swap
    ensures FramesOk(t) && SameMemory(s, t)
  {
    assert forall va :: InBack(t, va) == InBack(s, va) && Logical(t, va) == Logical(s, va);
  }

  // ---- swapping out ----

  /** Page va is recorded and in memory. */
  ghost predicate InMemory(s: Space, va: nat) {
    va in s.entry && s.entry[va] < |s.pages| && Resident(s.pages[s.entry[va]])
  }

  /** pageOut of the page va to slot k, where `rest` is what the selection has left of the queue. */
  ghost function SwapOut(s: Space, va: nat, k: nat, rest: seq<nat>): Space
    requires Inv(s) && InMemory(s, va) && k < MAX_TOTAL_PAGES && k * PGSIZE <= |s.swap|
  {
    var i, e := s.entry[va], s.ptes[va];
    Space(s.pages[i := s.pages[i].(inBack := true, offset := k * PGSIZE)], s.offsets[k := true], rest,
          s.ptes[va := e.(present := false, pagedOut := true)], s.mem - {e.frame},
          FM.Splice(s.swap, k * PGSIZE, s.mem[e.frame]), s.entry, s.owner[k := va], s.mapped - {e.frame})
  }

  lemma SwapOutTable(s: Space, va: nat, k: nat, rest: seq<nat>)
    requires Inv(s) && InMemory(s, va) && k < MAX_TOTAL_PAGES && k * PGSIZE <= |s.swap|
    ensures TableOk(SwapOut(s, va, k, rest))
  {}

  lemma SwapOutFrames(s: Space, va: nat, k: nat, rest: seq<nat>)
    requires Inv(s) && InMemory(s, va) && k < MAX_TOTAL_PAGES && k * PGSIZE <= |s.swap|
    ensures FramesOk(SwapOut(s, va, k, rest))
  {}

  lemma SwapOutSlots(s: Space, va: nat, k: nat, rest: seq<nat>)
    requires Inv(s) && InMemory(s, va) && k < MAX_TOTAL_PAGES && k * PGSIZE <= |s.swap| && !s.offsets[k]
    ensures SlotsOk(SwapOut(s, va, k, rest))
  {
    var i := s.entry[va];
    CountUpdate(s.pages, i, s.pages[i].(inBack := true, offset := k * PGSIZE));
    TakenUpdate(s.offsets, k, true);
    SpliceSize(s.swap, k, s.mem[s.ptes[va].frame]);
    SwapOutRecords(s, va, k, rest);
  }

  lemma SwapOutRecords(s: Space, va: nat, k: nat, rest: seq<nat>)
    requires Inv(s) && InMemory(s, va) && k < MAX_TOTAL_PAGES && k * PGSIZE <= |s.swap| && !s.offsets[k]
    ensures RecordsHaveSlots(SwapOut(s, va, k, rest)) && SlotsHaveRecords(SwapOut(s, va, k, rest))
  {
    SlotOfOffset(k);
    SpliceSize(s.swap, k, s.mem[s.ptes[va].frame]);
  }

  lemma SlotOfOffset(k: nat)
    ensures k * PGSIZE / PGSIZE == k
  {}

  lemma SpliceSize(swap: seq<byte>, k: nat, page: Bytes)
    requires |swap| % PGSIZE == 0 && k * PGSIZE <= |swap|
    ensures var r := FM.Splice(swap, k * PGSIZE, page);
            |r| % PGSIZE == 0 && |r| >= |swap| && |r| >= (k + 1) * PGSIZE
  {}

  lemma SwapOutContents(s: Space, va: nat, k: nat, rest: seq<nat>)
    requires Inv(s) && InMemory(s, va) && k < MAX_TOTAL_PAGES && k * PGSIZE <= |s.swap| && !s.offsets[k]
    ensures SameMemory(s, SwapOut(s, va, k, rest))
  {
    var t := SwapOut(s, va, k, rest);
    SpliceSize(s.swap, k, s.mem[s.ptes[va].frame]);
    forall vb | vb in s.ptes
      ensures Logical(t, vb) == Logical(s, vb)
    {
      if vb != va && InBack(s, vb) {
        var p := s.pages[s.entry[vb]];
        assert s.owner[p.offset / PGSIZE] == vb && p.offset / PGSIZE != k;
      }
    }
  }

  /** Swapping out keeps all tables in step and changes the contents of no page. */
  lemma SwapOutKeeps(s: Space, va: nat, k: nat, rest: seq<nat>)
    requires Inv(s) && InMemory(s, va) && k < MAX_TOTAL_PAGES && k * PGSIZE <= |s.swap| && !s.offsets[k]
    ensures var t := SwapOut(s, va, k, rest);
            && Inv(t) && SameMemory(s, t)
            && CountIn(t.pages) == CountIn(s.pages) - 1 && CountBack(t.pages) == CountBack(s.pages) + 1
  {
    SwapOutTable(s, va, k, rest);
    SwapOutFrames(s, va, k, rest);
    SwapOutSlots(s, va, k, rest);
    SwapOutContents(s, va, k, rest);
    var i := s.entry[va];
    CountUpdate(s.pages, i, s.pages[i].(inBack := true, offset := k * PGSIZE));
  }

  // ---- where a page-out goes ----

  /** The slot getFreePageOffset picks: the first one that is not taken, |offsets| if all are. */
  ghost function FreeSlot(offsets: seq<bool>): (k: nat)
    ensures k <= |offsets| && (forall j :: 0 <= j < k ==> offsets[j]) && (k < |offsets| ==> !offsets[k])
  {
    if offsets == [] || !offsets[0] then 0 else 1 + FreeSlot(offsets[1..])
  }

  /** While at most MAX_PSYC_PAGES pages are swapped out, there is a free slot, it is one of the first
  17, it starts inside the swap file or right at its end, and it ends within the largest file: the
  two range checks of writei cannot reject the page. */
  lemma FreeSlotFits(s: Space)
    requires Inv(s) && CountBack(s.pages) <= MAX_PSYC_PAGES
    ensures var k := FreeSlot(s.offsets);
            k <= MAX_PSYC_PAGES && k * PGSIZE <= |s.swap| && k * PGSIZE + PGSIZE <= FM.MAXFILE * BSIZE
  {
    var k := FreeSlot(s.offsets);
    TakenPrefix(s.offsets, k);
    if k > 0 {
      assert s.offsets[k - 1];
      assert s.owner[k - 1] in s.entry;
    }
  }

  // ---- swapping in ----

  /** pageIn of the swapped page va into the free frame f. */
  ghost function SwapIn(s: Space, va: nat, f: nat, accessed: bool): Space
    requires Inv(s) && va in s.ptes && InBack(s, va)
  {
    var i := s.entry[va];
    var k := s.pages[i].offset / PGSIZE;
    assert s.owner[k] == va;
    Space(s.pages[i := Refreshed(s.pages[i])], s.offsets[k := false], s.queue + [va],
          s.ptes[va := Pte(true, false, accessed, f)], s.mem[f := s.swap[k * PGSIZE..k * PGSIZE + PGSIZE]],
          s.swap, s.entry, s.owner - {k}, s.mapped[f := va])
  }

  /** The record of a page that has just come back. */
  function Refreshed(p: Page): Page {
    p.(inBack := false, age := 0, age2 := 0xffff_ffff)
  }

  lemma SwapInTable(s: Space, va: nat, f: nat, accessed: bool)
    requires Inv(s) && va in s.ptes && InBack(s, va)
    ensures TableOk(SwapIn(s, va, f, accessed))
  {}

  lemma SwapInFrames(s: Space, va: nat, f: nat, accessed: bool)
    requires Inv(s) && va in s.ptes && InBack(s, va) && f !in s.mem
    ensures FramesOk(SwapIn(s, va, f, accessed))
  {}

  lemma SwapInSlots(s: Space, va: nat, f: nat, accessed: bool)
    requires Inv(s) && va in s.ptes && InBack(s, va)
    ensures SlotsOk(SwapIn(s, va, f, accessed))
  {
    var i := s.entry[va];
    CountUpdate(s.pages, i, Refreshed(s.pages[i]));
    TakenUpdate(s.offsets, s.pages[i].offset / PGSIZE, false);
    SwapInRecords(s, va, f, accessed);
  }

  lemma SwapInRecords(s: Space, va: nat, f: nat, accessed: bool)
    requires Inv(s) && va in s.ptes && InBack(s, va)
    ensures RecordsHaveSlots(SwapIn(s, va, f, accessed)) && SlotsHaveRecords(SwapIn(s, va, f, accessed))
  {}

  lemma SwapInContents(s: Space, va: nat, f: nat, accessed: bool)
    requires Inv(s) && va in s.ptes && InBack(s, va) && f !in s.mem
    ensures SameMemory(s, SwapIn(s, va, f, accessed))
  {
    var t := SwapIn(s, va, f, accessed);
    forall vb | vb in s.ptes
      ensures Logical(t, vb) == Logical(s, vb)
    {
      if vb != va && s.ptes[vb].present {
        assert s.ptes[vb].frame in s.mem;
      }
    }
  }

  /** Swapping in keeps all tables in step and changes the contents of no page. */
  lemma SwapInKeeps(s: Space, va: nat, f: nat, accessed: bool)
    requires Inv(s) && va in s.ptes && InBack(s, va) && f !in s.mem
    ensures var t := SwapIn(s, va, f, accessed);
            && Inv(t) && SameMemory(s, t)
            && CountIn(t.pages) == CountIn(s.pages) + 1 && CountBack(t.pages) == CountBack(s.pages) - 1
  {
    SwapInTable(s, va, f, accessed);
    SwapInFrames(s, va, f, accessed);
    SwapInSlots(s, va, f, accessed);
    SwapInContents(s, va, f, accessed);
    var i := s.entry[va];
    CountUpdate(s.pages, i, Refreshed(s.pages[i]));
  }

  // ---- accessed bits ----

  /** Only accessed bits differ. */
  ghost predicate SameButAccessed(p: map<nat, Pte>, q: map<nat, Pte>) {
    && (forall va {:trigger va in q} {:trigger va in p} :: va in q <==> va in p)
    && forall va {:trigger q[va]} :: va in p ==> q[va] == p[va].(accessed := q[va].accessed)
  }

  lemma AccessKeeps(s: Space, ptes: map<nat, Pte>)
    requires Inv(s) && SameButAccessed(s.ptes, ptes)
    ensures Inv(s.(ptes := ptes)) && SameMemory(s, s.(ptes := ptes))
  {
    AccessContents(s, ptes);
    SameTables(s, s.(ptes := ptes));
    AccessFrames(s, ptes);
  }

  lemma AccessFrames(s: Space, ptes: map<nat, Pte>)
    requires |s.pages| == MAX_TOTAL_PAGES && FramesOk(s) && SameButAccessed(s.ptes, ptes)
    ensures FramesOk(s.(ptes := ptes))
  {}

  lemma AccessContents(s: Space, ptes: map<nat, Pte>)
    requires SameButAccessed(s.ptes, ptes)
    ensures SameMemory(s, s.(ptes := ptes))
  {}

  // ---- growing and shrinking ----

  const NewRecord := Page(false, 0, false, 0, 0, 0xffff_ffff)

  /** mappages of a zeroed frame f at va. */
  ghost function Map(s: Space, va: nat, f: nat): Space {
    s.(ptes := s.ptes[va := Pte(true, false, false, f)], mem := s.mem[f := ZeroPage()], mapped := s.mapped[f := va])
  }

  /** t is s with the page va added, which reads as zeroes. */
  ghost predicate Added(s: Space, t: Space, va: nat) {
    && (forall vb {:trigger vb in t.ptes} {:trigger vb in s.ptes} :: vb in t.ptes <==> vb in s.ptes || vb == va)
    && Logical(t, va) == ZeroPage()
    && forall vb {:trigger Logical(t, vb)} {:trigger Logical(s, vb)} :: vb in s.ptes ==>
           Logical(t, vb) == Logical(s, vb)
  }

  /** t is s without the page va. */
  ghost predicate Removed(s: Space, t: Space, va: nat) {
    && (forall vb {:trigger vb in t.ptes} {:trigger vb in s.ptes} :: vb in t.ptes <==> vb in s.ptes && vb != va)
    && forall vb {:trigger Logical(t, vb)} {:trigger Logical(s, vb)} ::
         vb in s.ptes && vb != va ==> Logical(t, vb) == Logical(s, vb)
  }

  /** A page that is mapped without a record disturbs no other. */
  lemma MapKeeps(s: Space, va: nat, f: nat)
    requires Inv(s) && va !in s.ptes && va !in s.entry && f !in s.mem
    ensures Inv(Map(s, va, f)) && Added(s, Map(s, va, f), va)
  {
    SameTables(s, Map(s, va, f));
    MapFrames(s, va, f);
    MapContents(s, va, f);
  }

  lemma MapFrames(s: Space, va: nat, f: nat)
    requires |s.pages| == MAX_TOTAL_PAGES && FramesOk(s) && va !in s.entry && f !in s.mem
    ensures FramesOk(Map(s, va, f))
  {}

  lemma MapContents(s: Space, va: nat, f: nat)
    requires |s.pages| == MAX_TOTAL_PAGES && FramesOk(s) && va !in s.ptes && f !in s.mem
    ensures Added(s, Map(s, va, f), va)
  {}

  /** add_new_page of the mapped page va in record i. */
  ghost function Record(s: Space, va: nat, i: nat): Space
    requires i < |s.pages|
  {
    s.(pages := s.pages[i := NewRecord.(live := true, vaddr := va)], queue := s.queue + [va], entry := s.entry[va := i])
  }

  lemma RecordTables(s: Space, va: nat, i: nat)
    requires Inv(s) && va in s.ptes && va !in s.entry && i < MAX_TOTAL_PAGES && !s.pages[i].live && (va == 0 ==> i == 0)
    ensures TableOk(Record(s, va, i)) && FramesOk(Record(s, va, i))
  {
    RecordTable(s, va, i);
    RecordFrames(s, va, i);
  }

  lemma RecordTable(s: Space, va: nat, i: nat)
    requires TableOk(s) && va !in s.entry && i < MAX_TOTAL_PAGES && !s.pages[i].live && (va == 0 ==> i == 0)
    ensures TableOk(Record(s, va, i)) == true
  {}

  lemma RecordFrames(s: Space, va: nat, i: nat)
    requires TableOk(s) && FramesOk(s) && va in s.ptes && va !in s.entry && i < MAX_TOTAL_PAGES && !s.pages[i].live
    ensures FramesOk(Record(s, va, i)) == true
  {}

  lemma RecordSlots(s: Space, va: nat, i: nat)
    requires Inv(s) && va !in s.entry && i < MAX_TOTAL_PAGES && !s.pages[i].live
    ensures SlotsOk(Record(s, va, i))
  {
    CountUpdate(s.pages, i, NewRecord.(live := true, vaddr := va));
    assert RecordsHaveSlots(Record(s, va, i)) && SlotsHaveRecords(Record(s, va, i));
  }

  /** Recording a page in memory keeps all tables in step and changes the contents of no page. */
  lemma RecordKeeps(s: Space, va: nat, i: nat)
    requires Inv(s) && va in s.ptes && va !in s.entry && i < MAX_TOTAL_PAGES && !s.pages[i].live && (va == 0 ==> i == 0)
    ensures var t := Record(s, va, i);
            && Inv(t) && SameMemory(s, t)
            && CountIn(t.pages) == CountIn(s.pages) + 1 && CountBack(t.pages) == CountBack(s.pages)
  {
    RecordTables(s, va, i);
    RecordSlots(s, va, i);
    CountUpdate(s.pages, i, NewRecord.(live := true, vaddr := va));
    var t := Record(s, va, i);
    forall vb | vb in s.ptes
      ensures Logical(t, vb) == Logical(s, vb)
    {
      assert vb in s.entry ==> t.entry[vb] == s.entry[vb] != i;
    }
  }

  /** The first position of va in q, |q| if there is none. */
  ghost function IndexOf(q: seq<nat>, va: nat): (k: nat)
    ensures k <= |q| && (k < |q| ==> q[k] == va) && forall j :: 0 <= j < k ==> q[j] != va
  {
    if q == [] || q[0] == va then 0 else 1 + IndexOf(q[1..], va)
  }

  /** free_from_queue. */
  ghost function Unqueued(q: seq<nat>, va: nat): seq<nat> {
    var k := IndexOf(q, va);
    if k < |q| then q[..k] + q[k + 1..] else q
  }

  /** deallocuvm of the present page va: its record, its place in the queue, and its frame go. */
  ghost function Forget(s: Space, va: nat): Space {
    if va in s.entry && s.entry[va] < |s.pages| then
      s.(pages := s.pages[s.entry[va] := NewRecord], queue := Unqueued(s.queue, va), entry := s.entry - {va})
    else s.(queue := Unqueued(s.queue, va))
  }

  ghost function Unmap(s: Space, va: nat): Space
    requires va in s.ptes
  {
    var f := s.ptes[va].frame;
    s.(ptes := s.ptes - {va}, mem := s.mem - {f}, mapped := s.mapped - {f})
  }

  lemma UnmapKeeps(s: Space, va: nat)
    requires Inv(s) && va in s.ptes && s.ptes[va].present && va !in s.entry
    ensures Inv(Unmap(s, va)) && Removed(s, Unmap(s, va), va)
  {
    SameTables(s, Unmap(s, va));
    UnmapFrames(s, va);
    UnmapContents(s, va);
  }

  lemma UnmapFrames(s: Space, va: nat)
    requires |s.pages| == MAX_TOTAL_PAGES && FramesOk(s) && va in s.ptes && s.ptes[va].present && va !in s.entry
    ensures FramesOk(Unmap(s, va))
  {}

  lemma UnmapContents(s: Space, va: nat)
    requires |s.pages| == MAX_TOTAL_PAGES && FramesOk(s) && va in s.ptes && s.ptes[va].present
    ensures Removed(s, Unmap(s, va), va)
  {}

  lemma ForgetTables(s: Space, va: nat)
    requires Inv(s) && InMemory(s, va)
    ensures TableOk(Forget(s, va)) && FramesOk(Forget(s, va))
  {}

  lemma ForgetSlots(s: Space, va: nat)
    requires Inv(s) && InMemory(s, va)
    ensures SlotsOk(Forget(s, va))
  {
    CountUpdate(s.pages, s.entry[va], NewRecord);
    assert RecordsHaveSlots(Forget(s, va)) && SlotsHaveRecords(Forget(s, va));
  }

  lemma ForgetContents(s: Space, va: nat)
    requires Inv(s) && InMemory(s, va)
    ensures SameMemory(s, Forget(s, va))
  {
    var t := Forget(s, va);
    forall vb | vb in s.ptes
      ensures Logical(t, vb) == Logical(s, vb)
    {
      assert vb in t.entry ==> t.entry[vb] == s.entry[vb] != s.entry[va];
    }
  }

  lemma ForgetKeeps(s: Space, va: nat)
    requires Inv(s) && va in s.ptes && s.ptes[va].present
    ensures var t := Forget(s, va);
            && Inv(t) && SameMemory(s, t) && va !in t.entry && CountBack(t.pages) == CountBack(s.pages)
            && CountIn(t.pages) == CountIn(s.pages) - if va in s.entry then 1 else 0
  {
    if va in s.entry {
      assert !InBack(s, va) && InMemory(s, va);
      ForgetTables(s, va);
      ForgetSlots(s, va);
      ForgetContents(s, va);
      CountUpdate(s.pages, s.entry[va], NewRecord);
    } else {
      AnyQueue(s, Unqueued(s.queue, va));
    }
  }

  // ---- frames ----

  /** There is always a frame that is not in use. */
  lemma FrameLeft(mem: map<nat, Bytes>)
    ensures exists f: nat :: f !in mem
  {
    FrameBelow(mem.Keys, |mem.Keys| + 1);
  }

  lemma {:induction false} FrameBelow(used: set<nat>, n: nat)
    requires |used| < n
    ensures exists f: nat :: f < n && f !in used
  {
    if n - 1 in used {
      FrameBelow(used - {n - 1}, n - 1);
    }
  }
}
