/** vm.c: swapping the pages of one process between memory and its swap file, in the builds that pick
victims by second-chance FIFO and by NFUA. */
module Swapping {
  import opened Blocks
  import opened PageQueue
  import opened Paging
  import opened SecondChance
  import opened AddressSpace
  import opened Growth
  import opened Replacement
  import PR = PolicyRuns

  const PGFILE_FULL_ERR := PGSIZE * MAX_TOTAL_PAGES * 10

  const KERNBASE := 0x8000_0000

  function PgRoundDown(a: nat): (r: nat)
    ensures r % PGSIZE == 0 && r <= a < r + PGSIZE
  {
    a - a % PGSIZE
  }

  function PgRoundUp(a: nat): nat {
    PgRoundDown(a + PGSIZE - 1)
  }

  /** The number of pages of a process of size sz. */
  ghost function PagesOf(sz: nat): (n: nat)
    ensures n * PGSIZE >= sz && (n > 0 ==> (n - 1) * PGSIZE < sz)
  {
    if sz == 0 then 0 else 1 + PagesOf(if sz > PGSIZE then sz - PGSIZE else 0)
  }

  lemma RoundUpPages(sz: nat)
    ensures PgRoundUp(sz) == PagesOf(sz) * PGSIZE
  {}

  /** The loops over the pages of a process of size sz are at address a of page j. */
  ghost predicate AtPage(a: nat, j: nat, sz: nat) {
    a == j * PGSIZE && j <= PagesOf(sz) && (a < sz <==> j < PagesOf(sz))
  }

  lemma AtFirstPage(low: nat, sz: nat)
    requires low <= sz
    ensures AtPage(PgRoundUp(low), PagesOf(low), sz)
  {
    RoundUpPages(low);
  }

  lemma AtNextPage(a: nat, j: nat, sz: nat)
    requires AtPage(a, j, sz) && a < sz
    ensures AtPage(a + PGSIZE, j + 1, sz)
  {}

  /** The addresses of the queued pages. */
  ghost function Addrs(q: seq<Page>): (s: seq<nat>)
    ensures |s| == |q| && forall i :: 0 <= i < |s| ==> s[i] == q[i].vaddr
  {
    seq(|q|, i requires 0 <= i < |q| => q[i].vaddr)
  }

  /** What add_new_page comes to. */
  datatype Adding = Added | NoRecord | Panic

  class Process {
    const policy: Policy        // which of them the kernel is built with
    const pages: array<Page>
    const pq: Queue
    const offsets: array<bool>
    var ptes: map<nat, Pte>
    var mem: map<nat, Bytes>
    var swap: seq<byte>
    ghost var entry: map<nat, nat>
    ghost var owner: map<nat, nat>
    ghost var mapped: map<nat, nat>

    ghost predicate Shape()
      reads this, pq
    {
      && pages.Length == offsets.Length == MAX_TOTAL_PAGES && pages != pq.pages
    }

    /** The state as one value. */
    ghost function Abs(): Space
      reads this, pages, pq, pq.pages, offsets
      requires pq.Valid()
    {
      Space(pages[..], offsets[..], Addrs(pq.Contents()), ptes, mem, swap, entry, owner, mapped)
    }

    /** The queue is as the policy keeps it. */
    ghost predicate Queued()
      reads this, pages, pq, pq.pages, offsets
    {
      Shape() && pq.Valid() && QueueFits(policy, Abs())
    }

    ghost predicate Valid()
      reads this, pages, pq, pq.pages, offsets
    {
      Queued() && Inv(Abs())
    }

    /** A process without memory. */
    constructor (policy: Policy)
      ensures this.policy == policy && Valid() && Synced(Abs(), 0) && Excess(Abs()) == 0 && ptes == map[] && swap == []
      ensures PR.Reached(policy, Abs())
      ensures fresh(pages) && fresh(pq) && fresh(pq.pages) && fresh(offsets)
    {
      this.policy := policy;
      pages := new Page[MAX_TOTAL_PAGES](_ => NoPage);
      pq := new Queue();
      offsets := new bool[MAX_TOTAL_PAGES](_ => false);
      ptes, mem, swap := map[], map[], [];
      entry, owner, mapped := map[], map[], map[];
      new;
      NothingCounted(pages[..], offsets[..]);
      PR.EmptyReached(policy, Abs());
    }

    /** numOfPagedIn: the number of resident pages. */
    method NumOfPagedIn() returns (n: nat)
      requires pages.Length == MAX_TOTAL_PAGES
      ensures n == CountIn(pages[..])
    {
      n := 0;
      for i := 0 to MAX_TOTAL_PAGES
        invariant n == CountIn(pages[..i])
      {
        assert pages[..i + 1][..i] == pages[..i];
        if pages[i].live && !pages[i].inBack {
          n := n + 1;
        }
      }
      assert pages[..] == pages[..MAX_TOTAL_PAGES];
    }

    /** getFreePageOffset: the file offset of the first free slot. */
    method GetFreePageOffset() returns (o: nat)
      requires offsets.Length == MAX_TOTAL_PAGES
      ensures var k := FreeSlot(offsets[..]);
              o == if k < MAX_TOTAL_PAGES then PGSIZE * k else PGFILE_FULL_ERR
    {
      for i := 0 to MAX_TOTAL_PAGES
        invariant forall j :: 0 <= j < i ==> offsets[j]
      {
        if !offsets[i] {
          assert FreeSlot(offsets[..]) == i;
          return PGSIZE * i;
        }
      }
      return PGFILE_FULL_ERR;
    }

    /** The record of page va, as the searches over the table find it; -1 if there is none. */
    method Find(va: nat) returns (i: int)
      requires Shape() && pq.Valid() && TableOk(Abs())
      ensures i == if va in entry then entry[va] else -1
    {
      assert va in entry ==> pages[..][entry[va]] == pages[entry[va]];
      i := 0;
      while i < MAX_TOTAL_PAGES
        invariant 0 <= i <= MAX_TOTAL_PAGES
        invariant forall j :: 0 <= j < i ==> !(pages[j].live && pages[j].vaddr == va)
      {
        assert pages[..][i] == pages[i];
        if pages[i].live && pages[i].vaddr == va {
          return;
        }
        i := i + 1;
      }
      i := -1;
    }

    /** page_out_meta: record that page va is in the swap file at `offset`. */
    method PageOutMeta(va: nat, offset: nat) returns (ok: bool)
      requires Shape() && pq.Valid() && TableOk(Abs()) && offset / PGSIZE < MAX_TOTAL_PAGES
      modifies pages, offsets
      ensures ok <==> va in entry
      ensures ok ==>
                && pages[..] ==
                   old(pages[..])[entry[va] := old(pages[..])[entry[va]].(inBack := true, offset := offset)]
                && offsets[..] == old(offsets[..])[offset / PGSIZE := true]
    {
      var i := Find(va);
      ok := i >= 0;
      if ok {
        pages[i] := pages[i].(inBack := true, offset := offset);
        offsets[offset / PGSIZE] := true;
      }
    }

    /** The state is s, except for the queue, and page va is in memory. */
    ghost predicate Dequeued(s: Space, va: nat)
      reads this, pages, pq, pq.pages, offsets
    {
      Shape() && pq.Valid() && Inv(s) && Abs() == s.(queue := Addrs(pq.Contents())) && InMemory(s, va)
    }

    /** Copy page va to the swap file at offset o, update its record, free its frame and mark its
    page table entry paged out. */
    method Evict(va: nat, o: nat)
      requires Shape() && pq.Valid() && TableOk(Abs()) && va in entry && va in ptes && ptes[va].frame in mem
      requires o % PGSIZE == 0 && o / PGSIZE < MAX_TOTAL_PAGES && o <= |swap| && o + PGSIZE <= FM.MAXFILE * BSIZE
      modifies this, pages, offsets
      ensures entry == old(entry) && offsets[..] == old(offsets[..])[o / PGSIZE := true]
      ensures pages[..] == old(pages[..])[entry[va] := old(pages[..])[entry[va]].(inBack := true, offset := o)]
      ensures owner == old(owner)[o / PGSIZE := va] && mapped == old(mapped) - {old(ptes)[va].frame}
      ensures ptes == old(ptes)[va := old(ptes)[va].(present := false, pagedOut := true)]
      ensures mem == old(mem) - {old(ptes)[va].frame} && swap == FM.Splice(old(swap), o, old(mem)[old(ptes)[va].frame])
    {
      var e := ptes[va];
      WriteToSwapFile(mem[e.frame], o);
      var found := PageOutMeta(va, o);
      mem := mem - {e.frame};
      ptes := ptes[va := e.(present := false, pagedOut := true)];
      owner := owner[o / PGSIZE := va];
      mapped := mapped - {e.frame};
    }

    /** addPageToBack and the rest of pageOut, once the slot at offset o has been chosen. */
    method EvictTo(va: nat, o: nat, ghost s: Space, ghost t: Space)
      requires Dequeued(s, va) && o % PGSIZE == 0 && o / PGSIZE < MAX_TOTAL_PAGES
      requires o / PGSIZE * PGSIZE <= |s.swap| && o + PGSIZE <= FM.MAXFILE * BSIZE
      requires t == SwapOut(s, va, o / PGSIZE, Addrs(pq.Contents()))
      modifies this, pages, offsets
      ensures Abs() == t
    {
      Evict(va, o);
    }

    /** pageOut of page va, which the victim selection has taken from the queue; false where the
    kernel panics because the swap file is full.  The result of writing to the swap file is
    ignored, so it matters that the write cannot be refused. */
    method PageOut(va: nat, ghost s: Space) returns (ok: bool)
      requires Dequeued(s, va) && CountBack(s.pages) <= MAX_PSYC_PAGES
      modifies this, pages, offsets
      ensures ok && FreeSlot(s.offsets) < MAX_TOTAL_PAGES && FreeSlot(s.offsets) * PGSIZE <= |s.swap|
      ensures Abs() == SwapOut(s, va, FreeSlot(s.offsets), old(Addrs(pq.Contents())))
    {
      FreeSlotFits(s);
      var o := GetFreePageOffset();
      ok := o != PGFILE_FULL_ERR;
      if ok {
        assert o / PGSIZE == FreeSlot(s.offsets);
        ghost var t := SwapOut(s, va, o / PGSIZE, Addrs(pq.Contents()));
        EvictTo(va, o, s, t);
      }
    }

    /** writeToSwapFile: a write at offset o, which filewrite carries out if it starts within the file
    and ends within the largest file, and otherwise refuses. */
    method WriteToSwapFile(buffer: seq<byte>, o: nat)
      modifies this`swap
      ensures o <= |old(swap)| && o + |buffer| <= FM.MAXFILE * BSIZE ==> swap == FM.Splice(old(swap), o, buffer)
    {
      if o <= |swap| && o + |buffer| <= FM.MAXFILE * BSIZE {
        swap := FM.Splice(swap, o, buffer);
      }
    }

    /** getPageFromBack: the bytes of the swapped page va. */
    method GetPageFromBack(va: nat) returns (data: Bytes)
      requires Shape() && pq.Valid() && Inv(Abs()) && InBack(Abs(), va)
      ensures var k := pages[entry[va]].offset / PGSIZE;
              (k + 1) * PGSIZE <= |swap| && data == swap[k * PGSIZE..k * PGSIZE + PGSIZE]
    {
      var i := Find(va);
      var o := pages[i].offset;
      assert pages[..][i] == pages[i] && owner[o / PGSIZE] == va;
      data := swap[o..o + PGSIZE];
    }

    /** page_in_meta: page va is no longer in the swap file; it joins the queue; false where the kernel panics
    because the queue is full.  The search compares addresses only, so it could stop at an unused record
    when va is 0, were page 0 not in record 0. */
    method PageInMeta(va: nat) returns (ok: bool)
      requires Shape() && pq.Valid() && TableOk(Abs()) && va in entry
      requires pages[entry[va]].offset / PGSIZE < MAX_TOTAL_PAGES
      modifies pages, offsets, pq, pq.pages
      ensures pq.Valid() && (ok <==> |old(pq.Contents())| < MAX_TOTAL_PAGES)
      ensures ok ==>
              var p := Refreshed(old(pages[entry[va]]));
              && pages[..] == old(pages[..])[entry[va] := p]
              && offsets[..] == old(offsets[..])[p.offset / PGSIZE := false]
              && Addrs(pq.Contents()) == old(Addrs(pq.Contents())) + [va]
    {
      var i := 0;
      assert pages[..][entry[va]] == pages[entry[va]];
      while i < MAX_TOTAL_PAGES && pages[i].vaddr != va
        invariant 0 <= i <= entry[va]
      {
        i := i + 1;
      }
      assert i == entry[va] by {
        assert pages[..][i] == pages[i];
      }
      pages[i] := pages[i].(inBack := false);
      offsets[pages[i].offset / PGSIZE] := false;
      pages[i] := pages[i].(age := 0, age2 := 0xffff_ffff);
      ok := pq.Enqueue(pages[i]);
    }

    /** mappages and the rest of pageIn, without the proof that the tables stay in step. */
    method Load(va: nat, f: nat, data: Bytes, accessed: bool) returns (ok: bool)
      requires Shape() && pq.Valid() && TableOk(Abs()) && va in entry
      requires pages[entry[va]].offset / PGSIZE < MAX_TOTAL_PAGES
      modifies this, pages, offsets, pq, pq.pages
      ensures pq.Valid() && entry == old(entry) && swap == old(swap) && (ok <==> |old(pq.Contents())| < MAX_TOTAL_PAGES)
      ensures ok ==>
              var p := Refreshed(old(pages[entry[va]]));
              && pages[..] == old(pages[..])[entry[va] := p]
              && offsets[..] == old(offsets[..])[p.offset / PGSIZE := false]
              && owner == old(owner) - {p.offset / PGSIZE}
      ensures ok ==> Addrs(pq.Contents()) == old(Addrs(pq.Contents())) + [va]
      ensures ptes == old(ptes)[va := Pte(true, false, accessed, f)] && mem == old(mem)[f := data]
      ensures mapped == old(mapped)[f := va]
    {
      ghost var k := pages[entry[va]].offset / PGSIZE;
      ok := PageInMeta(va);
      ptes := ptes[va := Pte(true, false, accessed, f)];
      mem := mem[f := data];
      owner := owner - {k};
      mapped := mapped[f := va];
    }

    /** pageIn of the swapped page va into frame f, which kalloc returned; false if the queue is full. */
    method PageIn(va: nat, f: nat, accessed: bool) returns (ok: bool)
      requires Shape() && pq.Valid() && Inv(Abs()) && va in ptes && InBack(Abs(), va)
      modifies this, pages, offsets, pq, pq.pages
      ensures pq.Valid() && (ok <==> |old(pq.Contents())| < MAX_TOTAL_PAGES)
      ensures ok ==> Abs() == SwapIn(old(Abs()), va, f, accessed)
    {
      ghost var s := Abs();
      assert pages[..][entry[va]] == pages[entry[va]];
      ghost var t := SwapIn(s, va, f, accessed);
      var data := GetPageFromBack(va);
      ok := Load(va, f, data, accessed);
      assert ok ==> Abs() == t;
    }

    /** select_page_to_back, SCFIFO: pages at the head of the queue that have been accessed lose their
    accessed bit and go to the end; the first other one is the victim. */
    method SecondChance() returns (va: nat)
      requires Shape() && pq.Valid() && pq.Contents() != []
      requires Mapped(Addrs(pq.Contents()), ptes)
      requires forall i, j :: 0 <= i < j < |pq.Contents()| ==> Addrs(pq.Contents())[i] != Addrs(pq.Contents())[j]
      modifies this`ptes, pq, pq.pages
      ensures pq.Valid()
      ensures var q := old(Addrs(pq.Contents()));
              && ptes == AllCooled(q, old(ptes)) && va == Victim(q, old(ptes))
              && Addrs(pq.Contents()) == Spared(q, old(ptes))
    {
      ghost var q, p, k := Addrs(pq.Contents()), ptes, 0;
      assert Cooled(p, q[..0]) == p && Rotated(q, 0) == q;
      while true
        invariant pq.Valid() && 0 <= k <= |q| && Addrs(pq.Contents()) == Rotated(q, k)
        invariant ptes == Cooled(p, q[..k])
        invariant forall j :: 0 <= j < k ==> p[q[j]].accessed
        decreases |q| - k
      {
        HeadAccessed(q, p, k);
        var current := TakeHead();
        va := current.vaddr;
        if ptes[va].accessed {
          NextChance(q, p, k);
          ptes := ptes[va := ptes[va].(accessed := false)];
          PutBack(current);
          k := k + 1;
        } else {
          Chosen(q, p, k);
          return;
        }
      }
    }

    method TakeHead() returns (p: Page)
      requires Shape() && pq.Valid() && pq.Contents() != []
      modifies pq, pq.pages
      ensures pq.Valid() && p.live && p.vaddr == old(Addrs(pq.Contents()))[0] && |pq.Contents()| < MAX_TOTAL_PAGES
      ensures Addrs(pq.Contents()) == old(Addrs(pq.Contents()))[1..]
    {
      p := pq.Dequeue();
    }

    method PutBack(p: Page)
      requires Shape() && pq.Valid() && p.live && |pq.Contents()| < MAX_TOTAL_PAGES
      modifies pq, pq.pages
      ensures pq.Valid() && Addrs(pq.Contents()) == old(Addrs(pq.Contents())) + [p.vaddr]
    {
      var ok := pq.Enqueue(p);
    }

    /** select_page_to_back, NFUA: the first of the pages in memory with the least age.  What leaves the queue
    is not that page but the head. */
    method LeastAge() returns (va: nat)
      requires Shape() && pq.Valid() && pq.Contents() != [] && CountIn(pages[..]) > 0
      modifies pq, pq.pages
      ensures pq.Valid() && Addrs(pq.Contents()) == old(Addrs(pq.Contents()))[1..]
      ensures Coldest(pages[..]) < MAX_TOTAL_PAGES && va == pages[Coldest(pages[..])].vaddr
    {
      SomeIn(pages[..]);
      var i := 0;
      while i < MAX_TOTAL_PAGES && !(pages[i].live && !pages[i].inBack)
        invariant 0 <= i <= Coldest(pages[..]) && forall k :: 0 <= k < i ==> !Resident(pages[k])
      {
        i := i + 1;
      }
      var min := pages[i];
      ghost var m := i;
      while i < MAX_TOTAL_PAGES
        invariant m <= i <= MAX_TOTAL_PAGES && 0 <= m < MAX_TOTAL_PAGES && min == pages[m] && Resident(min)
        invariant forall k :: 0 <= k < i && Resident(pages[k]) ==> min.age <= pages[k].age
        invariant forall k :: 0 <= k < m && Resident(pages[k]) ==> min.age < pages[k].age
      {
        if pages[i].live && !pages[i].inBack && pages[i].age < min.age {
          min := pages[i];
          m := i;
        }
        i := i + 1;
      }
      assert Picked(pages[..], m);
      PickedIsColdest(pages[..], m);
      var head := TakeHead();
      return min.vaddr;
    }

    /** select_page_to_back. */
    method Select() returns (va: nat)
      requires Valid() && CountIn(pages[..]) > 0
      modifies this`ptes, pq, pq.pages
      ensures pq.Valid()
      ensures var c := Choose(policy, old(Abs()));
              va == c.va && ptes == c.ptes && Addrs(pq.Contents()) == c.rest
    {
      match policy
      case Scfifo =>
        QueueMapped(Abs());
        va := SecondChance();
      case Nfua =>
        va := LeastAge();
    }

    /** With MAX_PSYC_PAGES pages in memory, swap out the page the selection picks. */
    method MakeRoom() returns (ok: bool)
      requires Valid()
      modifies this, pages, offsets, pq, pq.pages
      ensures ok && pq.Valid() && Abs() == RoomBy(policy, old(Abs()))
    {
      ok := true;
      var n := NumOfPagedIn();
      if n == MAX_PSYC_PAGES {
        ghost var s := Abs();
        RoomBySwaps(policy, s);
        var va := Select();
        ok := PageOut(va, s.(ptes := Choose(policy, s).ptes));
      }
    }

    /** safe_page_in, which the page fault handler calls for an address in a page that is swapped out;
    frame is what kalloc returns.  False where the kernel panics because the queue is full. */
    method SafePageIn(addr: nat, frame: nat, accessed: bool, ghost n: nat) returns (ok: bool)
      requires Valid() && Sized(Abs(), n) && PagedOut(Abs(), PgRoundDown(addr)) && frame !in mem
      modifies this, pages, offsets, pq, pq.pages
      ensures ok <==> |old(pq.Contents())| < MAX_TOTAL_PAGES || old(CountIn(pages[..])) == MAX_PSYC_PAGES
      ensures old(Excess(Abs())) <= MAX_PSYC_PAGES ==> ok
      ensures ok ==> pq.Valid() && Abs() == FaultBy(policy, old(Abs()), PgRoundDown(addr), frame, accessed)
      ensures ok ==> Valid() && Sized(Abs(), n) && Excess(Abs()) == old(Excess(Abs()))
      ensures ok ==> PR.Onward(policy, old(Abs()), Abs()) == true
    {
      ghost var s, va := Abs(), PgRoundDown(addr);
      MayChoose(policy, s);
      RoomKeeps(s, Choose(policy, s));
      RoomKeepsOut(s, Choose(policy, s), va);
      RoomQueue(policy, s);
      RoomLength(policy, s);
      FaultQueue(policy, s, va, frame, accessed);
      FaultSized(s, Choose(policy, s), va, frame, accessed, n);
      ok := MakeRoom();
      ok := PageIn(PgRoundDown(addr), frame, accessed);
      if ok {
        PR.FaultOnward(policy, s, va, frame, accessed);
      }
    }

    /** add_new_page: record page va in the first unused record and queue it.  It panics if it meets a record
    of va on the way, or if the queue is full.  That there is no unused record the caller ignores. */
    method AddNewPage(va: nat) returns (r: Adding)
      requires Shape() && pq.Valid()
      modifies pages, pq, pq.pages
      ensures r.Panic? <==> !Addable(old(pages[..]), |old(pq.Contents())|, va)
      ensures r.NoRecord? ==>
                && FreeRecord(old(pages[..])) == MAX_TOTAL_PAGES && pq.Valid()
                && pages[..] == old(pages[..]) && Addrs(pq.Contents()) == old(Addrs(pq.Contents()))
      ensures r.Added? ==>
                && FreeRecord(old(pages[..])) < MAX_TOTAL_PAGES && pq.Valid()
                && pages[..] == old(pages[..])[FreeRecord(old(pages[..])) := NewRecord.(live := true, vaddr := va)]
                && Addrs(pq.Contents()) == old(Addrs(pq.Contents())) + [va]
    {
      var toAdd := NewRecord.(live := true, vaddr := va);
      ghost var was := pages[..];
      for i := 0 to MAX_TOTAL_PAGES
        invariant unchanged(pages) && unchanged(pq) && unchanged(pq.pages)
        invariant forall j :: 0 <= j < i ==> pages[j].live && pages[j].vaddr != va
      {
        assert was[i] == pages[i];
        if pages[i].live && pages[i].vaddr == va {
          assert FreeRecord(was) > i;
          return Panic;
        }
        if !pages[i].live {
          assert FreeRecord(was) == i;
          pages[i] := toAdd;
          var ok := pq.Enqueue(toAdd);
          return if ok then Added else Panic;
        }
      }
      assert FreeRecord(was) == MAX_TOTAL_PAGES;
      return NoRecord;
    }

    /** kalloc: some frame that is not in use. */
    method Kalloc() returns (f: nat)
      ensures f !in mem
    {
      FrameLeft(mem);
      f :| f !in mem;
    }

    /** mappages and add_new_page for page va in frame f; false where one of them panics. */
    method MapNew(va: nat, f: nat, ghost t: Space) returns (ok: bool)
      requires Shape() && pq.Valid() && t == MapPage(Abs(), va, f)
      modifies this, pages, pq, pq.pages
      ensures ok <==> old(!IsPresent(ptes, va) && Addable(pages[..], |pq.Contents()|, va))
      ensures ok ==> pq.Valid() && Abs() == t
    {
      if va in ptes && ptes[va].present {
        return false;
      }
      mem := mem[f := ZeroPage()];
      ptes := ptes[va := Pte(true, false, false, f)];
      mapped := mapped[f := va];
      ghost var i := FreeRecord(pages[..]);
      var r := AddNewPage(va);
      if r.Added? {
        entry := entry[va := i];
      }
      ok := !r.Panic?;
    }

    /** allocuvm for the one page va; false where the kernel panics. */
    method AllocPage(va: nat) returns (ok: bool, ghost f: nat)
      requires Valid()
      modifies this, pages, offsets, pq, pq.pages
      ensures f !in RoomBy(policy, old(Abs())).mem
      ensures ok <==>
                var r := RoomBy(policy, old(Abs())); !IsPresent(r.ptes, va) && Addable(r.pages, |r.queue|, va)
      ensures ok ==> pq.Valid() && Abs() == MapPage(RoomBy(policy, old(Abs())), va, f)
    {
      ghost var s := Abs();
      ok := MakeRoom();
      var frame := Kalloc();
      f := frame;
      ok := MapNew(va, frame, MapPage(Abs(), va, frame));
    }

    /** One page of the loop of allocuvm.  P is any property that growing by a page keeps. */
    method GrowOne(a: nat, ghost j: nat, ghost left: map<nat, nat>, ghost e: int, ghost P: (Space, nat) -> bool)
        returns (ok: bool)
      requires a == j * PGSIZE && Shape() && pq.Valid() && P(Abs(), j) && KeptByGrowing(policy, left, e, P)
      modifies this, pages, offsets, pq, pq.pages
      ensures ok ==> pq.Valid() && P(Abs(), j + 1)
      ensures a in left ==> !ok
      ensures a !in left && e <= MAX_PSYC_PAGES ==> ok
    {
      ghost var t, f := Abs(), 0;
      assert At(P, t, j);
      NextAddable(policy, t, j);
      ok, f := AllocPage(a);
      assert ok ==> P(MapPage(RoomBy(policy, t), j * PGSIZE, f), j + 1);
    }

    /** allocuvm, where kalloc always finds a frame.  It panics if it comes to a page that is left over from
    larger times; and, under NFUA, if the queue is full. */
    method AllocUvm(oldsz: nat, newsz: nat) returns (r: nat, panic: bool)
      requires Valid() && Sized(Abs(), PagesOf(oldsz))
      modifies this, pages, offsets, pq, pq.pages
      ensures !panic ==> Valid() && Excess(Abs()) == old(Excess(Abs())) && PR.Onward(policy, old(Abs()), Abs()) == true
      ensures var grows := oldsz <= newsz < KERNBASE;
              var left := SomeLeft(old(entry), PagesOf(oldsz), PagesOf(newsz));
              && (grows && left ==> panic)
              && (panic && old(Excess(Abs())) <= MAX_PSYC_PAGES ==> grows && left)
              && (!panic && grows ==> Grown(old(Abs()), Abs(), PagesOf(oldsz), PagesOf(newsz)))
              && (!grows ==> !panic)
              && (!grows && !panic ==> Abs() == old(Abs()))
      ensures !panic ==> r == if newsz >= KERNBASE then 0 else if newsz < oldsz then oldsz else newsz
    {
      panic := false;
      if newsz >= KERNBASE {
        return 0, false;
      }
      if newsz < oldsz {
        return oldsz, false;
      }
      ghost var s, m := Abs(), PagesOf(oldsz);
      AtFirstPage(oldsz, newsz);
      GrowingStarts(policy, s, m);
      var ok := GrowTo(PgRoundUp(oldsz), newsz, m, s.entry, Excess(s), Growing(policy, s, m));
      if ok {
        NoneLeft(s, Abs(), m, PagesOf(newsz));
      }
      return newsz, !ok;
    }

    /** The loop of allocuvm. */
    method GrowTo(start: nat, newsz: nat, ghost first: nat, ghost left: map<nat, nat>, ghost e: int,
                  ghost P: (Space, nat) -> bool) returns (ok: bool)
      requires Shape() && pq.Valid() && P(Abs(), first) && KeptByGrowing(policy, left, e, P)
      requires AtPage(start, first, newsz)
      modifies this, pages, offsets, pq, pq.pages
      ensures ok ==> pq.Valid() && P(Abs(), PagesOf(newsz))
      ensures !ok && e <= MAX_PSYC_PAGES ==> SomeLeft(left, first, PagesOf(newsz))
    {
      var a := start;
      ghost var j: nat := first;
      ok := true;
      while a < newsz
        invariant first <= j && pq.Valid() && P(Abs(), j) && AtPage(a, j, newsz)
        decreases newsz - a
      {
        LeftAt(left, j, first, PagesOf(newsz));
        ok := GrowOne(a, j, left, e, P);
        if !ok {
          return;
        }
        AtNextPage(a, j, newsz);
        a := a + PGSIZE;
        j := j + 1;
      }
    }

    /** age_process_pages. */
    method AgeProcessPages()
      requires Valid()
      modifies this`ptes, pages
      ensures pq.Valid() && Ticked(old(Abs()), pages[..], ptes)
      ensures forall va {:trigger ptes[va]} :: va in old(ptes) ==>
                va in ptes && ptes[va] == if InMemory(old(Abs()), va) then old(ptes)[va].(accessed := false)
                                          else old(ptes)[va]
      ensures Abs() == old(Abs()).(pages := pages[..], ptes := ptes) && PR.Onward(policy, old(Abs()), Abs()) == true
    {
      ghost var s := Abs();
      for i := 0 to MAX_TOTAL_PAGES
        invariant TickedUpTo(s, pages[..], ptes, i)
      {
        TickNext(s, pages[..], ptes, i);
        if pages[i].live && !pages[i].inBack {
          var va := pages[i].vaddr;
          pages[i] := AgedPage(pages[i], ptes[va].accessed);
          ptes := ptes[va := ptes[va].(accessed := false)];
        }
      }
      PR.TickOnward(policy, s, pages[..], ptes);
    }

    /** Clear the record of page va, if there is one. */
    method ForgetRecord(va: nat)
      requires Shape() && pq.Valid() && TableOk(Abs()) == true
      modifies pages
      ensures pages[..] == if va in entry then old(pages[..])[entry[va] := NewRecord] else old(pages[..])
    {
      ghost var was, e := pages[..], if va in entry then entry[va] else MAX_TOTAL_PAGES;
      for i := 0 to MAX_TOTAL_PAGES
        invariant pages[..] == if i <= e then was else was[e := NewRecord]
      {
        assert pages[..][i] == pages[i] && was[i] == if i == e then was[e] else pages[i];
        if pages[i].live && pages[i].vaddr == va {
          pages[i] := NewRecord;
        }
      }
    }

    method Unqueue(va: nat)
      requires Shape() && pq.Valid()
      modifies pq, pq.pages
      ensures pq.Valid() == true && Addrs(pq.Contents()) == Unqueued(old(Addrs(pq.Contents())), va)
    {
      ghost var c := pq.Contents();
      FirstIsIndex(c, va);
      if FirstAt(c, va) < |c| {
        AddrsCut(c, FirstAt(c, va));
      }
      pq.Remove(va);
    }

    /** deallocuvm for the address va. */
    method DeallocPage(va: nat)
      requires Shape() && pq.Valid() && TableOk(Abs()) == true
      modifies this, pages, pq, pq.pages
      ensures pq.Valid() == true && Abs() == DropPage(old(Abs()), va)
    {
      if va in ptes && ptes[va].present {
        var f := ptes[va].frame;
        ghost var s := Abs();
        ForgetRecord(va);
        Unqueue(va);
        DropParts(s, va, pages[..], Addrs(pq.Contents()));
        mem := mem - {f};
        ptes := ptes - {va};
        entry := entry - {va};
        mapped := mapped - {f};
      }
    }

    /** deallocuvm.  Pages that are swapped out keep their records, slots and page table entries. */
    method DeallocUvm(oldsz: nat, newsz: nat) returns (r: nat)
      requires Valid() && Sized(Abs(), PagesOf(oldsz))
      modifies this, pages, pq, pq.pages
      ensures Valid() && r == (if newsz < oldsz then newsz else oldsz) && Sized(Abs(), PagesOf(r))
      ensures newsz >= oldsz ==> Abs() == old(Abs())
      ensures newsz < oldsz ==> Shrunk(old(Abs()), Abs(), PagesOf(newsz), PagesOf(oldsz))
      ensures PR.Onward(policy, old(Abs()), Abs()) == true
    {
      if newsz >= oldsz {
        return oldsz;
      }
      ghost var s, m, n := Abs(), PagesOf(newsz), PagesOf(oldsz);
      AtFirstPage(newsz, oldsz);
      ShrinkingStarts(policy, s, m, n);
      ShrinkFrom(PgRoundUp(newsz), oldsz, m, Shrinking(policy, s, m));
      ShrunkSized(s, Abs(), m, n);
      return newsz;
    }

    method ShrinkOne(a: nat, ghost j: nat, ghost n: nat, ghost P: (Space, nat) -> bool)
      requires a == j * PGSIZE && j < n && Shape() && pq.Valid() && P(Abs(), j) && KeptByShrinking(n, P)
      modifies this, pages, pq, pq.pages
      ensures pq.Valid() && P(Abs(), j + 1)
    {
      assert At(P, Abs(), j);
      DeallocPage(a);
    }

    /** The loop of deallocuvm.  P is any property that dropping a page keeps. */
    method ShrinkFrom(start: nat, oldsz: nat, ghost m: nat, ghost P: (Space, nat) -> bool)
      requires Shape() && pq.Valid() && P(Abs(), m) && KeptByShrinking(PagesOf(oldsz), P) && AtPage(start, m, oldsz)
      modifies this, pages, pq, pq.pages
      ensures pq.Valid() && P(Abs(), PagesOf(oldsz))
    {
      var a := start;
      ghost var j: nat := m;
      while a < oldsz
        invariant pq.Valid() && P(Abs(), j) && AtPage(a, j, oldsz)
        decreases oldsz - a
      {
        ShrinkOne(a, j, PagesOf(oldsz), P);
        AtNextPage(a, j, oldsz);
        a := a + PGSIZE;
        j := j + 1;
      }
    }
  }

  // ---- what the loops keep ----

  ghost predicate At(P: (Space, nat) -> bool, t: Space, j: nat) {
    P(t, j)
  }

  /** P of the memory and the number of pages survives growing by a page; where it holds, the excess of the
  queue is e, and the next page has a record just if it is one of `left`. */
  ghost predicate KeptByGrowing(p: Policy, left: map<nat, nat>, e: int, P: (Space, nat) -> bool) {
    forall t: Space, j: nat {:trigger At(P, t, j)} :: At(P, t, j) ==> GrowsAt(p, left, e, P, t, j)
  }

  ghost predicate GrowsAt(p: Policy, left: map<nat, nat>, e: int, P: (Space, nat) -> bool, t: Space, j: nat) {
    && Sized(t, j) && QueueFits(p, t) && Excess(t) == e && (j * PGSIZE in t.entry <==> j * PGSIZE in left)
    && StepKeeps(p, P, t, j)
  }

  /** Once room is made, the queue has room for page j, if that is to be queued. */
  ghost predicate QueueHas(p: Policy, t: Space, j: nat) {
    j < MAX_TOTAL_PAGES ==> |RoomBy(p, t).queue| < MAX_TOTAL_PAGES
  }

  ghost predicate StepKeeps(p: Policy, P: (Space, nat) -> bool, t: Space, j: nat) {
    forall f: nat {:trigger MapPage(RoomBy(p, t), j * PGSIZE, f)} ::
      j * PGSIZE !in t.entry && f !in RoomBy(p, t).mem && QueueHas(p, t, j) ==>
        P(MapPage(RoomBy(p, t), j * PGSIZE, f), j + 1)
  }

  ghost function Growing(p: Policy, s: Space, m: nat): (Space, nat) -> bool {
    (t: Space, j: nat) => GrowState(p, s, m, t, j)
  }

  ghost predicate GrowState(p: Policy, s: Space, m: nat, t: Space, j: nat) {
    Grown(s, t, m, j) && QueueFits(p, t) && Excess(t) == Excess(s) && PR.Onward(p, s, t) == true
  }

  lemma GrowingStarts(p: Policy, s: Space, m: nat)
    requires Sized(s, m) && QueueFits(p, s)
    ensures Growing(p, s, m)(s, m) && KeptByGrowing(p, s.entry, Excess(s), Growing(p, s, m))
  {
    GrownNone(s, m);
    forall t: Space, j: nat {:trigger At(Growing(p, s, m), t, j)} | At(Growing(p, s, m), t, j)
      ensures GrowsAt(p, s.entry, Excess(s), Growing(p, s, m), t, j) == true
    {
      assert GrowState(p, s, m, t, j);
      GrowingStep(p, s, m, t, j);
    }
  }

  lemma GrowingStep(p: Policy, s: Space, m: nat, t: Space, j: nat)
    requires GrowState(p, s, m, t, j)
    ensures GrowsAt(p, s.entry, Excess(s), Growing(p, s, m), t, j) == true
  {
    LeftoverStays(s, t, m, j);
    GrowingKeeps(p, s, m, t, j);
  }

  lemma GrowingKeeps(p: Policy, s: Space, m: nat, t: Space, j: nat)
    requires GrowState(p, s, m, t, j)
    ensures StepKeeps(p, Growing(p, s, m), t, j)
  {
    forall f: nat {:trigger MapPage(RoomBy(p, t), j * PGSIZE, f)}
      | j * PGSIZE !in t.entry && f !in RoomBy(p, t).mem && QueueHas(p, t, j)
      ensures Growing(p, s, m)(MapPage(RoomBy(p, t), j * PGSIZE, f), j + 1)
    {
      GrowingKept(p, s, m, t, f, j);
    }
  }

  lemma GrowingKept(p: Policy, s: Space, m: nat, t: Space, f: nat, j: nat)
    requires GrowState(p, s, m, t, j) && j * PGSIZE !in t.entry && f !in RoomBy(p, t).mem && QueueHas(p, t, j)
    ensures Growing(p, s, m)(MapPage(RoomBy(p, t), j * PGSIZE, f), j + 1)
  {
    GrowOneKeeps(p, s, t, f, m, j);
  }

  /** P of the memory and the number of pages survives dropping one of the first n pages. */
  ghost predicate KeptByShrinking(n: nat, P: (Space, nat) -> bool) {
    forall t: Space, j: nat {:trigger At(P, t, j)} :: At(P, t, j) ==> ShrinksAt(n, P, t, j)
  }

  ghost predicate ShrinksAt(n: nat, P: (Space, nat) -> bool, t: Space, j: nat) {
    TableOk(t) && (j < n ==> P(DropPage(t, j * PGSIZE), j + 1))
  }

  ghost function Shrinking(p: Policy, s: Space, m: nat): (Space, nat) -> bool {
    (t: Space, j: nat) => ShrinkState(p, s, m, t, j)
  }

  ghost predicate ShrinkState(p: Policy, s: Space, m: nat, t: Space, j: nat) {
    Shrunk(s, t, m, j) && QueueFits(p, t) && PR.Onward(p, s, t) == true
  }

  lemma ShrinkingStarts(p: Policy, s: Space, m: nat, n: nat)
    requires Sized(s, n) && QueueFits(p, s)
    ensures Shrinking(p, s, m)(s, m) && KeptByShrinking(n, Shrinking(p, s, m))
  {
    ShrunkNone(s, m);
    forall t: Space, j: nat {:trigger At(Shrinking(p, s, m), t, j)} | At(Shrinking(p, s, m), t, j)
      ensures ShrinksAt(n, Shrinking(p, s, m), t, j) == true
    {
      assert ShrinkState(p, s, m, t, j);
      ShrinkingStep(p, s, m, n, t, j);
    }
  }

  lemma ShrinkingStep(p: Policy, s: Space, m: nat, n: nat, t: Space, j: nat)
    requires Sized(s, n) && ShrinkState(p, s, m, t, j)
    ensures ShrinksAt(n, Shrinking(p, s, m), t, j) == true
  {
    if j < n {
      ShrinkOneKeeps(p, s, t, m, j, n);
    }
  }

  lemma DropParts(s: Space, va: nat, pages: seq<Page>, queue: seq<nat>)
    requires va in s.ptes && s.ptes[va].present && (va in s.entry ==> s.entry[va] < |s.pages|)
    requires pages == if va in s.entry then s.pages[s.entry[va] := NewRecord] else s.pages
    requires queue == Unqueued(s.queue, va)
    ensures var f := s.ptes[va].frame;
            DropPage(s, va) == Space(pages, s.offsets, queue, s.ptes - {va}, s.mem - {f}, s.swap, s.entry - {va},
                                     s.owner, s.mapped - {f})
  {
    assert va !in s.entry ==> s.entry - {va} == s.entry;
  }

  ghost predicate IsPresent(ptes: map<nat, Pte>, va: nat) {
    va in ptes && ptes[va].present
  }

  /** add_new_page of va does not panic, with so many pages queued. */
  ghost predicate Addable(pages: seq<Page>, queued: nat, va: nat) {
    !Clash(pages, va) && (FreeRecord(pages) < |pages| ==> queued < MAX_TOTAL_PAGES)
  }

  /** Some page of m to n already has a record. */
  ghost predicate SomeLeft(entry: map<nat, nat>, m: nat, n: nat) {
    exists va {:trigger Between(va, m, n)} :: va in entry && Between(va, m, n)
  }

  lemma LeftAt(entry: map<nat, nat>, j: nat, m: nat, n: nat)
    requires m <= j < n
    ensures j * PGSIZE in entry ==> SomeLeft(entry, m, n)
  {
    PageNoOf(j);
    assert Between(j * PGSIZE, m, n);
  }

  lemma NoneLeft(s: Space, t: Space, m: nat, n: nat)
    requires MoreMapped(s.entry, s.ptes, t.entry, t.ptes, m, n)
    ensures !SomeLeft(s.entry, m, n)
  {}

  lemma NextAddable(p: Policy, s: Space, n: nat)
    requires Inv(s) && QueueFits(p, s) && Sized(s, n)
    ensures var r := RoomBy(p, s); n * PGSIZE in s.entry ==> !Addable(r.pages, |r.queue|, n * PGSIZE)
    ensures var r := RoomBy(p, s);
            n * PGSIZE !in s.entry && Excess(s) <= MAX_PSYC_PAGES ==>
              !IsPresent(r.ptes, n * PGSIZE) && Addable(r.pages, |r.queue|, n * PGSIZE)
    ensures var r := RoomBy(p, s); Addable(r.pages, |r.queue|, n * PGSIZE) ==> QueueHas(p, s, n)
  {
    NextRecord(s, n);
    MayChoose(p, s);
    RoomKeeps(s, Choose(p, s));
    RoomSameRecord(s, Choose(p, s));
    RoomQueue(p, s);
  }

  lemma GrowOneKeeps(p: Policy, s: Space, t: Space, f: nat, m: nat, j: nat)
    requires GrowState(p, s, m, t, j) && j * PGSIZE !in t.entry && f !in RoomBy(p, t).mem && QueueHas(p, t, j)
    ensures GrowState(p, s, m, MapPage(RoomBy(p, t), j * PGSIZE, f), j + 1)
  {
    MayChoose(p, t);
    GrownNext(s, t, Choose(p, t), f, m, j);
    NextRecord(t, j);
    PageNoOf(j);
    GrowQueue(p, t, j * PGSIZE, f);
    PR.GrowOnward(p, t, j, f);
    PR.OnwardTrans(p, s, t, MapPage(RoomBy(p, t), j * PGSIZE, f));
  }

  lemma ShrinkOneKeeps(p: Policy, s: Space, t: Space, m: nat, j: nat, n: nat)
    requires ShrinkState(p, s, m, t, j) && Sized(s, n) && j < n
    ensures ShrinkState(p, s, m, DropPage(t, j * PGSIZE), j + 1)
  {
    var va := j * PGSIZE;
    PageNoOf(j);
    assert Below(va, n);
    ShrunkNext(s, t, m, j);
    BetweenNext(m, j);
    assert va !in t.entry ==> va !in s.entry && !Below(va, MAX_TOTAL_PAGES);
    DropQueue(p, t, va);
    PR.DropOnward(p, t, va);
    PR.OnwardTrans(p, s, t, DropPage(t, va));
  }

  lemma {:induction false} FirstIsIndex(c: seq<Page>, va: nat)
    requires forall i :: 0 <= i < |c| ==> c[i].live
    ensures FirstAt(c, va) == IndexOf(Addrs(c), va)
  {
    var k := IndexOf(Addrs(c), va);
    assert forall j :: 0 <= j < k ==> Addrs(c)[j] != va;
  }

  lemma AddrsCut(c: seq<Page>, k: nat)
    requires k < |c|
    ensures Addrs(c[..k] + c[k + 1..]) == Addrs(c)[..k] + Addrs(c)[k + 1..]
  {}
}
