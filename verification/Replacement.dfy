/** The two page replacement policies, second-chance FIFO and NFUA, as choices of a victim, and what each
of them keeps of the queue. */
module Replacement {
  import opened PageQueue
  import opened Paging
  import opened SecondChance
  import opened AddressSpace
  import opened Growth

  datatype Policy = Scfifo | Nfua

  // ---- NFUA ----

  /** Record r is the first among the pages in memory with the least age. */
  ghost predicate Picked(pages: seq<Page>, r: nat) {
    && r < |pages| && Resident(pages[r])
    && (forall k :: 0 <= k < |pages| && Resident(pages[k]) ==> pages[r].age <= pages[k].age)
    && (forall k :: 0 <= k < r && Resident(pages[k]) ==> pages[r].age < pages[k].age)
  }

  /** That record, |pages| if there is no page in memory. */
  ghost function Coldest(pages: seq<Page>): (r: nat)
    ensures r < |pages| ==> Picked(pages, r)
    ensures r >= |pages| ==> r == |pages| && forall k :: 0 <= k < |pages| ==> !Resident(pages[k])
  {
    if pages == [] then 0
    else
      var n := |pages| - 1;
      var r := Coldest(pages[..n]);
      assert forall k :: 0 <= k < n ==> pages[..n][k] == pages[k];
      if r < n && !(Resident(pages[n]) && pages[n].age < pages[r].age) then r
      else if Resident(pages[n]) then n else n + 1
  }

  lemma PickedIsColdest(pages: seq<Page>, r: nat)
    requires Picked(pages, r)
    ensures Coldest(pages) == r
  {
    var q := Coldest(pages);
    assert q < |pages| && pages[q].age == pages[r].age;
  }

  lemma {:induction false} SomeIn(pages: seq<Page>)
    requires CountIn(pages) > 0
    ensures Coldest(pages) < |pages|
  {
    if forall k :: 0 <= k < |pages| ==> !Resident(pages[k]) {
      NoneIn(pages);
    }
  }

  lemma {:induction false} NoneIn(pages: seq<Page>)
    requires forall i :: 0 <= i < |pages| ==> !Resident(pages[i])
    ensures CountIn(pages) == 0
  {
    if pages != [] {
      NoneIn(pages[..|pages| - 1]);
    }
  }

  // ---- the queue ----

  /** The queue holds exactly the recorded pages in memory, each once. */
  ghost predicate QueueOk(s: Space) {
    && (forall va {:trigger va in s.queue} {:trigger InMemory(s, va)} :: va in s.queue <==> InMemory(s, va))
    && (forall j, k :: 0 <= j < k < |s.queue| ==> s.queue[j] != s.queue[k])
    && |s.queue| == CountIn(s.pages)
  }

  /** Nothing is queued that cannot have a record. */
  ghost predicate OnlyLow(queue: seq<nat>) {
    forall va {:trigger va in queue} :: va in queue ==> Below(va, MAX_TOTAL_PAGES)
  }

  /** What a policy keeps of the queue.  NFUA drops the head where it should drop the victim, so that its
  queue is only sure to be long enough. */
  ghost predicate QueueFits(p: Policy, s: Space) {
    OnlyLow(s.queue) && match p case Scfifo => QueueOk(s) case Nfua => CountIn(s.pages) <= |s.queue|
  }

  /** By how much the queue is longer than it should be. */
  ghost function Excess(s: Space): int {
    |s.queue| - CountIn(s.pages)
  }

  lemma QueueMapped(s: Space)
    requires Inv(s) && QueueOk(s)
    ensures Mapped(s.queue, s.ptes)
  {
    forall j | 0 <= j < |s.queue|
      ensures s.queue[j] in s.ptes
    {
      assert s.queue[j] in s.queue && InMemory(s, s.queue[j]);
    }
  }

  /** select_page_to_back. */
  ghost function Choose(p: Policy, s: Space): Choice
    requires Inv(s) && QueueFits(p, s)
  {
    if CountIn(s.pages) == 0 then Choice(0, s.ptes, s.queue)
    else
      match p
      case Scfifo =>
        QueueMapped(s);
        Choice(Victim(s.queue, s.ptes), AllCooled(s.queue, s.ptes), Spared(s.queue, s.ptes))
      case Nfua =>
        SomeIn(s.pages);
        Choice(s.pages[Coldest(s.pages)].vaddr, s.ptes, s.queue[1..])
  }

  /** The page a policy chooses is in memory, and it changes nothing of the page table but accessed bits. */
  lemma ChoiceFits(p: Policy, s: Space)
    requires Inv(s) && QueueFits(p, s) && CountIn(s.pages) > 0
    ensures Eligible(s, Choose(p, s)) && |Choose(p, s).rest| == |s.queue| - 1 && OnlyLow(Choose(p, s).rest)
    ensures p.Scfifo? ==> Without(s.queue, Choose(p, s).va, Choose(p, s).rest)
  {
    match p
    case Scfifo =>
      QueueMapped(s);
      VictimQueued(s.queue, s.ptes);
    case Nfua =>
      SomeIn(s.pages);
      assert s.entry[s.pages[Coldest(s.pages)].vaddr] == Coldest(s.pages);
      assert forall va :: va in s.queue[1..] ==> va in s.queue;
  }

  /** The first k pages in the queue have been accessed, and the next one, if any, has not. */
  ghost predicate FirstUnaccessed(queue: seq<nat>, ptes: map<nat, Pte>, k: nat) {
    && k <= |queue| && (forall j :: 0 <= j < k ==> queue[j] in ptes && ptes[queue[j]].accessed)
    && (k < |queue| ==> queue[k] in ptes && !ptes[queue[k]].accessed)
  }

  /** t is s but for the accessed bits of the pages q, which are cleared. */
  ghost predicate OnlyCleared(s: map<nat, Pte>, t: map<nat, Pte>, q: seq<nat>) {
    && (forall va {:trigger va in t} {:trigger va in s} :: va in t <==> va in s)
    && forall va {:trigger t[va]} :: va in s ==>
         t[va] == if va in q then Pte(s[va].present, s[va].pagedOut, false, s[va].frame) else s[va]
  }

  /** Second-chance FIFO takes the first page in the queue that has not been accessed, or the head if all have; the
  pages it passes over lose their accessed bits and go behind the others. */
  lemma ScfifoChooses(s: Space, k: nat)
    requires Inv(s) && QueueFits(Scfifo, s) && CountIn(s.pages) > 0 && FirstUnaccessed(s.queue, s.ptes, k)
    ensures var c, q := Choose(Scfifo, s), s.queue;
            && q != [] && c.va == (if k < |q| then q[k] else q[0])
            && c.rest == (if k < |q| then q[k + 1..] + q[..k] else q[1..])
            && OnlyCleared(s.ptes, c.ptes, q[..k])
  {
    QueueMapped(s);
    Chosen(s.queue, s.ptes, k);
    if k < |s.queue| {
      NextChance(s.queue, s.ptes, k);
    }
  }

  lemma SomeUnaccessed(s: Space) returns (k: nat)
    requires Inv(s) && QueueFits(Scfifo, s)
    ensures FirstUnaccessed(s.queue, s.ptes, k)
  {
    QueueMapped(s);
    k := FirstCold(s.queue, s.ptes);
  }

  lemma MayChoose(p: Policy, s: Space)
    requires Inv(s) && QueueFits(p, s)
    ensures MayTake(s, Choose(p, s))
  {
    if CountIn(s.pages) == MAX_PSYC_PAGES {
      ChoiceFits(p, s);
    }
  }

  ghost function RoomBy(p: Policy, s: Space): Space {
    if Inv(s) && QueueFits(p, s) then
      MayChoose(p, s);
      Room(s, Choose(p, s))
    else s
  }

  lemma RoomBySwaps(p: Policy, s: Space)
    requires Inv(s) && QueueFits(p, s) && CountIn(s.pages) == MAX_PSYC_PAGES
    ensures var c, k := Choose(p, s), FreeSlot(s.offsets);
            var t := s.(ptes := c.ptes);
            && CountBack(s.pages) <= MAX_PSYC_PAGES && Inv(t) && InMemory(t, c.va)
            && k < MAX_TOTAL_PAGES && k * PGSIZE <= |t.swap| && RoomBy(p, s) == SwapOut(t, c.va, k, c.rest)
  {
    ChoiceFits(p, s);
    RoomFits(s, Choose(p, s));
  }

  // ---- what keeps the queue in order ----

  lemma OutMembers(s: Space, va: nat, k: nat, rest: seq<nat>)
    requires Inv(s) && InMemory(s, va) && k < MAX_TOTAL_PAGES && k * PGSIZE <= |s.swap|
    ensures var t := SwapOut(s, va, k, rest);
            forall vb {:trigger InMemory(t, vb)} :: InMemory(t, vb) <==> InMemory(s, vb) && vb != va
  {}

  lemma InMembers(s: Space, va: nat, f: nat, accessed: bool)
    requires Inv(s) && va in s.ptes && InBack(s, va)
    ensures var t := SwapIn(s, va, f, accessed);
            forall vb {:trigger InMemory(t, vb)} :: InMemory(t, vb) <==> InMemory(s, vb) || vb == va
  {}

  lemma RecordMembers(s: Space, va: nat, i: nat)
    requires TableOk(s) && va !in s.entry && i < MAX_TOTAL_PAGES && !s.pages[i].live
    ensures var t := Record(s, va, i);
            forall vb {:trigger InMemory(t, vb)} :: InMemory(t, vb) <==> InMemory(s, vb) || vb == va
  {}

  lemma ForgetMembers(s: Space, va: nat)
    requires Inv(s) && va in s.ptes && s.ptes[va].present
    ensures var t := Forget(s, va);
            forall vb {:trigger InMemory(t, vb)} :: InMemory(t, vb) <==> InMemory(s, vb) && vb != va
  {
    assert va in s.entry ==> !InBack(s, va) && s.entry[va] < MAX_TOTAL_PAGES;
  }

  lemma RoomQueueOk(s: Space)
    requires Inv(s) && QueueFits(Scfifo, s) && CountIn(s.pages) == MAX_PSYC_PAGES
    ensures QueueOk(RoomBy(Scfifo, s))
  {
    var c, t := Choose(Scfifo, s), RoomBy(Scfifo, s);
    ChoiceFits(Scfifo, s);
    RoomSwaps(s, c);
    RoomFits(s, c);
    OutMembers(s.(ptes := c.ptes), c.va, FreeSlot(s.offsets), c.rest);
    assert forall va :: InMemory(s.(ptes := c.ptes), va) <==> InMemory(s, va);
  }

  lemma RoomQueueSwaps(p: Policy, s: Space)
    requires Inv(s) && QueueFits(p, s) && CountIn(s.pages) == MAX_PSYC_PAGES
    ensures QueueFits(p, RoomBy(p, s)) && Excess(RoomBy(p, s)) == Excess(s)
  {
    ChoiceFits(p, s);
    RoomSwaps(s, Choose(p, s));
    RoomBySwaps(p, s);
    if p.Scfifo? {
      RoomQueueOk(s);
    }
  }

  /** Making room keeps the queue as long, compared with the number of pages in memory. */
  lemma RoomQueue(p: Policy, s: Space)
    requires Bounded(s) && QueueFits(p, s)
    ensures QueueFits(p, RoomBy(p, s)) && Excess(RoomBy(p, s)) == Excess(s)
    ensures |RoomBy(p, s).queue| < MAX_PSYC_PAGES + Excess(s)
  {
    MayChoose(p, s);
    RoomKeeps(s, Choose(p, s));
    if CountIn(s.pages) == MAX_PSYC_PAGES {
      RoomQueueSwaps(p, s);
    }
  }

  /** One entry leaves the queue if a page has to leave memory. */
  lemma RoomLength(p: Policy, s: Space)
    requires Bounded(s) && QueueFits(p, s)
    ensures |RoomBy(p, s).queue| == |s.queue| - if CountIn(s.pages) == MAX_PSYC_PAGES then 1 else 0
  {
    if CountIn(s.pages) == MAX_PSYC_PAGES {
      RoomBySwaps(p, s);
      ChoiceFits(p, s);
    }
  }

  lemma Append(q: seq<nat>, x: nat)
    requires (forall j, k :: 0 <= j < k < |q| ==> q[j] != q[k]) && x !in q
    ensures forall j, k :: 0 <= j < k < |q + [x]| ==> (q + [x])[j] != (q + [x])[k]
    ensures forall y {:trigger y in q + [x]} {:trigger y in q} :: y in q + [x] <==> y in q || y == x
  {}

  /** One more page in memory, at the end of the queue. */
  lemma QueueNext(p: Policy, s: Space, t: Space, va: nat)
    requires QueueFits(p, s) && t.queue == s.queue + [va] && CountIn(t.pages) == CountIn(s.pages) + 1
    requires Below(va, MAX_TOTAL_PAGES) && !InMemory(s, va)
    requires forall vb {:trigger InMemory(t, vb)} :: InMemory(t, vb) <==> InMemory(s, vb) || vb == va
    ensures QueueFits(p, t) && Excess(t) == Excess(s)
  {
    if p.Scfifo? {
      Append(s.queue, va);
    }
  }

  lemma SwapInQueue(p: Policy, s: Space, va: nat, f: nat, accessed: bool)
    requires Inv(s) && QueueFits(p, s) && va in s.ptes && InBack(s, va) && f !in s.mem && Below(va, MAX_TOTAL_PAGES)
    ensures QueueFits(p, SwapIn(s, va, f, accessed)) && Excess(SwapIn(s, va, f, accessed)) == Excess(s)
  {
    SwapInKeeps(s, va, f, accessed);
    InMembers(s, va, f, accessed);
    QueueNext(p, s, SwapIn(s, va, f, accessed), va);
  }

  lemma RecordQueue(p: Policy, s: Space, va: nat, i: nat)
    requires Inv(s) && QueueFits(p, s) && va in s.ptes && va !in s.entry && i < MAX_TOTAL_PAGES && !s.pages[i].live
    requires (va == 0 ==> i == 0) && Below(va, MAX_TOTAL_PAGES)
    ensures QueueFits(p, Record(s, va, i)) && Excess(Record(s, va, i)) == Excess(s)
  {
    RecordKeeps(s, va, i);
    RecordMembers(s, va, i);
    QueueNext(p, s, Record(s, va, i), va);
  }

  lemma Cut(q: seq<nat>, va: nat)
    ensures var r := Unqueued(q, va);
            && |r| == (if va in q then |q| - 1 else |q|)
            && (forall x {:trigger x in r} :: x in r ==> x in q)
            && (forall x {:trigger x in q} :: x in q && x != va ==> x in r)
  {
    var k, r := IndexOf(q, va), Unqueued(q, va);
    if k < |q| {
      forall x | x in q && x != va
        ensures x in r
      {
        var i :| 0 <= i < |q| && q[i] == x;
        assert r[if i < k then i else i - 1] == x;
      }
    }
  }

  lemma CutDistinct(q: seq<nat>, va: nat)
    requires forall j, k :: 0 <= j < k < |q| ==> q[j] != q[k]
    ensures var r := Unqueued(q, va); va !in r && forall j, k :: 0 <= j < k < |r| ==> r[j] != r[k]
  {
    var i, r := IndexOf(q, va), Unqueued(q, va);
    if i < |q| {
      assert forall j :: 0 <= j < |r| ==> r[j] == q[if j < i then j else j + 1];
    }
  }

  /** Removing a page in memory takes it out of the second-chance queue, and NFUA's queue gets no shorter
  than it should be. */
  lemma ForgetQueue(p: Policy, s: Space, va: nat)
    requires Inv(s) && QueueFits(p, s) && va in s.ptes && s.ptes[va].present
    requires va !in s.entry ==> !Below(va, MAX_TOTAL_PAGES)
    ensures QueueFits(p, Forget(s, va))
    ensures Excess(Forget(s, va)) == Excess(s) + if va in s.entry && va !in s.queue then 1 else 0
  {
    var t := Forget(s, va);
    ForgetKeeps(s, va);
    Cut(s.queue, va);
    if p.Scfifo? {
      CutDistinct(s.queue, va);
      ForgetMembers(s, va);
    }
  }

  /** Page table, frames and ages have nothing to do with the queue. */
  lemma SameQueue(p: Policy, s: Space, t: Space)
    requires QueueFits(p, s) && t.queue == s.queue && t.entry == s.entry && SameButAges(s.pages, t.pages)
    ensures QueueFits(p, t) && Excess(t) == Excess(s)
  {
    SameCounts(s.pages, t.pages);
    assert forall va :: InMemory(t, va) <==> InMemory(s, va);
  }

  // ---- whole steps ----

  /** safe_page_in of the page va by the policy. */
  ghost function FaultBy(p: Policy, s: Space, va: nat, f: nat, accessed: bool): Space
    requires Bounded(s) && QueueFits(p, s) && PagedOut(s, va)
  {
    MayChoose(p, s);
    Fault(s, Choose(p, s), va, f, accessed)
  }

  lemma FaultQueue(p: Policy, s: Space, va: nat, f: nat, accessed: bool)
    requires Bounded(s) && QueueFits(p, s) && InPlace(s.entry) && PagedOut(s, va) && f !in s.mem
    ensures QueueFits(p, FaultBy(p, s, va, f, accessed)) && Excess(FaultBy(p, s, va, f, accessed)) == Excess(s)
  {
    var c := Choose(p, s);
    MayChoose(p, s);
    RoomQueue(p, s);
    RoomKeeps(s, c);
    RoomKeepsOut(s, c, va);
    RoomOnlyOut(s, c);
    assert s.entry[va] < MAX_TOTAL_PAGES;
    SwapInQueue(p, RoomBy(p, s), va, f, accessed);
  }

  lemma GrowQueue(p: Policy, s: Space, va: nat, f: nat)
    requires Bounded(s) && QueueFits(p, s) && va !in s.ptes && va !in s.entry && f !in RoomBy(p, s).mem
    requires va == 0 ==> FreeRecord(s.pages) == 0
    requires FreeRecord(s.pages) < MAX_TOTAL_PAGES ==> Below(va, MAX_TOTAL_PAGES)
    ensures QueueFits(p, MapPage(RoomBy(p, s), va, f)) && Excess(MapPage(RoomBy(p, s), va, f)) == Excess(s)
  {
    var c, r := Choose(p, s), RoomBy(p, s);
    MayChoose(p, s);
    RoomQueue(p, s);
    RoomKeeps(s, c);
    RoomOnlyOut(s, c);
    RoomSameRecord(s, c);
    assert va !in r.ptes;
    MapQueue(p, r, va, f);
  }

  lemma MapQueue(p: Policy, r: Space, va: nat, f: nat)
    requires Inv(r) && QueueFits(p, r) && va !in r.ptes && va !in r.entry && f !in r.mem
    requires va == 0 ==> FreeRecord(r.pages) == 0
    requires FreeRecord(r.pages) < MAX_TOTAL_PAGES ==> Below(va, MAX_TOTAL_PAGES)
    ensures QueueFits(p, MapPage(r, va, f)) && Excess(MapPage(r, va, f)) == Excess(r)
  {
    MapKeeps(r, va, f);
    MappedQueue(p, r, va, f);
    if FreeRecord(r.pages) < MAX_TOTAL_PAGES {
      RecordQueue(p, Map(r, va, f), va, FreeRecord(r.pages));
    }
  }

  lemma MappedQueue(p: Policy, r: Space, va: nat, f: nat)
    requires QueueFits(p, r)
    ensures QueueFits(p, Map(r, va, f)) && Excess(Map(r, va, f)) == Excess(r)
  {
    SameQueue(p, r, Map(r, va, f));
  }

  lemma DropQueue(p: Policy, s: Space, va: nat)
    requires Bounded(s) && QueueFits(p, s) && (va in s.ptes && va !in s.entry ==> !Below(va, MAX_TOTAL_PAGES))
    ensures QueueFits(p, DropPage(s, va)) && Excess(s) <= Excess(DropPage(s, va))
    ensures p.Scfifo? ==> Excess(DropPage(s, va)) == 0
  {
    if va in s.ptes && s.ptes[va].present {
      ForgetQueue(p, s, va);
      SameQueue(p, Forget(s, va), DropPage(s, va));
    }
  }
}
