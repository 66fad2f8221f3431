/** allocuvm and deallocuvm over whole ranges of pages: which pages a process of a given size has, and
which of them the page records still know. */
module Growth {
  import opened PageQueue
  import opened Paging
  import opened AddressSpace

  /** The number of the page at address va, -1 if no page starts there. */
  ghost function PageNo(va: nat): (p: int)
    ensures -1 <= p && (p >= 0 ==> va == p * PGSIZE)
  {
    if va == 0 then 0 else if va < PGSIZE || PageNo(va - PGSIZE) < 0 then -1 else PageNo(va - PGSIZE) + 1
  }

  lemma {:induction false} PageNoOf(j: nat)
    ensures PageNo(j * PGSIZE) == j
  {
    if j > 0 {
      PageNoOf(j - 1);
    }
  }

  /** va is the address of one of the first n pages. */
  ghost predicate Below(va: nat, n: nat) {
    0 <= PageNo(va) < n
  }

  ghost predicate Between(va: nat, m: nat, n: nat) {
    Below(va, n) && !Below(va, m)
  }

  lemma BelowNext(n: nat)
    ensures forall va {:trigger Below(va, n + 1)} {:trigger Below(va, n)} ::
              Below(va, n + 1) <==> Below(va, n) || va == n * PGSIZE
    ensures PageNo(n * PGSIZE) == n
  {
    PageNoOf(n);
  }

  /** Page i is in record i, if it is recorded at all. */
  ghost predicate InPlace(entry: map<nat, nat>) {
    forall va {:trigger entry[va]} :: va in entry ==> entry[va] == PageNo(va)
  }

  /** All of the first n pages are mapped, and the first MAX_TOTAL_PAGES of them recorded, each in its
  place.  Whatever else is mapped is recorded as well. */
  ghost predicate Covers(entry: map<nat, nat>, ptes: map<nat, Pte>, n: nat) {
    && InPlace(entry)
    && (forall va {:trigger Below(va, n)} :: Below(va, n) ==> va in ptes)
    && (forall va {:trigger Below(va, n)} :: Below(va, n) && PageNo(va) < MAX_TOTAL_PAGES ==> va in entry)
    && (forall va {:trigger va in ptes} :: va in ptes && !Below(va, n) ==> va in entry)
  }

  /** The process has n pages.  Pages beyond are left over from larger times. */
  ghost predicate Sized(s: Space, n: nat) {
    Bounded(s) && Covers(s.entry, s.ptes, n)
  }

  /** There are no leftovers. */
  ghost predicate Clean(entry: map<nat, nat>, n: nat) {
    forall va {:trigger va in entry} :: va in entry ==> Below(va, n)
  }

  /** Every mapped page is recorded. */
  ghost predicate AllRecorded(entry: map<nat, nat>, ptes: map<nat, Pte>) {
    forall va {:trigger va in ptes} :: va in ptes ==> va in entry
  }

  /** The records know exactly the n pages of the process. */
  ghost predicate Synced(s: Space, n: nat) {
    Sized(s, n) && Clean(s.entry, n) && AllRecorded(s.entry, s.ptes)
  }

  // ---- growing ----

  lemma LiveIff(s: Space, n: nat, j: nat)
    requires Sized(s, n) && j < MAX_TOTAL_PAGES
    ensures s.pages[j].live <==> j * PGSIZE in s.entry
    ensures s.pages[j].live ==> s.pages[j].vaddr == j * PGSIZE
    ensures j < n ==> s.pages[j].live
  {
    PageNoOf(j);
    assert j < n ==> Below(j * PGSIZE, n) && Below(j * PGSIZE, MAX_TOTAL_PAGES);
    if j * PGSIZE in s.entry {
      assert s.entry[j * PGSIZE] == j;
    }
    if s.pages[j].live {
      assert s.entry[s.pages[j].vaddr] == j;
    }
  }

  /** Growing by page n panics if and only if a leftover record knows page n.  Otherwise the page takes
  record n, or none from MAX_TOTAL_PAGES pages on. */
  lemma NextRecord(s: Space, n: nat)
    requires Sized(s, n)
    ensures Clash(s.pages, n * PGSIZE) <==> n * PGSIZE in s.entry
    ensures n * PGSIZE !in s.entry ==>
              n * PGSIZE !in s.ptes && FreeRecord(s.pages) == if n < MAX_TOTAL_PAGES then n else MAX_TOTAL_PAGES
  {
    var k := FreeRecord(s.pages);
    forall j | 0 <= j < MAX_TOTAL_PAGES
      ensures s.pages[j].live <==> j * PGSIZE in s.entry
      ensures s.pages[j].live ==> s.pages[j].vaddr == j * PGSIZE
      ensures j < n ==> s.pages[j].live
    {
      LiveIff(s, n, j);
    }
    BelowNext(n);
    if n * PGSIZE in s.entry {
      assert s.entry[n * PGSIZE] == n && s.pages[n].live && k > n;
    }
  }

  lemma CoversNext(entry: map<nat, nat>, ptes: map<nat, Pte>, n: nat, entry': map<nat, nat>, ptes': map<nat, Pte>)
    requires Covers(entry, ptes, n) && n * PGSIZE !in entry
    requires forall va {:trigger va in ptes'} {:trigger va in ptes} :: va in ptes' <==> va in ptes || va == n * PGSIZE
    requires entry' == if n < MAX_TOTAL_PAGES then entry[n * PGSIZE := n] else entry
    ensures Covers(entry', ptes', n + 1)
  {
    BelowNext(n);
  }

  lemma GrowEntry(s: Space, c: Choice, n: nat, f: nat)
    requires Sized(s, n) && MayTake(s, c) && n * PGSIZE !in s.entry
    ensures MapPage(Room(s, c), n * PGSIZE, f).entry ==
            if n < MAX_TOTAL_PAGES then s.entry[n * PGSIZE := n] else s.entry
    ensures FreeRecord(s.pages) == if n < MAX_TOTAL_PAGES then n else MAX_TOTAL_PAGES
    ensures n * PGSIZE !in s.ptes
  {
    NextRecord(s, n);
    RoomEntry(s, c, n * PGSIZE, f);
  }

  lemma RoomEntry(s: Space, c: Choice, va: nat, f: nat)
    requires Inv(s) && MayTake(s, c)
    ensures var k := FreeRecord(s.pages);
            MapPage(Room(s, c), va, f).entry == if k < MAX_TOTAL_PAGES then s.entry[va := k] else s.entry
  {
    RoomOnlyOut(s, c);
    RoomSameRecord(s, c);
  }

  /** Page n, if it is no leftover, becomes part of the process. */
  lemma GrowSized(s: Space, c: Choice, n: nat, f: nat)
    requires Sized(s, n) && MayTake(s, c) && n * PGSIZE !in s.entry && f !in Room(s, c).mem
    ensures var t := MapPage(Room(s, c), n * PGSIZE, f);
            && Sized(t, n + 1) && Added(s, t, n * PGSIZE)
            && t.entry == if n < MAX_TOTAL_PAGES then s.entry[n * PGSIZE := n] else s.entry
  {
    var va, t := n * PGSIZE, MapPage(Room(s, c), n * PGSIZE, f);
    GrowEntry(s, c, n, f);
    GrowKeeps(s, c, va, f);
    CoversNext(s.entry, s.ptes, n, t.entry, t.ptes);
  }

  lemma SyncedNext(entry: map<nat, nat>, ptes: map<nat, Pte>, n: nat, entry': map<nat, nat>, ptes': map<nat, Pte>)
    requires Clean(entry, n) && AllRecorded(entry, ptes)
    requires forall va {:trigger va in ptes'} {:trigger va in ptes} :: va in ptes' <==> va in ptes || va == n * PGSIZE
    requires entry' == if n < MAX_TOTAL_PAGES then entry[n * PGSIZE := n] else entry
    ensures n * PGSIZE !in entry && Clean(entry', n + 1) && (AllRecorded(entry', ptes') <==> n < MAX_TOTAL_PAGES)
  {
    BelowNext(n);
    assert n * PGSIZE in ptes';
  }

  /** Growing by one page keeps the records in step with the page table if and only if there is a record
  for it. */
  lemma GrowsSyncedIff(s: Space, c: Choice, n: nat, f: nat)
    requires Synced(s, n) && MayTake(s, c) && f !in Room(s, c).mem
    ensures n * PGSIZE !in s.entry
    ensures Synced(MapPage(Room(s, c), n * PGSIZE, f), n + 1) <==> n < MAX_TOTAL_PAGES
  {
    PageNoOf(n);
    GrowSized(s, c, n, f);
    var t := MapPage(Room(s, c), n * PGSIZE, f);
    SyncedNext(s.entry, s.ptes, n, t.entry, t.ptes);
  }

  /** t is s grown from m to n pages. */
  ghost predicate Grown(s: Space, t: Space, m: nat, n: nat) {
    Sized(t, n) && MoreMapped(s.entry, s.ptes, t.entry, t.ptes, m, n) && MoreZeroes(s, t)
  }

  /** The pages m to n, none of which had a record, have been mapped and, as far as possible, recorded. */
  ghost predicate MoreMapped(entry: map<nat, nat>, ptes: map<nat, Pte>, entry': map<nat, nat>, ptes': map<nat, Pte>,
                             m: nat, n: nat) {
    && m <= n && (forall va {:trigger Between(va, m, n)} :: Between(va, m, n) ==> va !in entry)
    && (forall va {:trigger va in ptes'} {:trigger va in ptes} :: va in ptes' <==> va in ptes || Between(va, m, n))
    && (forall va {:trigger va in entry'} {:trigger va in entry} ::
          va in entry' <==> va in entry || (Between(va, m, n) && PageNo(va) < MAX_TOTAL_PAGES))
  }

  /** t has all pages of s unchanged, and otherwise pages of zeroes. */
  ghost predicate MoreZeroes(s: Space, t: Space) {
    forall va {:trigger Logical(t, va)} :: va in t.ptes ==>
      Logical(t, va) == if va in s.ptes then Logical(s, va) else ZeroPage()
  }

  lemma BetweenNext(m: nat, n: nat)
    requires m <= n
    ensures forall va {:trigger Between(va, m, n + 1)} {:trigger Between(va, m, n)} ::
              Between(va, m, n + 1) <==> Between(va, m, n) || va == n * PGSIZE
    ensures !Between(n * PGSIZE, m, n) && PageNo(n * PGSIZE) == n
  {
    BelowNext(n);
  }

  lemma GrownNone(s: Space, n: nat)
    requires Sized(s, n)
    ensures Grown(s, s, n, n)
  {}

  lemma MappedNext(entry: map<nat, nat>, ptes: map<nat, Pte>, entry1: map<nat, nat>, ptes1: map<nat, Pte>,
                   entry2: map<nat, nat>, ptes2: map<nat, Pte>, m: nat, n: nat)
    requires MoreMapped(entry, ptes, entry1, ptes1, m, n) && n * PGSIZE !in entry1
    requires forall va {:trigger va in ptes2} {:trigger va in ptes1} :: va in ptes2 <==> va in ptes1 || va == n * PGSIZE
    requires entry2 == if n < MAX_TOTAL_PAGES then entry1[n * PGSIZE := n] else entry1
    ensures MoreMapped(entry, ptes, entry2, ptes2, m, n + 1)
  {
    BetweenNext(m, n);
  }

  lemma ZeroesNext(s: Space, t: Space, u: Space, va: nat)
    requires MoreZeroes(s, t) && Added(t, u, va) && va !in s.ptes
    ensures MoreZeroes(s, u)
  {
    forall vb | vb in u.ptes
      ensures Logical(u, vb) == if vb in s.ptes then Logical(s, vb) else ZeroPage()
    {
      if vb != va {
        assert vb in t.ptes && Logical(u, vb) == Logical(t, vb);
      }
    }
  }

  lemma GrownNext(s: Space, t: Space, c: Choice, f: nat, m: nat, n: nat)
    requires Grown(s, t, m, n) && MayTake(t, c) && n * PGSIZE !in t.entry && f !in Room(t, c).mem
    ensures Grown(s, MapPage(Room(t, c), n * PGSIZE, f), m, n + 1)
  {
    var u := MapPage(Room(t, c), n * PGSIZE, f);
    GrowEntry(t, c, n, f);
    GrowSized(t, c, n, f);
    MappedNext(s.entry, s.ptes, t.entry, t.ptes, u.entry, u.ptes, m, n);
    assert n * PGSIZE !in s.ptes;
    ZeroesNext(s, t, u, n * PGSIZE);
  }

  /** Whether growing from m pages panics at page n depends on the records there were at first. */
  lemma LeftoverStays(s: Space, t: Space, m: nat, n: nat)
    requires Grown(s, t, m, n)
    ensures n * PGSIZE in t.entry <==> n * PGSIZE in s.entry
  {
    BetweenNext(m, n);
  }

  // ---- shrinking ----

  /** t is s after deallocuvm has dealt with the pages m to n: those that are swapped out are left over. */
  ghost predicate Shrunk(s: Space, t: Space, m: nat, n: nat) {
    && Bounded(t) && LessMapped(s.entry, s.ptes, t.entry, t.ptes, m, n) && |t.queue| <= |s.queue|
    && forall va {:trigger Logical(t, va)} :: va in t.ptes ==> Logical(t, va) == Logical(s, va)
  }

  ghost predicate LessMapped(entry: map<nat, nat>, ptes: map<nat, Pte>, entry': map<nat, nat>, ptes': map<nat, Pte>,
                             m: nat, n: nat) {
    && m <= n && InPlace(entry')
    && (forall va {:trigger va in ptes'} {:trigger va in ptes} ::
          va in ptes' <==> va in ptes && (Between(va, m, n) ==> IsOut(ptes, va)))
    && (forall va {:trigger va in entry'} {:trigger va in entry} ::
          va in entry' <==> va in entry && (Between(va, m, n) ==> IsOut(ptes, va)))
    && (forall va {:trigger ptes'[va]} :: va in ptes' ==> ptes'[va] == ptes[va])
  }

  lemma ShrunkNone(s: Space, n: nat)
    requires Bounded(s) && InPlace(s.entry)
    ensures Shrunk(s, s, n, n)
  {}

  lemma DropOne(s: Space, va: nat)
    requires Bounded(s) && va in s.ptes && s.ptes[va].present
    ensures DropPage(s, va).entry == s.entry - {va} && DropPage(s, va).ptes == s.ptes - {va}
  {
    assert va !in s.entry ==> s.entry - {va} == s.entry;
  }

  lemma LessNext(entry: map<nat, nat>, ptes: map<nat, Pte>, entry1: map<nat, nat>, ptes1: map<nat, Pte>, m: nat, n: nat)
    requires LessMapped(entry, ptes, entry1, ptes1, m, n) && n * PGSIZE in ptes
    ensures n * PGSIZE in ptes1 && ptes1[n * PGSIZE] == ptes[n * PGSIZE]
    ensures if IsOut(ptes, n * PGSIZE) then LessMapped(entry, ptes, entry1, ptes1, m, n + 1)
            else LessMapped(entry, ptes, entry1 - {n * PGSIZE}, ptes1 - {n * PGSIZE}, m, n + 1)
  {
    BetweenNext(m, n);
  }

  lemma ShrunkNext(s: Space, t: Space, m: nat, n: nat)
    requires Shrunk(s, t, m, n) && n * PGSIZE in s.ptes && Inv(s)
    ensures Shrunk(s, DropPage(t, n * PGSIZE), m, n + 1)
  {
    var va, u := n * PGSIZE, DropPage(t, n * PGSIZE);
    LessNext(s.entry, s.ptes, t.entry, t.ptes, m, n);
    PresentOrOut(s, va);
    if t.ptes[va].present {
      DropKeeps(t, va);
      DropOne(t, va);
      LessContents(s, t, u, va);
    }
    DropShorter(t, va);
  }

  lemma DropShorter(t: Space, va: nat)
    ensures |DropPage(t, va).queue| <= |t.queue|
  {}

  lemma LessContents(s: Space, t: Space, u: Space, va: nat)
    requires Removed(t, u, va)
    requires forall vb {:trigger Logical(t, vb)} :: vb in t.ptes ==> Logical(t, vb) == Logical(s, vb)
    ensures forall vb {:trigger Logical(u, vb)} :: vb in u.ptes ==> Logical(u, vb) == Logical(s, vb)
  {
    forall vb | vb in u.ptes
      ensures Logical(u, vb) == Logical(s, vb)
    {
      assert vb in t.ptes && Logical(u, vb) == Logical(t, vb);
    }
  }

  lemma LessCovers(entry: map<nat, nat>, ptes: map<nat, Pte>, entry': map<nat, nat>, ptes': map<nat, Pte>, m: nat,
                   n: nat)
    requires Covers(entry, ptes, n) && LessMapped(entry, ptes, entry', ptes', m, n)
    requires forall va {:trigger IsOut(ptes, va)} :: IsOut(ptes, va) ==> va in entry
    ensures Covers(entry', ptes', m)
  {
    assert forall va :: Below(va, m) ==> Below(va, n) && !Between(va, m, n);
    assert forall va :: va in ptes' && !Below(va, m) && Below(va, n) ==> Between(va, m, n) && IsOut(ptes, va);
  }

  /** deallocuvm leaves a process of the new size. */
  lemma ShrunkSized(s: Space, t: Space, m: nat, n: nat)
    requires Sized(s, n) && Shrunk(s, t, m, n)
    ensures Sized(t, m)
  {
    forall va {:trigger IsOut(s.ptes, va)} | IsOut(s.ptes, va)
      ensures InBack(s, va)
    {
      PresentOrOut(s, va);
    }
    LessCovers(s.entry, s.ptes, t.entry, t.ptes, m, n);
  }

  /** A page fault does not change which pages there are. */
  lemma FaultSized(s: Space, c: Choice, va: nat, f: nat, accessed: bool, n: nat)
    requires Sized(s, n) && MayTake(s, c) && PagedOut(s, va) && f !in s.mem
    ensures Sized(Fault(s, c, va, f, accessed), n)
  {
    FaultKeeps(s, c, va, f, accessed);
    SameCovers(s.entry, s.ptes, Fault(s, c, va, f, accessed).ptes, n);
  }

  lemma SameCovers(entry: map<nat, nat>, ptes: map<nat, Pte>, ptes': map<nat, Pte>, n: nat)
    requires Covers(entry, ptes, n)
    requires forall va {:trigger va in ptes'} {:trigger va in ptes} :: va in ptes' <==> va in ptes
    ensures Covers(entry, ptes', n)
  {}

  ghost predicate NoneOut(ptes: map<nat, Pte>, m: nat, n: nat) {
    forall va {:trigger Between(va, m, n)} :: Between(va, m, n) ==> !IsOut(ptes, va)
  }

  lemma LessClean(entry: map<nat, nat>, ptes: map<nat, Pte>, entry': map<nat, nat>, ptes': map<nat, Pte>, m: nat,
                  n: nat)
    requires LessMapped(entry, ptes, entry', ptes', m, n)
    requires forall va {:trigger IsOut(ptes, va)} :: IsOut(ptes, va) ==> va in entry
    ensures Clean(entry', m) <==> Clean(entry, n) && NoneOut(ptes, m, n)
  {
    assert forall va :: Below(va, m) ==> Below(va, n) && !Between(va, m, n);
    if Clean(entry', m) {
      forall va | va in entry
        ensures Below(va, n)
      {
        assert !Below(va, n) ==> !Between(va, m, n) && va in entry';
      }
      forall va | Between(va, m, n)
        ensures !IsOut(ptes, va)
      {
        assert IsOut(ptes, va) ==> va in entry';
      }
    }
    if Clean(entry, n) && NoneOut(ptes, m, n) {
      forall va | va in entry'
        ensures Below(va, m)
      {
        assert va in entry && Below(va, n) && (!Below(va, m) ==> Between(va, m, n));
      }
    }
  }

  /** Shrinking leaves nothing over if and only if nothing was left over before and none of the pages
  removed is swapped out. */
  lemma ShrinksCleanIff(s: Space, t: Space, m: nat, n: nat)
    requires Sized(s, n) && Shrunk(s, t, m, n)
    ensures Clean(t.entry, m) <==> Clean(s.entry, n) && NoneOut(s.ptes, m, n)
  {
    forall va {:trigger IsOut(s.ptes, va)} | IsOut(s.ptes, va)
      ensures InBack(s, va)
    {
      PresentOrOut(s, va);
    }
    LessClean(s.entry, s.ptes, t.entry, t.ptes, m, n);
  }

  /** Among the first k records, all of them in use, some page is swapped out if k exceeds the number of
  pages in memory. */
  lemma {:induction false} SwappedPrefix(pages: seq<Page>, k: nat)
    requires k <= |pages| && (forall i :: 0 <= i < k ==> pages[i].live) && CountIn(pages) < k
    ensures exists i :: 0 <= i < k && Swapped(pages[i])
    decreases |pages|
  {
    var n := |pages| - 1;
    if Resident(pages[n]) && k == |pages| {
      SwappedPrefix(pages[..n], n);
      var i :| 0 <= i < n && Swapped(pages[..n][i]);
      assert Swapped(pages[i]);
    } else if k <= n {
      SwappedPrefix(pages[..n], k);
      var i :| 0 <= i < k && Swapped(pages[..n][i]);
      assert Swapped(pages[i]);
    }
  }

  lemma OutgrownIsOut(s: Space, n: nat)
    requires Sized(s, n) && n > MAX_PSYC_PAGES
    ensures !NoneOut(s.ptes, 0, n)
  {
    var k := MAX_PSYC_PAGES + 1;
    forall i | 0 <= i < k
      ensures s.pages[i].live && s.pages[i].vaddr == i * PGSIZE
    {
      LiveIff(s, n, i);
    }
    SwappedPrefix(s.pages, k);
    var i :| 0 <= i < k && Swapped(s.pages[i]);
    PageNoOf(i);
    assert Between(i * PGSIZE, 0, n);
    assert s.entry[i * PGSIZE] == i;
    PresentOrOut(s, i * PGSIZE);
  }

  /** A process that outgrows memory and gives everything back always leaves something over. */
  lemma ShrinkToNothing(s: Space, t: Space, n: nat)
    requires Sized(s, n) && n > MAX_PSYC_PAGES && Shrunk(s, t, 0, n)
    ensures !Clean(t.entry, 0)
  {
    OutgrownIsOut(s, n);
    ShrinksCleanIff(s, t, 0, n);
  }
}
