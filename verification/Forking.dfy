/** fork: the child's copy of the parent's memory and of its swap file. */
module Forking {
  import opened Blocks
  import opened PageQueue
  import opened Paging
  import opened AddressSpace
  import opened Growth
  import opened Replacement
  import opened Swapping

  const CHUNK := 2048         // PGSIZE / 2

  /** For each page in `done`, and no other, the child has a frame with the parent's bytes if the page is
  present, and otherwise a page table entry marked paged out. */
  ghost predicate Copied(s: Space, done: set<nat>, ptes: map<nat, Pte>, mem: map<nat, Bytes>, mapped: map<nat, nat>) {
    && (forall va {:trigger va in ptes} :: va in ptes <==> va in done)
    && forall va {:trigger va in done} {:trigger ptes[va]} :: va in done && va in s.ptes && va in ptes ==>
         if s.ptes[va].present then
           && ptes[va].present && !ptes[va].pagedOut && s.ptes[va].frame in s.mem && ptes[va].frame in mem
           && mem[ptes[va].frame] == s.mem[s.ptes[va].frame]
           && ptes[va].frame in mapped && mapped[ptes[va].frame] == va
         else !ptes[va].present && ptes[va].pagedOut
  }

  /** The pages of the process that are left over from larger times are swapped out. */
  ghost predicate LeftoversOut(s: Space, n: nat) {
    forall va {:trigger va in s.entry} :: va in s.entry && !Below(va, n) ==> InBack(s, va)
  }

  /** The pages below n. */
  ghost predicate Range(pages: set<nat>, n: nat) {
    forall va {:trigger va in pages} {:trigger Below(va, n)} :: va in pages <==> Below(va, n)
  }

  ghost predicate RewrittenIn(p: map<nat, Pte>, q: map<nat, Pte>, done: set<nat>) {
    && (forall va {:trigger va in q} :: va in q <==> va in p)
    && forall va {:trigger q[va]} :: va in p ==>
         q[va] == if va in done && p[va].pagedOut then Pte(false, true, false, 0) else p[va]
  }

  /** The child maps the frame f, which is new to it, at va. */
  lemma CopiedNext(s: Space, done: set<nat>, ptes: map<nat, Pte>, mem: map<nat, Bytes>, mapped: map<nat, nat>,
                   va: nat, f: nat, e: Pte, bytes: Bytes)
    requires Copied(s, done, ptes, mem, mapped) && va in s.ptes && va !in done && f !in mem && e.frame == f
    requires if s.ptes[va].present
             then e.present && !e.pagedOut && s.ptes[va].frame in s.mem && bytes == s.mem[s.ptes[va].frame]
             else !e.present && e.pagedOut
    ensures Copied(s, done + {va}, ptes[va := e], mem[f := bytes], mapped[f := va])
  {}

  /** copyuvm for page va. */
  method CopyPage(parent: Process, child: Process, va: nat, ghost s: Space, ghost done: set<nat>)
    requires parent != child && va in s.ptes && va !in done && parent.mem == s.mem
    requires if s.ptes[va].present then !s.ptes[va].pagedOut && s.ptes[va].frame in s.mem else s.ptes[va].pagedOut
    requires RewrittenIn(s.ptes, parent.ptes, done) == true
    requires Copied(s, done, child.ptes, child.mem, child.mapped) == true
    modifies parent`ptes, child`ptes, child`mem, child`mapped
    ensures RewrittenIn(s.ptes, parent.ptes, done + {va}) == true
    ensures Copied(s, done + {va}, child.ptes, child.mem, child.mapped) == true
  {
    var pagedOut := parent.ptes[va].pagedOut;
    var bytes: Bytes := *;     // what a paged out page's frame is copied from is not its contents
    if pagedOut {
      parent.ptes := parent.ptes[va := Pte(false, true, false, 0)];
    } else {
      bytes := parent.mem[parent.ptes[va].frame];
    }
    var f := child.Kalloc();
    var e := parent.ptes[va].(present := !pagedOut, frame := f);
    CopiedNext(s, done, child.ptes, child.mem, child.mapped, va, f, e, bytes);
    child.mem := child.mem[f := bytes];
    child.ptes := child.ptes[va := e];
    child.mapped := child.mapped[f := va];
  }

  /** Every page below n is either in memory or marked as swapped out. */
  ghost predicate AllMarked(s: Space, n: nat) {
    forall va {:trigger Below(va, n)} :: Below(va, n) ==>
      && va in s.ptes
      && if s.ptes[va].present then !s.ptes[va].pagedOut && s.ptes[va].frame in s.mem else s.ptes[va].pagedOut
  }

  lemma SizedMarked(s: Space, n: nat)
    requires Sized(s, n)
    ensures AllMarked(s, n) == true
  {
    forall va {:trigger Below(va, n)} | Below(va, n)
      ensures va in s.ptes
      ensures if s.ptes[va].present then !s.ptes[va].pagedOut && s.ptes[va].frame in s.mem else s.ptes[va].pagedOut
    {
      PresentOrOut(s, va);
    }
  }

  lemma NextMarked(s: Space, n: nat, j: nat)
    requires AllMarked(s, n) && j < n
    ensures Below(j * PGSIZE, n) && j * PGSIZE in s.ptes
    ensures var e := s.ptes[j * PGSIZE]; if e.present then !e.pagedOut && e.frame in s.mem else e.pagedOut
  {
    PageNoOf(j);
    assert Below(j * PGSIZE, n);
  }

  /** copyuvm: the child's page table and frames. */
  method CopyUvm(parent: Process, child: Process, sz: nat) returns (ghost done: set<nat>)
    requires parent != child && parent.Valid() && Sized(parent.Abs(), PagesOf(sz)) && child.ptes == map[]
    modifies parent`ptes, child`ptes, child`mem, child`mapped
    ensures Range(done, PagesOf(sz)) && Copied(old(parent.Abs()), done, child.ptes, child.mem, child.mapped)
    ensures RewrittenIn(old(parent.ptes), parent.ptes, done)
  {
    SizedMarked(parent.Abs(), PagesOf(sz));
    done := CopyPages(parent, child, sz, parent.Abs());
  }

  /** The loop of copyuvm, for the pages of s. */
  method CopyPages(parent: Process, child: Process, sz: nat, ghost s: Space) returns (ghost done: set<nat>)
    requires parent != child && AllMarked(s, PagesOf(sz)) == true && parent.ptes == s.ptes && parent.mem == s.mem
    requires child.ptes == map[]
    modifies parent`ptes, child`ptes, child`mem, child`mapped
    ensures Range(done, PagesOf(sz)) == true && Copied(s, done, child.ptes, child.mem, child.mapped) == true
    ensures RewrittenIn(s.ptes, parent.ptes, done) == true
  {
    ghost var j: nat := 0;
    done := {};
    var i: nat := 0;
    AtFirstPage(0, sz);
    while i < sz
      invariant Range(done, j) == true && AtPage(i, j, sz) == true && parent.mem == s.mem
      invariant RewrittenIn(s.ptes, parent.ptes, done) == true
      invariant Copied(s, done, child.ptes, child.mem, child.mapped) == true
    {
      BelowNext(j);
      NextMarked(s, PagesOf(sz), j);
      CopyPage(parent, child, i, s, done);
      AtNextPage(i, j, sz);
      done := done + {i};
      i := i + PGSIZE;
      j := j + 1;
    }
  }

  /** How far the copy of a file of n bytes has come: `copy` agrees with it up to offset, and is longer
  only after a last, short chunk. */
  ghost predicate CopiedUpTo(file: seq<byte>, copy: seq<byte>, offset: nat) {
    && offset <= |file| && offset <= |copy| && copy[..offset] == file[..offset] && |copy| % CHUNK == 0
    && |copy| < offset + CHUNK && (offset < |file| ==> offset == |copy|)
  }

  lemma CopyChunk(file: seq<byte>, copy: seq<byte>, offset: nat, n: nat, buff: seq<byte>)
    requires CopiedUpTo(file, copy, offset) && offset < |file| && |buff| == CHUNK
    requires n == if |file| - offset < CHUNK then |file| - offset else CHUNK
    requires buff[..n] == file[offset..offset + n]
    ensures CopiedUpTo(file, FM.Splice(copy, offset, buff), offset + n)
  {
    var c := FM.Splice(copy, offset, buff);
    assert c == copy + buff;
    assert c[..offset + n] == copy[..offset] + buff[..n];
    assert file[..offset + n] == file[..offset] + file[offset..offset + n];
  }

  /** copy_parent_swapfile: the file is copied in chunks of half a page.  A short last chunk is written
  out with the rest of the buffer behind it, so the copy is exact if and only if the length of the
  file is a multiple of half a page. */
  method CopySwapFile(parent: Process, child: Process)
    requires parent != child && child.swap == [] && |parent.swap| <= FM.MAXFILE * BSIZE
    modifies child`swap
    ensures CopiedUpTo(parent.swap, child.swap, |parent.swap|)
    ensures child.swap == parent.swap <==> |parent.swap| % CHUNK == 0
  {
    var buff: seq<byte> := seq(CHUNK, _ => 0);
    var offset := 0;
    while offset < |parent.swap|
      invariant |buff| == CHUNK && CopiedUpTo(parent.swap, child.swap, offset)
    {
      var n := if |parent.swap| - offset < CHUNK then |parent.swap| - offset else CHUNK;
      buff := parent.swap[offset..offset + n] + buff[n..];
      CopyChunk(parent.swap, child.swap, offset, n, buff);
      ChunkFits(offset, |parent.swap|);
      child.WriteToSwapFile(buff, offset);
      offset := offset + n;
    }
    assert parent.swap[..offset] == parent.swap;
    if |parent.swap| % CHUNK == 0 {
      SameMultiple(|child.swap|, |parent.swap|);
      assert child.swap[..offset] == child.swap;
    }
  }

  lemma ChunkFits(offset: nat, n: nat)
    requires offset < n <= FM.MAXFILE * BSIZE && offset % CHUNK == 0
    ensures offset + CHUNK <= FM.MAXFILE * BSIZE
  {
    assert FM.MAXFILE * BSIZE == 35 * CHUNK;
  }

  lemma SameMultiple(a: nat, b: nat)
    requires b <= a < b + CHUNK && a % CHUNK == b % CHUNK == 0
    ensures a == b
  {}

  /** The rest of copy_parent_swapfile: the tables are copied as they are. */
  method CopyMeta(parent: Process, child: Process)
    requires parent != child && parent.Shape() && child.Shape() && parent.pq.Valid() && child.pq.Valid()
    requires parent.pages != child.pages && parent.offsets != child.offsets && parent.pq != child.pq
    requires parent.pages != child.pq.pages && child.pages != parent.pq.pages && parent.pq.pages != child.pq.pages
    modifies child`entry, child`owner, child.pages, child.offsets, child.pq, child.pq.pages
    ensures child.pq.Valid() && child.pages[..] == parent.pages[..] && child.offsets[..] == parent.offsets[..]
    ensures Addrs(child.pq.Contents()) == Addrs(parent.pq.Contents())
    ensures child.entry == parent.entry && child.owner == parent.owner && parent.Abs() == old(parent.Abs())
  {
    forall i | 0 <= i < MAX_TOTAL_PAGES {
      child.pages[i] := parent.pages[i];
    }
    forall i | 0 <= i < MAX_TOTAL_PAGES {
      child.offsets[i] := parent.offsets[i];
    }
    forall i | 0 <= i < MAX_TOTAL_PAGES {
      child.pq.pages[i] := parent.pq.pages[i];
    }
    child.pq.lastIndex := parent.pq.lastIndex;
    child.entry := parent.entry;
    child.owner := parent.owner;
    assert child.pq.Contents() == parent.pq.Contents();
  }

  lemma HalfPages(n: nat)
    requires n % PGSIZE == 0
    ensures n % CHUNK == 0
  {}

  /** The parts of fork that copy memory, given the new process. */
  method CopyTo(parent: Process, child: Process, sz: nat) returns (ghost done: set<nat>)
    requires parent != child && parent.Valid() && Sized(parent.Abs(), PagesOf(sz))
    requires child.Shape() && child.pq.Valid() && child.swap == [] && child.ptes == map[]
    requires parent.pages != child.pages && parent.offsets != child.offsets && parent.pq != child.pq
    requires parent.pages != child.pq.pages && child.pages != parent.pq.pages && parent.pq.pages != child.pq.pages
    modifies parent`ptes, child, child.pages, child.offsets, child.pq, child.pq.pages
    ensures parent.pq.Valid() && child.pq.Valid() && Range(done, PagesOf(sz))
    ensures RewrittenIn(old(parent.ptes), parent.ptes, done)
    ensures Copied(old(parent.Abs()), done, child.ptes, child.mem, child.mapped)
    ensures parent.Abs() == old(parent.Abs()).(ptes := parent.ptes)
    ensures child.Abs() == old(parent.Abs()).(ptes := child.ptes, mem := child.mem, mapped := child.mapped)
  {
    HalfPages(|parent.swap|);
    done := CopyUvm(parent, child, sz);
    CopySwapFile(parent, child);
    CopyMeta(parent, child);
  }

  /** allocproc, as far as memory goes. */
  method AllocProc(policy: Policy) returns (child: Process)
    ensures fresh(child) && fresh(child.pages) && fresh(child.offsets) && fresh(child.pq) && fresh(child.pq.pages)
    ensures child.policy == policy && child.Shape() && child.pq.Valid() && child.swap == [] && child.ptes == map[]
  {
    child := new Process(policy);
  }

  // ---- what parent and child then have ----

  /** t has the first n pages of s, and each with the same contents. */
  ghost predicate SameBelow(s: Space, t: Space, n: nat) {
    forall va {:trigger Below(va, n)} :: Below(va, n) ==>
        va in s.ptes && va in t.ptes && Logical(t, va) == Logical(s, va)
  }

  lemma RewriteKeeps(s: Space, ptes: map<nat, Pte>, done: set<nat>)
    requires Inv(s) && RewrittenIn(s.ptes, ptes, done)
    ensures Inv(s.(ptes := ptes)) && SameMemory(s, s.(ptes := ptes))
  {
    SameTables(s, s.(ptes := ptes));
    RewriteFrames(s, ptes, done);
  }

  lemma RewriteFrames(s: Space, ptes: map<nat, Pte>, done: set<nat>)
    requires |s.pages| == MAX_TOTAL_PAGES && FramesOk(s) && RewrittenIn(s.ptes, ptes, done)
    ensures FramesOk(s.(ptes := ptes)) && SameMemory(s, s.(ptes := ptes))
  {}

  /** c is s with its pages below n, and no others, copied to frames of its own. */
  ghost predicate CopyOf(s: Space, c: Space, n: nat, done: set<nat>) {
    && Inv(s) && Range(done, n) && (forall va {:trigger Below(va, n)} :: Below(va, n) ==> va in s.ptes)
    && Copied(s, done, c.ptes, c.mem, c.mapped) && c == s.(ptes := c.ptes, mem := c.mem, mapped := c.mapped)
  }

  /** The child's page table agrees with its tables if and only if no page in memory was left over in the
  parent: such a page is recorded in the child but not mapped. */
  lemma CopyFrames(s: Space, c: Space, n: nat, done: set<nat>)
    requires CopyOf(s, c, n, done) == true
    ensures FramesOk(c) == LeftoversOut(s, n)
  {
    forall va {:trigger c.ptes[va]} | va in c.ptes
      ensures if InBack(c, va) then !c.ptes[va].present && c.ptes[va].pagedOut
              else c.ptes[va].present && !c.ptes[va].pagedOut && c.ptes[va].frame in c.mem
                   && c.ptes[va].frame in c.mapped && c.mapped[c.ptes[va].frame] == va
    {
      assert va in done && Below(va, n);
      PresentOrOut(s, va);
    }
    assert forall va :: InBack(c, va) == InBack(s, va);
    if FramesOk(c) {
      forall va | va in s.entry && !Below(va, n)
        ensures InBack(s, va)
      {
        assert va !in c.ptes && c.entry[va] == s.entry[va];
      }
    }
  }

  lemma CopyContents(s: Space, c: Space, n: nat, done: set<nat>)
    requires CopyOf(s, c, n, done) == true
    ensures SameBelow(s, c, n)
  {
    forall va {:trigger Below(va, n)} | Below(va, n)
      ensures va in c.ptes && Logical(c, va) == Logical(s, va)
    {
      assert va in done && va in c.ptes;
      PresentOrOut(s, va);
    }
  }

  lemma ParentKeeps(p: Policy, s: Space, t: Space, n: nat, done: set<nat>)
    requires Sized(s, n) && QueueFits(p, s) && RewrittenIn(s.ptes, t.ptes, done) && t == s.(ptes := t.ptes)
    ensures Sized(t, n) && SameMemory(s, t) && QueueFits(p, t)
  {
    RewriteKeeps(s, t.ptes, done);
    SameCovers(s.entry, s.ptes, t.ptes, n);
    SameQueue(p, s, t);
  }

  lemma ChildCovers(entry: map<nat, nat>, ptes: map<nat, Pte>, ptes': map<nat, Pte>, n: nat)
    requires Covers(entry, ptes, n)
    requires forall va {:trigger va in ptes'} {:trigger Below(va, n)} :: va in ptes' <==> Below(va, n)
    ensures Covers(entry, ptes', n)
  {}

  lemma ChildHas(p: Policy, s: Space, c: Space, n: nat, done: set<nat>)
    requires Sized(s, n) && QueueFits(p, s) == true && Range(done, n)
    requires Copied(s, done, c.ptes, c.mem, c.mapped) && c == s.(ptes := c.ptes, mem := c.mem, mapped := c.mapped)
    ensures SameBelow(s, c, n) == true && QueueFits(p, c) == true && Covers(c.entry, c.ptes, n) == true
    ensures Inv(c) == LeftoversOut(s, n)
  {
    SameQueue(p, s, c);
    SameTables(s, c);
    assert CopyOf(s, c, n, done);
    CopyFrames(s, c, n, done);
    CopyContents(s, c, n, done);
    ChildCovers(s.entry, s.ptes, c.ptes, n);
  }

  /** fork of a process of size sz: the parent sees the same memory as before, and the child sees the same
  contents in every page below its size, in tables of its own, with the same pages resident, swapped and
  queued.  The child's tables are in step if and only if whatever the parent has left over from larger
  times is swapped out. */
  method Fork(parent: Process, sz: nat) returns (child: Process)
    requires parent.Valid() && Sized(parent.Abs(), PagesOf(sz))
    modifies parent`ptes
    ensures fresh(child) && fresh(child.pages) && fresh(child.offsets) && fresh(child.pq) && fresh(child.pq.pages)
    ensures parent.Valid() && child.pq.Valid() && (child.Valid() <==> old(LeftoversOut(parent.Abs(), PagesOf(sz))))
    ensures Sized(parent.Abs(), PagesOf(sz)) && (child.Valid() ==> Sized(child.Abs(), PagesOf(sz)))
    ensures SameMemory(old(parent.Abs()), parent.Abs()) && SameBelow(old(parent.Abs()), child.Abs(), PagesOf(sz))
    ensures child.Abs() == old(parent.Abs()).(ptes := child.ptes, mem := child.mem, mapped := child.mapped)
    ensures forall va {:trigger va in child.ptes} :: va in child.ptes <==> Below(va, PagesOf(sz))
  {
    child := AllocProc(parent.policy);
    ghost var done := CopyTo(parent, child, sz);
    ParentKeeps(parent.policy, old(parent.Abs()), parent.Abs(), PagesOf(sz), done);
    ChildHas(parent.policy, old(parent.Abs()), child.Abs(), PagesOf(sz), done);
  }
}
