/** Under NFUA a process can fill its queue, so that its next page fault makes the kernel panic: a run that
does so, from the beginning.

NFUA drops the head of the queue where it swaps out another page.  Two pages that take turns in memory therefore
fill the queue with entries of their own, while the other pages lose theirs, and giving those back takes
nothing out of the queue. */
module QueueOverflow {
  import opened PageQueue
  import opened Paging
  import opened AddressSpace
  import opened Growth
  import opened Replacement
  import opened SwapRuns
  import opened PolicyRuns

  /** Page i is in record i, for i < n, and has never been seen accessed; only page b is swapped out, or none if b
  is -1; and the queue is q. */
  ghost predicate Plain(pages: seq<Page>, n: nat, b: int) {
    && |pages| == MAX_TOTAL_PAGES
    && forall i {:trigger pages[i]} :: 0 <= i < MAX_TOTAL_PAGES ==>
         && pages[i].live == (i < n)
         && (i < n ==> pages[i].vaddr == i * PGSIZE && pages[i].age == 0 && pages[i].inBack == (i == b))
  }

  ghost predicate Shape(s: Space, n: nat, b: int, q: seq<nat>) {
    && Plain(s.pages, n, b) && s.queue == q
    && forall va {:trigger va in s.ptes} :: va in s.ptes <==> Below(va, n)
  }

  ghost predicate At(s: Space, n: nat, b: int, q: seq<nat>) {
    Kept(Nfua, s) && Shape(s, n, b, q)
  }

  /** Some run leads to s, and s has this shape. */
  ghost predicate Led(s: Space, n: nat, b: int, q: seq<nat>) {
    Reached(Nfua, s) && Shape(s, n, b, q)
  }

  lemma LedAt(s: Space, n: nat, b: int, q: seq<nat>)
    requires Led(s, n, b, q)
    ensures At(s, n, b, q) == true
  {
    ReachedKept(Nfua, s);
  }

  lemma Arrive(s: Space, e: Event, t: Space, n: nat, b: int, q: seq<nat>)
    requires Reached(Nfua, s) && Kept(Nfua, s) && Next(s, e, t) && Follows(Nfua, s, e) && Shape(t, n, b, q)
    ensures Led(t, n, b, q) == true
  {
    ReachNext(Nfua, s, e, t);
  }

  lemma {:induction false} CountPlain(pages: seq<Page>, n: nat, b: int, k: nat)
    requires Plain(pages, n, b) && k <= MAX_TOTAL_PAGES && -1 <= b < n
    ensures CountIn(pages[..k]) == (if k < n then k else n) - (if 0 <= b < k then 1 else 0)
  {
    if k > 0 {
      CountPlain(pages, n, b, k - 1);
      assert pages[..k][..k - 1] == pages[..k - 1] && pages[..k][k - 1] == pages[k - 1];
    }
  }

  lemma CountAt(s: Space, n: nat, b: int, q: seq<nat>)
    requires At(s, n, b, q) && -1 <= b < n <= MAX_TOTAL_PAGES
    ensures CountIn(s.pages) == n - if b >= 0 then 1 else 0
  {
    CountPlain(s.pages, n, b, MAX_TOTAL_PAGES);
    assert s.pages[..MAX_TOTAL_PAGES] == s.pages;
  }

  // ---- the steps ----

  function Tail(q: seq<nat>): seq<nat> {
    if q == [] then [] else q[1..]
  }

  lemma EntryAt(s: Space, n: nat, b: int, q: seq<nat>, i: nat)
    requires At(s, n, b, q) && n <= MAX_TOTAL_PAGES
    ensures i < n ==> i * PGSIZE in s.entry && s.entry[i * PGSIZE] == i && i * PGSIZE in s.ptes
    ensures i >= n ==> i * PGSIZE !in s.entry && i * PGSIZE !in s.ptes
  {
    PageNoOf(i);
    if i * PGSIZE in s.entry {
      assert s.entry[i * PGSIZE] == i && s.pages[i].live;
    }
    if i < n {
      assert s.pages[i].live && s.pages[i].vaddr == i * PGSIZE;
    }
  }

  lemma FreeAt(pages: seq<Page>, n: nat, b: int)
    requires Plain(pages, n, b) && n < MAX_TOTAL_PAGES
    ensures FreeRecord(pages) == n
  {
    assert !pages[n].live && forall k :: 0 <= k < n ==> pages[k].live;
  }

  /** The first page in memory is the coldest. */
  lemma ColdestAt(pages: seq<Page>, n: nat, b: int)
    requires Plain(pages, n, b) && 2 <= n <= MAX_TOTAL_PAGES
    ensures Coldest(pages) == if b == 0 then 1 else 0
  {
    var v := if b == 0 then 1 else 0;
    assert Resident(pages[v]) && !pages[0].inBack == (b != 0);
    assert Picked(pages, v);
    PickedIsColdest(pages, v);
  }

  lemma RoomPages(s: Space, c: Choice)
    requires Inv(s) && CountIn(s.pages) == MAX_PSYC_PAGES && Eligible(s, c)
    ensures var i, r := s.entry[c.va], Room(s, c);
            && r.pages == s.pages[i := s.pages[i].(inBack := true, offset := r.pages[i].offset)]
            && r.queue == c.rest && r.entry == s.entry
            && forall va {:trigger va in r.ptes} :: va in r.ptes <==> va in s.ptes
  {
    RoomFits(s, c);
  }

  lemma ChoiceAt(s: Space, n: nat, b: int, q: seq<nat>)
    requires At(s, n, b, q) && -1 <= b < n && 2 <= n <= MAX_TOTAL_PAGES && CountIn(s.pages) == MAX_PSYC_PAGES
    ensures q != [] && Choose(Nfua, s) == Choice((if b == 0 then 1 else 0) * PGSIZE, s.ptes, Tail(q))
    ensures Eligible(s, Choose(Nfua, s))
  {
    ColdestAt(s.pages, n, b);
    ChoiceFits(Nfua, s);
  }

  // ---- growing ----

  lemma MapShape(r: Space, n: nat, b: int, q: seq<nat>, f: nat)
    requires Shape(r, n, b, q) && n < MAX_TOTAL_PAGES && b < n
    ensures Shape(MapPage(r, n * PGSIZE, f), n + 1, b, q + [n * PGSIZE])
  {
    FreeAt(r.pages, n, b);
    BelowNext(n);
    assert MapPage(r, n * PGSIZE, f).pages == r.pages[n := NewRecord.(live := true, vaddr := n * PGSIZE)];
  }

  lemma NewAt(s: Space, n: nat, b: int, q: seq<nat>)
    requires At(s, n, b, q) && n < MAX_TOTAL_PAGES
    ensures IsNew(s, n * PGSIZE) && FreeRecord(s.pages) == PageNo(n * PGSIZE) == n
  {
    EntryAt(s, n, b, q, n);
    FreeAt(s.pages, n, b);
    PageNoOf(n);
  }

  lemma GrowStep(s: Space, n: nat, b: int, q: seq<nat>, f: nat)
    requires At(s, n, b, q) && -1 <= b < n <= MAX_PSYC_PAGES && (b < 0 ==> n < MAX_PSYC_PAGES) && |q| < MAX_TOTAL_PAGES
    requires f !in s.mem
    ensures var e := Grow(Choose(Nfua, s), n * PGSIZE, f);
            Next(s, e, MapPage(s, n * PGSIZE, f)) == true && Follows(Nfua, s, e) == true
  {
    CountAt(s, n, b, q);
    NewAt(s, n, b, q);
    RoomHere(s);
  }

  /** There is room already. */
  lemma RoomHere(s: Space)
    requires Kept(Nfua, s) && CountIn(s.pages) != MAX_PSYC_PAGES
    ensures RoomBy(Nfua, s) == s && MayTake(s, Choose(Nfua, s)) && Room(s, Choose(Nfua, s)) == s
  {}

  /** The process grows by a page for which there is room. */
  lemma GrowAt(s: Space, n: nat, b: int, q: seq<nat>) returns (t: Space)
    requires Led(s, n, b, q) == true && -1 <= b < n <= MAX_PSYC_PAGES && (b < 0 ==> n < MAX_PSYC_PAGES)
    requires |q| < MAX_TOTAL_PAGES
    ensures Led(t, n + 1, b, q + [n * PGSIZE]) == true
  {
    LedAt(s, n, b, q);
    FrameLeft(s.mem);
    var f: nat :| f !in s.mem;
    t := MapPage(s, n * PGSIZE, f);
    GrowStep(s, n, b, q, f);
    MapShape(s, n, b, q, f);
    Arrive(s, Grow(Choose(Nfua, s), n * PGSIZE, f), t, n + 1, b, q + [n * PGSIZE]);
  }

  lemma OutShape(s: Space, r: Space, n: nat, b: int, v: nat, q: seq<nat>)
    requires Plain(s.pages, n, b) && v < n <= MAX_TOTAL_PAGES == |r.pages| && v != b
    requires r.pages == s.pages[v := s.pages[v].(inBack := true, offset := r.pages[v].offset)]
    ensures b < 0 ==> Plain(r.pages, n, v)
    ensures 0 <= b < n ==> Plain(r.pages[b := Refreshed(r.pages[b])], n, v)
  {}

  /** Making room at a full memory: the first page in memory leaves, and the head of the queue is dropped. */
  lemma RoomAt(s: Space, n: nat, b: int, q: seq<nat>)
    requires At(s, n, b, q) && -1 <= b < n && 2 <= n <= MAX_TOTAL_PAGES && CountIn(s.pages) == MAX_PSYC_PAGES
    ensures MayTake(s, Choose(Nfua, s)) && |s.queue| > 0
    ensures var r, v := RoomBy(Nfua, s), if b == 0 then 1 else 0;
            && r == Room(s, Choose(Nfua, s)) && |r.pages| == MAX_TOTAL_PAGES && r.queue == Tail(q)
            && r.pages == s.pages[v := s.pages[v].(inBack := true, offset := r.pages[v].offset)]
            && forall va {:trigger va in r.ptes} :: va in r.ptes <==> va in s.ptes
  {
    ChoiceAt(s, n, b, q);
    EntryAt(s, n, b, q, if b == 0 then 1 else 0);
    RoomPages(s, Choose(Nfua, s));
  }

  /** The process grows by a page while memory is full, and its first page leaves. */
  lemma GrowFull(s: Space, q: seq<nat>) returns (t: Space)
    requires Led(s, MAX_PSYC_PAGES, -1, q) == true && |q| <= MAX_TOTAL_PAGES
    ensures Led(t, MAX_PSYC_PAGES + 1, 0, Tail(q) + [MAX_PSYC_PAGES * PGSIZE]) == true
  {
    LedAt(s, MAX_PSYC_PAGES, -1, q);
    var n := MAX_PSYC_PAGES;
    CountAt(s, n, -1, q);
    RoomAt(s, n, -1, q);
    var r := RoomBy(Nfua, s);
    FrameLeft(r.mem);
    var f: nat :| f !in r.mem;
    t := MapPage(r, n * PGSIZE, f);
    var e := Grow(Choose(Nfua, s), n * PGSIZE, f);
    NewAt(s, n, -1, q);
    assert Next(s, e, t) && Follows(Nfua, s, e);
    OutShape(s, r, n, -1, 0, q);
    MapShape(r, n, 0, Tail(q), f);
    Arrive(s, e, t, n + 1, 0, Tail(q) + [n * PGSIZE]);
  }

  // ---- faulting ----

  lemma OutAt(s: Space, n: nat, b: nat, q: seq<nat>)
    requires At(s, n, b, q) && b < n <= MAX_TOTAL_PAGES
    ensures PagedOut(s, b * PGSIZE) && s.entry[b * PGSIZE] == b && b * PGSIZE in s.entry
  {
    EntryAt(s, n, b, q, b);
    assert s.pages[b].inBack;
    PresentOrOut(s, b * PGSIZE);
  }

  lemma FaultShape(s: Space, n: nat, b: nat, v: int, q: seq<nat>, f: nat)
    requires At(s, n, b, q) && b < n && 2 <= n <= MAX_TOTAL_PAGES && CountIn(s.pages) == MAX_PSYC_PAGES
    requires PagedOut(s, b * PGSIZE) && v == if b == 0 then 1 else 0
    ensures Shape(FaultBy(Nfua, s, b * PGSIZE, f, false), n, v, Tail(q) + [b * PGSIZE])
  {
    var va, r := b * PGSIZE, RoomBy(Nfua, s);
    OutAt(s, n, b, q);
    RoomAt(s, n, b, q);
    RoomKeeps(s, Choose(Nfua, s));
    RoomKeepsOut(s, Choose(Nfua, s), va);
    RoomOnlyOut(s, Choose(Nfua, s));
    OutShape(s, r, n, b, v, q);
    SwapInShape(r, b, f, Tail(q));
  }

  lemma SwapInShape(r: Space, b: nat, f: nat, q: seq<nat>)
    requires Inv(r) && b * PGSIZE in r.ptes && InBack(r, b * PGSIZE) && r.entry[b * PGSIZE] == b && r.queue == q
    ensures var t := SwapIn(r, b * PGSIZE, f, false);
            && b < MAX_TOTAL_PAGES && t.pages == r.pages[b := Refreshed(r.pages[b])] && t.queue == q + [b * PGSIZE]
            && forall va {:trigger va in t.ptes} :: va in t.ptes <==> va in r.ptes
  {}

  lemma FaultStep(s: Space, n: nat, b: nat, q: seq<nat>, f: nat)
    requires At(s, n, b, q) && b < n && 2 <= n <= MAX_TOTAL_PAGES && CountIn(s.pages) == MAX_PSYC_PAGES
    requires f !in s.mem && |q| <= MAX_TOTAL_PAGES && PagedOut(s, b * PGSIZE)
    ensures var e := Event.Fault(Choose(Nfua, s), b * PGSIZE, f, false);
            && Next(s, e, FaultBy(Nfua, s, b * PGSIZE, f, false)) == true
            && Follows(Nfua, s, e) == true
  {
    RoomAt(s, n, b, q);
  }

  lemma FaultLeads(s: Space, b: nat, q: seq<nat>, f: nat)
    requires At(s, MAX_PSYC_PAGES + 1, b, q) && b <= 1 && |q| <= MAX_TOTAL_PAGES && f !in s.mem
    ensures PagedOut(s, b * PGSIZE)
    ensures var e, t := Event.Fault(Choose(Nfua, s), b * PGSIZE, f, false), FaultBy(Nfua, s, b * PGSIZE, f, false);
            && Next(s, e, t) == true && Follows(Nfua, s, e) == true
            && Shape(t, MAX_PSYC_PAGES + 1, 1 - b, Tail(q) + [b * PGSIZE])
  {
    var n := MAX_PSYC_PAGES + 1;
    CountAt(s, n, b, q);
    OutAt(s, n, b, q);
    FaultStep(s, n, b, q, f);
    FaultShape(s, n, b, 1 - b, q, f);
  }

  /** A fault on the page that is swapped out: page 0 and page 1 change places. */
  lemma FaultAt(s: Space, b: int, q: seq<nat>) returns (t: Space)
    requires Led(s, MAX_PSYC_PAGES + 1, b, q) == true && 0 <= b <= 1 && |q| <= MAX_TOTAL_PAGES
    ensures Led(t, MAX_PSYC_PAGES + 1, 1 - b, Tail(q) + [b * PGSIZE]) == true
  {
    LedAt(s, MAX_PSYC_PAGES + 1, b, q);
    FrameLeft(s.mem);
    var f: nat :| f !in s.mem;
    FaultLeads(s, b, q, f);
    t := FaultBy(Nfua, s, b * PGSIZE, f, false);
    Arrive(s, Event.Fault(Choose(Nfua, s), b * PGSIZE, f, false), t, MAX_PSYC_PAGES + 1, 1 - b,
           Tail(q) + [b * PGSIZE]);
  }

  // ---- shrinking ----

  lemma DropShape(s: Space, n: nat, b: int, q: seq<nat>)
    requires At(s, n, b, q) && 0 <= b < n - 1 < MAX_TOTAL_PAGES && (n - 1) * PGSIZE !in q
    ensures Shape(DropPage(s, (n - 1) * PGSIZE), n - 1, b, q) && Hit(s, (n - 1) * PGSIZE, 0)
  {
    var i, va := n - 1, (n - 1) * PGSIZE;
    EntryAt(s, n, b, q, i);
    BelowNext(i);
    PresentOrOut(s, va);
    assert s.ptes[va].present;
    DropOne(s, va);
    Dropped(s, i, va, q);
  }

  lemma Dropped(s: Space, i: nat, va: nat, q: seq<nat>)
    requires va in s.entry && s.entry[va] == i < |s.pages| && s.queue == q && va !in q && va in s.ptes
    requires s.ptes[va].present
    ensures DropPage(s, va).pages == s.pages[i := NewRecord] && DropPage(s, va).queue == q
  {}

  /** The last page is given back; it is not in the queue. */
  lemma ShrinkAt(s: Space, n: nat, b: int, q: seq<nat>) returns (t: Space)
    requires Led(s, n, b, q) == true && 0 <= b < n - 1 < MAX_TOTAL_PAGES && (n - 1) * PGSIZE !in q
    ensures Led(t, n - 1, b, q) == true
  {
    LedAt(s, n, b, q);
    t := DropPage(s, (n - 1) * PGSIZE);
    DropShape(s, n, b, q);
    assert Next(s, Shrink((n - 1) * PGSIZE), t);
    Arrive(s, Shrink((n - 1) * PGSIZE), t, n - 1, b, q);
  }

  // ---- the run ----

  lemma Start() returns (s: Space)
    ensures Led(s, 0, -1, []) == true
  {
    s := Space(seq(MAX_TOTAL_PAGES, _ => NewRecord), seq(MAX_TOTAL_PAGES, _ => false), [], map[], map[], [],
               map[], map[], map[]);
    NothingCounted(s.pages, s.offsets);
    assert TableOk(s) && SlotsOk(s) && FramesOk(s);
    assert IsEmpty(s);
    EmptyKept(Nfua, s);
    assert IsRunOf(Nfua, [s], []);
  }

  /** A set of situations, each a number of pages, the page that is swapped out, and the queue. */
  type Situations = (nat, int, seq<nat>) -> bool

  ghost predicate In(R: Situations, n: nat, b: int, q: seq<nat>) {
    R(n, b, q)
  }

  ghost predicate KeptByGrowing(R: Situations) {
    forall n: nat, b: int, q: seq<nat> {:trigger In(R, n, b, q)} ::
      In(R, n, b, q) && -1 <= b < n <= MAX_PSYC_PAGES && (b < 0 ==> n < MAX_PSYC_PAGES) && |q| < MAX_TOTAL_PAGES ==>
        R(n + 1, b, q + [n * PGSIZE])
  }

  ghost predicate KeptByFaulting(R: Situations) {
    forall b: int, q: seq<nat> {:trigger In(R, MAX_PSYC_PAGES + 1, b, q)} ::
      In(R, MAX_PSYC_PAGES + 1, b, q) && 0 <= b <= 1 && |q| <= MAX_TOTAL_PAGES ==>
        R(MAX_PSYC_PAGES + 1, 1 - b, Tail(q) + [b * PGSIZE])
  }

  ghost predicate KeptByShrinking(R: Situations) {
    forall n: nat, b: int, q: seq<nat> {:trigger In(R, n, b, q)} ::
      In(R, n, b, q) && 0 <= b < n - 1 < MAX_TOTAL_PAGES && (n - 1) * PGSIZE !in q ==> R(n - 1, b, q)
  }

  /** Growing up to n pages, while there is room for them. */
  lemma {:induction false} GrowUpTo(R: Situations, m: nat, b: int, q: seq<nat>, n: nat) returns (r: seq<nat>)
    requires KeptByGrowing(R) && R(m, b, q) && -1 <= b < m <= n <= MAX_PSYC_PAGES + (if b < 0 then 0 else 1)
    requires |q| + n - m <= MAX_TOTAL_PAGES
    ensures R(n, b, r) && |r| == |q| + n - m
    decreases n - m
  {
    r := q;
    if m < n {
      assert In(R, m, b, q);
      r := GrowUpTo(R, m + 1, b, q + [m * PGSIZE], n);
    }
  }

  /** Only the first two pages are queued. */
  ghost predicate OnlyTwo(q: seq<nat>) {
    forall i {:trigger q[i]} :: 0 <= i < |q| ==> q[i] < 2 * PGSIZE
  }

  /** Faults until nothing is left of the queue as it was. */
  lemma {:induction false} FaultsFill(R: Situations, b: int, q: seq<nat>, r: seq<nat>) returns (c: int, u: seq<nat>)
    requires KeptByFaulting(R) && R(MAX_PSYC_PAGES + 1, b, q + r)
    requires 0 <= b <= 1 && |q| + |r| <= MAX_TOTAL_PAGES && OnlyTwo(r)
    ensures R(MAX_PSYC_PAGES + 1, c, u) && 0 <= c <= 1 && |u| == |q| + |r| && OnlyTwo(u)
    decreases |q|
  {
    if q == [] {
      assert q + r == r;
      c, u := b, r;
    } else {
      assert In(R, MAX_PSYC_PAGES + 1, b, q + r);
      assert Tail(q + r) + [b * PGSIZE] == q[1..] + (r + [b * PGSIZE]);
      c, u := FaultsFill(R, 1 - b, q[1..], r + [b * PGSIZE]);
    }
  }

  /** Giving back all pages from m on: none of them is queued. */
  lemma {:induction false} ShrinkDownTo(R: Situations, n: nat, b: int, q: seq<nat>, m: nat)
    requires KeptByShrinking(R) && R(n, b, q) && 0 <= b <= 1 && 2 <= m <= n <= MAX_TOTAL_PAGES && OnlyTwo(q)
    ensures R(m, b, q)
    decreases n
  {
    if m < n {
      assert In(R, n, b, q);
      ShrinkDownTo(R, n - 1, b, q, m);
    }
  }

  /** One round: the pages behind the first two lose their places in the queue, are given back, and come again. */
  lemma Round(R: Situations, b: int, q: seq<nat>, m: nat, n: nat) returns (c: int, r: seq<nat>)
    requires KeptByGrowing(R) && KeptByFaulting(R) && KeptByShrinking(R) && R(MAX_PSYC_PAGES + 1, b, q) && 0 <= b <= 1
    requires 2 <= m <= n <= MAX_PSYC_PAGES + 1 && |q| + n - m <= MAX_TOTAL_PAGES
    ensures R(n, c, r) && 0 <= c <= 1 && |r| == |q| + n - m
  {
    assert q + [] == q;
    c, r := FaultsFill(R, b, q, []);
    ShrinkDownTo(R, MAX_PSYC_PAGES + 1, c, r, m);
    r := GrowUpTo(R, m, c, r, n);
  }

  /** Some run leads to this situation. */
  ghost predicate Can(n: nat, b: int, q: seq<nat>) {
    exists s :: Led(s, n, b, q)
  }

  ghost function Possible(): Situations {
    (n: nat, b: int, q: seq<nat>) => Can(n, b, q)
  }

  lemma Pick(n: nat, b: int, q: seq<nat>) returns (s: Space)
    requires Can(n, b, q)
    ensures Led(s, n, b, q) == true
  {
    s :| Led(s, n, b, q) == true;
  }

  lemma Found(s: Space, n: nat, b: int, q: seq<nat>)
    requires Led(s, n, b, q) == true
    ensures Can(n, b, q) == true
  {}

  lemma CanGrow(n: nat, b: int, q: seq<nat>)
    requires Can(n, b, q) == true && -1 <= b < n <= MAX_PSYC_PAGES && (b < 0 ==> n < MAX_PSYC_PAGES)
    requires |q| < MAX_TOTAL_PAGES
    ensures Can(n + 1, b, q + [n * PGSIZE]) == true
  {
    var s := Pick(n, b, q);
    var t := GrowAt(s, n, b, q);
    Found(t, n + 1, b, q + [n * PGSIZE]);
  }

  lemma CanFault(b: int, q: seq<nat>)
    requires Can(MAX_PSYC_PAGES + 1, b, q) == true && 0 <= b <= 1 && |q| <= MAX_TOTAL_PAGES
    ensures Can(MAX_PSYC_PAGES + 1, 1 - b, Tail(q) + [b * PGSIZE]) == true
  {
    var s := Pick(MAX_PSYC_PAGES + 1, b, q);
    var t := FaultAt(s, b, q);
    Found(t, MAX_PSYC_PAGES + 1, 1 - b, Tail(q) + [b * PGSIZE]);
  }

  lemma CanShrink(n: nat, b: int, q: seq<nat>)
    requires Can(n, b, q) == true && 0 <= b < n - 1 < MAX_TOTAL_PAGES && (n - 1) * PGSIZE !in q
    ensures Can(n - 1, b, q) == true
  {
    var s := Pick(n, b, q);
    var t := ShrinkAt(s, n, b, q);
    Found(t, n - 1, b, q);
  }

  lemma PossibleGrows()
    ensures KeptByGrowing(Possible()) == true
  {
    forall n: nat, b: int, q: seq<nat> {:trigger In(Possible(), n, b, q)}
      | In(Possible(), n, b, q) && -1 <= b < n <= MAX_PSYC_PAGES && (b < 0 ==> n < MAX_PSYC_PAGES)
        && |q| < MAX_TOTAL_PAGES
      ensures Possible()(n + 1, b, q + [n * PGSIZE])
    {
      CanGrow(n, b, q);
    }
  }

  lemma PossibleFaults()
    ensures KeptByFaulting(Possible()) == true
  {
    forall b: int, q: seq<nat> {:trigger In(Possible(), MAX_PSYC_PAGES + 1, b, q)}
      | In(Possible(), MAX_PSYC_PAGES + 1, b, q) && 0 <= b <= 1 && |q| <= MAX_TOTAL_PAGES
      ensures Possible()(MAX_PSYC_PAGES + 1, 1 - b, Tail(q) + [b * PGSIZE])
    {
      CanFault(b, q);
    }
  }

  lemma PossibleShrinks()
    ensures KeptByShrinking(Possible()) == true
  {
    forall n: nat, b: int, q: seq<nat> {:trigger In(Possible(), n, b, q)}
      | In(Possible(), n, b, q) && 0 <= b < n - 1 < MAX_TOTAL_PAGES && (n - 1) * PGSIZE !in q
      ensures Possible()(n - 1, b, q)
    {
      CanShrink(n, b, q);
    }
  }

  /** Some run fills the queue while only fifteen pages are in memory. */
  lemma FullQueue() returns (b: nat, q: seq<nat>)
    ensures Possible()(MAX_PSYC_PAGES, b, q) && b <= 1 && |q| == MAX_TOTAL_PAGES
  {
    PossibleGrows();
    PossibleFaults();
    PossibleShrinks();
    var s := Start();
    q := GrowUpTo(Possible(), 0, -1, [], MAX_PSYC_PAGES);
    FirstOut(q);
    q := Tail(q) + [MAX_PSYC_PAGES * PGSIZE];
    var c;
    c, q := Round(Possible(), 0, q, 2, MAX_PSYC_PAGES + 1);
    c, q := Round(Possible(), c, q, MAX_PSYC_PAGES - 1, MAX_PSYC_PAGES);
    b := c;
  }

  lemma FirstOut(q: seq<nat>)
    requires Possible()(MAX_PSYC_PAGES, -1, q) && |q| == MAX_PSYC_PAGES
    ensures Possible()(MAX_PSYC_PAGES + 1, 0, Tail(q) + [MAX_PSYC_PAGES * PGSIZE])
  {
    var s :| Led(s, MAX_PSYC_PAGES, -1, q) == true;
    var t := GrowFull(s, q);
  }

  /** Some run under NFUA ends with a page that is mapped and swapped out, and a queue that is full although only
  fifteen pages are in memory, so that no entry leaves it to make room: the next fault on that page panics. */
  lemma QueueOverflows() returns (s: Space, va: nat)
    ensures Reached(Nfua, s) && Kept(Nfua, s) && PagedOut(s, va) && CountIn(s.pages) == MAX_PSYC_PAGES - 1
    ensures |s.queue| == |RoomBy(Nfua, s).queue| == MAX_TOTAL_PAGES
  {
    var b, q := FullQueue();
    s :| Led(s, MAX_PSYC_PAGES, b, q);
    va := b * PGSIZE;
    LedAt(s, MAX_PSYC_PAGES, b, q);
    CountAt(s, MAX_PSYC_PAGES, b, q);
    OutAt(s, MAX_PSYC_PAGES, b, q);
    RoomLength(Nfua, s);
  }
}
