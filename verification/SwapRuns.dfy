/** Every run of a process, through page faults, growth and shrinking, is a run of a flat memory,
whichever pages the policy swaps out. */
module SwapRuns {
  import opened Blocks
  import opened PageQueue
  import opened Paging
  import AS = AddressSpace

  /** What can happen to the memory of a process: a page fault, a change of accessed bits by
  the processor, a clock tick, a store or a load by the program, which the processor
  carries out only on present pages, a new page, and the removal of a page in memory.
  pick: what the policy comes up with, if it has to make room. */
  datatype Event =
    | Fault(pick: AS.Choice, va: nat, frame: nat, accessed: bool)
    | Touch(ptes: map<nat, Pte>)
    | Tick(pages: seq<Page>, ptes: map<nat, Pte>)
    | Store(va: nat, off: nat, b: byte)
    | Load(va: nat, off: nat, b: byte)
    | Grow(pick: AS.Choice, va: nat, frame: nat)
    | Shrink(va: nat)

  ghost predicate Hit(s: Space, va: nat, off: nat) {
    off < PGSIZE && va in s.ptes && s.ptes[va].present && s.ptes[va].frame in s.mem
  }

  /** A page that is neither mapped nor recorded; page 0 is the first page of all. */
  ghost predicate IsNew(s: Space, va: nat) {
    va !in s.ptes && va !in s.entry && (va == 0 ==> AS.FreeRecord(s.pages) == 0)
  }

  ghost predicate Next(s: Space, e: Event, t: Space)
    requires AS.Bounded(s)
  {
    match e
    case Fault(pick, va, frame, accessed) =>
      AS.MayTake(s, pick) && AS.PagedOut(s, va) && frame !in s.mem && t == AS.Fault(s, pick, va, frame, accessed)
    case Touch(ptes) => SameButAccessed(s.ptes, ptes) && t == s.(ptes := ptes)
    case Tick(pages, ptes) => AS.Ticked(s, pages, ptes) && t == s.(pages := pages, ptes := ptes)
    case Store(va, off, b) => Hit(s, va, off) && t == Stored(s, va, off, b)
    case Load(va, off, b) => Hit(s, va, off) && b == s.mem[s.ptes[va].frame][off] && t == s
    case Grow(pick, va, frame) =>
      && AS.MayTake(s, pick) && IsNew(s, va) && frame !in AS.Room(s, pick).mem
      && t == AS.MapPage(AS.Room(s, pick), va, frame)
    case Shrink(va) => Hit(s, va, 0) && t == AS.DropPage(s, va)
  }

  ghost function Poke(page: seq<byte>, off: nat, b: byte): (r: seq<byte>)
    requires off < |page|
    ensures |r| == |page|
  {
    page[off := b]
  }

  ghost function Stored(s: Space, va: nat, off: nat, b: byte): Space
    requires Hit(s, va, off)
  {
    var f := s.ptes[va].frame;
    s.(mem := s.mem[f := Poke(s.mem[f], off, b)])
  }

  /** m holds the contents of every page. */
  ghost predicate IsFlat(s: Space, m: map<nat, seq<byte>>) {
    && (forall va {:trigger va in m} :: va in m <==> va in s.ptes)
    && forall va {:trigger m[va]} :: va in m ==> m[va] == Logical(s, va)
  }

  ghost function FlatStore(m: map<nat, seq<byte>>, va: nat, off: nat, b: byte): map<nat, seq<byte>> {
    if va in m && off < |m[va]| then m[va := Poke(m[va], off, b)] else m
  }

  /** What an event does to a flat memory. */
  ghost function FlatNext(m: map<nat, seq<byte>>, e: Event): map<nat, seq<byte>> {
    match e
    case Store(va, off, b) => FlatStore(m, va, off, b)
    case Grow(_, va, _) => m[va := ZeroPage()]
    case Shrink(va) => m - {va}
    case _ => m
  }

  lemma StoreKeeps(s: Space, va: nat, off: nat, b: byte)
    requires AS.Bounded(s) && Hit(s, va, off)
    ensures AS.Bounded(Stored(s, va, off, b))
  {
    var t := Stored(s, va, off, b);
    SameTables(s, t);
    StoreFrames(s, va, off, b);
  }

  lemma StoreFrames(s: Space, va: nat, off: nat, b: byte)
    requires |s.pages| == MAX_TOTAL_PAGES && FramesOk(s) && Hit(s, va, off)
    ensures FramesOk(Stored(s, va, off, b))
  {}

  lemma StoreContents(s: Space, t: Space, va: nat, off: nat, b: byte)
    requires Inv(s) && Hit(s, va, off) && t == Stored(s, va, off, b)
    ensures off < |Logical(s, va)| && Logical(t, va) == Poke(Logical(s, va), off, b)
    ensures forall vb {:trigger Logical(t, vb)} :: vb in s.ptes && vb != va ==> Logical(t, vb) == Logical(s, vb)
  {
    forall vb | vb in s.ptes && vb != va
      ensures Logical(t, vb) == Logical(s, vb)
    {
      assert s.ptes[vb].present ==> s.mapped[s.ptes[vb].frame] == vb;
    }
  }

  lemma StoreIsFlat(s: Space, m: map<nat, seq<byte>>, va: nat, off: nat, b: byte)
    requires IsFlat(s, m) && AS.Bounded(s) && Hit(s, va, off)
    ensures AS.Bounded(Stored(s, va, off, b)) && IsFlat(Stored(s, va, off, b), FlatStore(m, va, off, b))
  {
    StoreKeeps(s, va, off, b);
    StoreContents(s, Stored(s, va, off, b), va, off, b);
    PokedIsFlat(s, Stored(s, va, off, b), m, va, off, b);
  }

  lemma SameIsFlat(s: Space, t: Space, m: map<nat, seq<byte>>)
    requires IsFlat(s, m) && SameMemory(s, t)
    ensures IsFlat(t, m)
  {
    forall va | va in m
      ensures m[va] == Logical(t, va)
    {
      assert va in s.ptes && Logical(t, va) == Logical(s, va);
    }
  }

  lemma PokedIsFlat(s: Space, t: Space, m: map<nat, seq<byte>>, va: nat, off: nat, b: byte)
    requires IsFlat(s, m) && t.ptes == s.ptes && va in s.ptes && off < |Logical(s, va)|
    requires Logical(t, va) == Poke(Logical(s, va), off, b)
    requires forall vb {:trigger Logical(t, vb)} :: vb in s.ptes && vb != va ==> Logical(t, vb) == Logical(s, vb)
    ensures IsFlat(t, FlatStore(m, va, off, b))
  {
    assert va in m && m[va] == Logical(s, va);
    var m' := FlatStore(m, va, off, b);
    forall vb | vb in m'
      ensures vb in t.ptes && m'[vb] == Logical(t, vb)
    {
      if vb != va {
        assert vb in m && m[vb] == Logical(s, vb);
      }
    }
  }

  lemma AddedIsFlat(s: Space, t: Space, m: map<nat, seq<byte>>, va: nat)
    requires IsFlat(s, m) && Added(s, t, va) && va !in s.ptes
    ensures IsFlat(t, m[va := ZeroPage()])
  {}

  lemma RemovedIsFlat(s: Space, t: Space, m: map<nat, seq<byte>>, va: nat)
    requires IsFlat(s, m) && Removed(s, t, va)
    ensures IsFlat(t, m - {va})
  {}

  lemma FaultIsFlat(s: Space, m: map<nat, seq<byte>>, pick: AS.Choice, va: nat, frame: nat, accessed: bool)
    requires IsFlat(s, m) && AS.Bounded(s) && AS.MayTake(s, pick) && AS.PagedOut(s, va) && frame !in s.mem
    ensures AS.Bounded(AS.Fault(s, pick, va, frame, accessed)) && IsFlat(AS.Fault(s, pick, va, frame, accessed), m)
  {
    AS.FaultKeeps(s, pick, va, frame, accessed);
    SameIsFlat(s, AS.Fault(s, pick, va, frame, accessed), m);
  }

  lemma TickIsFlat(s: Space, m: map<nat, seq<byte>>, pages: seq<Page>, ptes: map<nat, Pte>)
    requires IsFlat(s, m) && AS.Bounded(s) && AS.Ticked(s, pages, ptes)
    ensures AS.Bounded(s.(pages := pages, ptes := ptes)) && IsFlat(s.(pages := pages, ptes := ptes), m)
  {
    AS.TickKeeps(s, pages, ptes);
    SameIsFlat(s, s.(pages := pages, ptes := ptes), m);
  }

  lemma TouchIsFlat(s: Space, m: map<nat, seq<byte>>, ptes: map<nat, Pte>)
    requires IsFlat(s, m) && AS.Bounded(s) && SameButAccessed(s.ptes, ptes)
    ensures AS.Bounded(s.(ptes := ptes)) && IsFlat(s.(ptes := ptes), m)
  {
    AccessKeeps(s, ptes);
    SameIsFlat(s, s.(ptes := ptes), m);
  }

  lemma GrowIsFlat(s: Space, m: map<nat, seq<byte>>, pick: AS.Choice, va: nat, frame: nat)
    requires IsFlat(s, m) && AS.Bounded(s) && AS.MayTake(s, pick) && IsNew(s, va) && frame !in AS.Room(s, pick).mem
    ensures var t := AS.MapPage(AS.Room(s, pick), va, frame);
            AS.Bounded(t) && IsFlat(t, FlatNext(m, Grow(pick, va, frame)))
  {
    AS.GrowKeeps(s, pick, va, frame);
    AddedIsFlat(s, AS.MapPage(AS.Room(s, pick), va, frame), m, va);
  }

  lemma ShrinkIsFlat(s: Space, m: map<nat, seq<byte>>, va: nat)
    requires IsFlat(s, m) && AS.Bounded(s) && Hit(s, va, 0)
    ensures AS.Bounded(AS.DropPage(s, va)) && IsFlat(AS.DropPage(s, va), FlatNext(m, Shrink(va)))
  {
    AS.DropKeeps(s, va);
    RemovedIsFlat(s, AS.DropPage(s, va), m, va);
  }

  /** One event keeps the tables in step and does to the flat memory what it should. */
  lemma StepIsFlat(s: Space, e: Event, t: Space, m: map<nat, seq<byte>>)
    requires AS.Bounded(s) && Next(s, e, t) && IsFlat(s, m)
    ensures AS.Bounded(t) && IsFlat(t, FlatNext(m, e))
  {
    match e
    case Fault(pick, va, frame, accessed) => FaultIsFlat(s, m, pick, va, frame, accessed);
    case Touch(ptes) => TouchIsFlat(s, m, ptes);
    case Tick(pages, ptes) => TickIsFlat(s, m, pages, ptes);
    case Store(va, off, b) => StoreIsFlat(s, m, va, off, b);
    case Load(va, off, b) =>
    case Grow(pick, va, frame) => GrowIsFlat(s, m, pick, va, frame);
    case Shrink(va) => ShrinkIsFlat(s, m, va);
  }

  // ---- runs ----

  /** The memory of a process at its beginning. */
  ghost predicate IsEmpty(s: Space) {
    AS.Bounded(s) && s.entry == map[] && s.ptes == map[] && s.mem == map[] && s.queue == [] && CountIn(s.pages) == 0
  }

  /** states is a run of a process under the events, starting without memory. */
  ghost predicate IsRun(states: seq<Space>, events: seq<Event>) {
    && |states| == |events| + 1 && IsEmpty(states[0])
    && forall i {:trigger events[i]} :: 0 <= i < |events| ==>
         AS.Bounded(states[i]) ==> Next(states[i], events[i], states[i + 1])
  }

  /** The flat memory after the events. */
  ghost function FlatRun(events: seq<Event>): map<nat, seq<byte>> {
    if events == [] then map[] else FlatNext(FlatRun(events[..|events| - 1]), events[|events| - 1])
  }

  /** In every run, of whatever policy, all tables stay in step and within their bounds, and the pages
  together are what the events make of a flat memory, however often they have been to the swap file
  and back. */
  lemma {:induction false} RunIsFlat(states: seq<Space>, events: seq<Event>, i: nat)
    requires IsRun(states, events) && i <= |events|
    ensures AS.Bounded(states[i]) && IsFlat(states[i], FlatRun(events[..i]))
  {
    if i > 0 {
      RunIsFlat(states, events, i - 1);
      assert events[..i][..i - 1] == events[..i - 1] && events[..i][i - 1] == events[i - 1];
      StepIsFlat(states[i - 1], events[i - 1], states[i], FlatRun(events[..i - 1]));
    }
  }

  /** Every load in a run returns the byte of the flat memory. */
  lemma LoadsAreFlat(states: seq<Space>, events: seq<Event>, i: nat)
    requires IsRun(states, events) && i < |events| && events[i].Load?
    ensures var m := FlatRun(events[..i]);
            events[i].va in m && events[i].off < |m[events[i].va]| && events[i].b == m[events[i].va][events[i].off]
  {
    RunIsFlat(states, events, i);
    var s, va := states[i], events[i].va;
    assert Next(s, events[i], states[i + 1]);
    var m := FlatRun(events[..i]);
    assert va in m && m[va] == Logical(s, va);
  }

  /** The program can always go on: a mapped page is present, or it is swapped out and the fault handler
  brings it in, at any choice of a victim. */
  lemma FaultServed(s: Space, pick: AS.Choice, va: nat, f: nat, accessed: bool)
    requires AS.Bounded(s) && AS.MayTake(s, pick) && va in s.ptes && f !in s.mem && !Hit(s, va, 0)
    ensures AS.PagedOut(s, va) && Hit(AS.Fault(s, pick, va, f, accessed), va, 0)
    ensures Next(s, Fault(pick, va, f, accessed), AS.Fault(s, pick, va, f, accessed))
  {
    AS.PresentOrOut(s, va);
    AS.FaultKeeps(s, pick, va, f, accessed);
    AS.PresentOrOut(AS.Fault(s, pick, va, f, accessed), va);
  }

  // ---- frames ----

  /** Frame f holds a page that is present. */
  ghost predicate InUse(s: Space, f: nat) {
    f in s.mapped && s.mapped[f] in s.ptes && s.ptes[s.mapped[f]].present && s.ptes[s.mapped[f]].frame == f
  }

  ghost predicate NoFrameLost(s: Space) {
    forall f {:trigger f in s.mem} :: f in s.mem ==> InUse(s, f)
  }

  lemma RoomLosesNone(s: Space, c: AS.Choice)
    requires Inv(s) && AS.MayTake(s, c) && NoFrameLost(s)
    ensures NoFrameLost(AS.Room(s, c))
  {
    if CountIn(s.pages) == MAX_PSYC_PAGES {
      AS.RoomFits(s, c);
      OutLosesNone(s.(ptes := c.ptes), c.va, FreeSlot(s.offsets), c.rest);
    }
  }

  lemma OutLosesNone(s: Space, va: nat, k: nat, rest: seq<nat>)
    requires Inv(s) && InMemory(s, va) && k < MAX_TOTAL_PAGES && k * PGSIZE <= |s.swap| && NoFrameLost(s)
    ensures NoFrameLost(SwapOut(s, va, k, rest)) == true
  {}

  lemma InLosesNone(s: Space, va: nat, f: nat, accessed: bool)
    requires Inv(s) && va in s.ptes && InBack(s, va) && NoFrameLost(s)
    ensures NoFrameLost(SwapIn(s, va, f, accessed)) == true
  {}

  lemma MapLosesNone(s: Space, va: nat, f: nat)
    requires va !in s.ptes && NoFrameLost(s)
    ensures NoFrameLost(AS.MapPage(s, va, f)) == true
  {}

  lemma DropLosesNone(s: Space, va: nat)
    requires NoFrameLost(s)
    ensures NoFrameLost(AS.DropPage(s, va)) == true
  {}

  lemma StepLosesNone(s: Space, e: Event, t: Space)
    requires AS.Bounded(s) && NoFrameLost(s) && Next(s, e, t)
    ensures NoFrameLost(t)
  {
    match e
    case Fault(pick, va, f, accessed) =>
      RoomLosesNone(s, pick);
      AS.RoomKeeps(s, pick);
      AS.RoomKeepsOut(s, pick, va);
      InLosesNone(AS.Room(s, pick), va, f, accessed);
    case Grow(pick, va, f) =>
      RoomLosesNone(s, pick);
      AS.RoomKeeps(s, pick);
      MapLosesNone(AS.Room(s, pick), va, f);
    case Shrink(va) => DropLosesNone(s, va);
    case _ =>
  }

  /** In every run every frame the process has holds one of its present pages: whatever leaves memory gives its frame
  back. */
  lemma {:induction false} RunLosesNoFrame(states: seq<Space>, events: seq<Event>, i: nat)
    requires IsRun(states, events) && i <= |events|
    ensures NoFrameLost(states[i])
  {
    if i > 0 {
      RunLosesNoFrame(states, events, i - 1);
      RunIsFlat(states, events, i - 1);
      assert Next(states[i - 1], events[i - 1], states[i]);
      StepLosesNone(states[i - 1], events[i - 1], states[i]);
    }
  }
}
