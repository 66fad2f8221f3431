/** log.c over the buffer cache: the in-memory log and the loops that move blocks between
cache, log area and home locations.  Each method is proved against the write sequences of
RedoLog and the steps of LogProtocol. */
module LogManager {
  import opened Blocks
  import opened RedoLog
  import opened BufferCache
  import LP = LogProtocol

  // ---- pinned buffers ----

  /** If every buffer in use caches a block of S and S is smaller than the cache, some buffer is
  free. */
  lemma FreeBuffer(bufs: seq<Buf>, disk: Disk, S: set<nat>)
    requires CacheOk(bufs, disk) && |S| < NBUF
    requires forall i :: 0 <= i < NBUF && InUse(bufs[i]) ==> bufs[i].blockno in S
    ensures exists i :: 0 <= i < NBUF && !InUse(bufs[i])
  {
    if forall i :: 0 <= i < NBUF ==> InUse(bufs[i]) {
      BuffersOfSet(bufs, S);
      assert false;
    }
  }

  /** With no buffer held, only pinned blocks differ from disk. */
  lemma QuietContents(bufs: seq<Buf>, disk: Disk, b: nat)
    requires CacheOk(bufs, disk) && b < |disk| && b !in DirtyBlocks(bufs)
    requires forall i :: 0 <= i < NBUF ==> bufs[i].refcnt == 0
    ensures View(bufs, disk)[b] == disk[b]
  {
    assert forall i :: 0 <= i < NBUF && bufs[i].dirty ==> bufs[i].blockno in DirtyBlocks(bufs);
  }

  lemma PinnedIsDirty(bufs: seq<Buf>, disk: Disk, i: nat, b: nat)
    requires CacheOk(bufs, disk) && i < NBUF && Caches(bufs[i], b) && b in DirtyBlocks(bufs)
    ensures bufs[i].dirty
  {
    var j :| 0 <= j < NBUF && bufs[j].dirty && bufs[j].blockno == b;
    assert bufs[j].dev == ROOTDEV;
  }

  /** After bread has locked block a, a buffer for block b can still be had: b is cached, or
  the buffers in use are those of a and of pinned blocks other than b. */
  lemma SecondBuffer(bufs: seq<Buf>, disk: Disk, a: nat, b: nat)
    requires CacheOk(bufs, disk) && |DirtyBlocks(bufs) + {b}| < NBUF && Lookup(bufs, b) < 0
    requires forall i :: 0 <= i < NBUF && !Caches(bufs[i], a) ==> bufs[i].refcnt == 0
    ensures exists i :: 0 <= i < NBUF && !InUse(bufs[i])
  {
    var S := DirtyBlocks(bufs) - {b} + {a};
    assert |S| <= |DirtyBlocks(bufs) + {b}| by {
      assert DirtyBlocks(bufs) + {b} == (DirtyBlocks(bufs) - {b}) + {b};
    }
    forall i | 0 <= i < NBUF && InUse(bufs[i])
      ensures bufs[i].blockno in S
    {
      if !Caches(bufs[i], a) {
        assert bufs[i].dirty && bufs[i].dev == ROOTDEV;
        assert !Caches(bufs[i], b);
      }
    }
    FreeBuffer(bufs, disk, S);
  }

  /** A buffer held by one process, with the contents of block b. */
  predicate Held(x: Buf, b: nat) {
    Caches(x, b) && x.valid && x.locked && x.refcnt == 1
  }

  /** Exactly the buffers of xs are held. */
  ghost predicate Holding(bc: Bcache, xs: set<nat>, pinned: set<nat>)
    reads bc, bc.bufs, bc.prev, bc.next
  {
    && bc.Valid() && DirtyBlocks(bc.bufs[..]) == pinned
    && forall i :: 0 <= i < NBUF && i !in xs ==> bc.bufs[i].refcnt == 0
  }

  method ReadFirst(bc: Bcache, a: nat, ghost pinned: set<nat>) returns (x: nat)
    requires Holding(bc, {}, pinned) && a < |bc.disk| && a !in pinned && |pinned| < NBUF
    modifies bc`disk, bc`writes, bc.bufs
    ensures Holding(bc, {x}, pinned) && x < NBUF && Held(bc.bufs[x], a)
    ensures bc.disk == old(bc.disk) && bc.writes == old(bc.writes) && bc.Contents() == old(bc.Contents())
    ensures !bc.bufs[x].dirty && bc.bufs[x].data == bc.Contents()[a] == bc.disk[a]
  {
    ghost var bufs0 := bc.bufs[..];
    FreeBuffer(bufs0, bc.disk, pinned);
    QuietContents(bufs0, bc.disk, a);
    var r := bc.Bread(a);
    x := r;
  }

  /** While only buffer x is held, with block a, no buffer of block b is locked, and b has a buffer or can get one. */
  lemma SecondReady(bufs: seq<Buf>, disk: Disk, x: nat, a: nat, b: nat)
    requires CacheOk(bufs, disk) && x < NBUF && Caches(bufs[x], a) && a != b && |DirtyBlocks(bufs) + {b}| < NBUF
    requires forall i :: 0 <= i < NBUF && i != x ==> bufs[i].refcnt == 0
    ensures forall i :: 0 <= i < NBUF && Caches(bufs[i], b) ==> !bufs[i].locked && bufs[i].refcnt == 0 && i != x
    ensures Lookup(bufs, b) >= 0 || exists i :: 0 <= i < NBUF && !InUse(bufs[i])
  {
    forall i | 0 <= i < NBUF && Caches(bufs[i], b)
      ensures !bufs[i].locked && bufs[i].refcnt == 0 && i != x
    {
      assert BufOk(bufs[i], disk);
    }
    if Lookup(bufs, b) < 0 {
      SecondBuffer(bufs, disk, a, b);
    }
  }

  /** With fewer than NBUF blocks pinned, a second buffer can be had as well. */
  method ReadSecond(bc: Bcache, x: nat, a: nat, b: nat, ghost pinned: set<nat>) returns (y: nat)
    requires Holding(bc, {x}, pinned) && x < NBUF && Held(bc.bufs[x], a)
    requires b < |bc.disk| && a != b && |pinned + {b}| < NBUF
    modifies bc`disk, bc`writes, bc.bufs
    ensures Holding(bc, {x, y}, pinned) && y < NBUF && x != y && Held(bc.bufs[y], b)
    ensures bc.bufs[x] == old(bc.bufs[x])
    ensures bc.disk == old(bc.disk) && bc.writes == old(bc.writes) && bc.Contents() == old(bc.Contents())
    ensures bc.bufs[y].data == bc.Contents()[b]
  {
    SecondReady(bc.bufs[..], bc.disk, x, a, b);
    var r := bc.Bread(b);
    y := r;
  }

  /** memmove into a held buffer and bwrite. */
  method WriteHeld(bc: Bcache, x: nat, b: nat, v: Block, ghost xs: set<nat>, ghost pinned: set<nat>)
    requires Holding(bc, xs, pinned) && x < NBUF && x in xs && Held(bc.bufs[x], b)
    modifies bc`disk, bc`writes, bc.bufs
    ensures Holding(bc, xs, pinned - {b}) && Held(bc.bufs[x], b) && bc.bufs[x].data == v
    ensures bc.bufs[..] == old(bc.bufs[..])[x := bc.bufs[x]]
    ensures bc.disk == old(bc.disk)[b := v] && bc.writes == old(bc.writes) + [Write(b, v)]
    ensures bc.Contents() == old(bc.Contents())[b := v]
  {
    bc.Fill(x, v);
    bc.Bwrite(x);
  }

  method ReleaseHeld(bc: Bcache, x: nat, b: nat, ghost xs: set<nat>, ghost pinned: set<nat>)
    requires Holding(bc, xs, pinned) && x < NBUF && x in xs && Held(bc.bufs[x], b)
    requires bc.bufs[x].dirty || bc.bufs[x].data == bc.disk[b]
    modifies bc`order, bc.bufs, bc.prev, bc.next
    ensures Holding(bc, xs - {x}, pinned)
    ensures bc.bufs[..] == old(bc.bufs[..])[x := bc.bufs[x]]
    ensures bc.Contents() == old(bc.Contents())
  {
    bc.Brelse(x);
  }

  /** The body of the loop of write_log: copy block `home` into log block `log`. */
  method CopyToLog(bc: Bcache, log: nat, home: nat, ghost pinned: set<nat>)
    requires Holding(bc, {}, pinned) && log < |bc.disk| && home < |bc.disk| && log != home
    requires |pinned| < NBUF && log !in pinned && home in pinned
    modifies bc, bc.bufs, bc.prev, bc.next
    ensures Holding(bc, {}, pinned) == true
    ensures var v := old(bc.Contents())[home];
            && bc.disk == old(bc.disk)[log := v] && bc.writes == old(bc.writes) + [Write(log, v)]
            && bc.Contents() == old(bc.Contents())[log := v]
  {
    assert pinned + {home} == pinned;
    var to := ReadFirst(bc, log, pinned);
    var from := ReadSecond(bc, to, log, home, pinned);
    PinnedIsDirty(bc.bufs[..], bc.disk, from, home);
    CopyHeld(bc, to, from, log, home, pinned);
  }

  method CopyHeld(bc: Bcache, to: nat, from: nat, log: nat, home: nat, ghost pinned: set<nat>)
    requires Holding(bc, {to, from}, pinned) && to < NBUF && from < NBUF && to != from && log !in pinned
    requires Held(bc.bufs[to], log) && Held(bc.bufs[from], home) && bc.bufs[from].dirty
    modifies bc, bc.bufs, bc.prev, bc.next
    ensures Holding(bc, {}, pinned)
    ensures var v := old(bc.bufs[from].data);
            && bc.disk == old(bc.disk)[log := v] && bc.writes == old(bc.writes) + [Write(log, v)]
            && bc.Contents() == old(bc.Contents())[log := v]
  {
    WriteHeld(bc, to, log, bc.bufs[from].data, {to, from}, pinned);
    ReleaseHeld(bc, from, home, {to, from}, pinned);
    ReleaseHeld(bc, to, log, {to}, pinned);
  }

  /** The body of the loop of install_trans: copy log block `log` to its home location. */
  method CopyToHome(bc: Bcache, log: nat, home: nat, ghost pinned: set<nat>)
    requires Holding(bc, {}, pinned) && log < |bc.disk| && home < |bc.disk| && log != home
    requires |pinned + {home}| < NBUF && log !in pinned
    modifies bc, bc.bufs, bc.prev, bc.next
    ensures Holding(bc, {}, pinned - {home}) == true
    ensures var v := old(bc.disk)[log];
            && bc.disk == old(bc.disk)[home := v] && bc.writes == old(bc.writes) + [Write(home, v)]
            && bc.Contents() == old(bc.Contents())[home := v]
  {
    assert |pinned| <= |pinned + {home}| by {
      assert pinned + {home} == pinned + ({home} - pinned);
    }
    var lbuf := ReadFirst(bc, log, pinned);
    var dbuf := ReadSecond(bc, lbuf, log, home, pinned);
    WriteHeld(bc, dbuf, home, bc.bufs[lbuf].data, {lbuf, dbuf}, pinned);
    ReleaseHeld(bc, lbuf, log, {lbuf, dbuf}, pinned - {home});
    ReleaseHeld(bc, dbuf, home, {dbuf}, pinned - {home});
  }

  ghost function Elements(xs: seq<nat>): set<nat> {
    set i | 0 <= i < |xs| :: xs[i]
  }

  lemma {:induction false} ElementsSize(xs: seq<nat>)
    ensures |Elements(xs)| <= |xs|
    decreases |xs|
  {
    if xs == [] {
      assert Elements(xs) == {};
    } else {
      var k := |xs| - 1;
      ElementsSize(xs[..k]);
      assert Elements(xs) == Elements(xs[..k]) + {xs[k]} by {
        forall x | x in Elements(xs)
          ensures x in Elements(xs[..k]) + {xs[k]}
        {
          var i :| 0 <= i < |xs| && xs[i] == x;
          assert i < k ==> xs[..k][i] == x;
        }
        forall x | x in Elements(xs[..k])
          ensures x in Elements(xs)
        {
          var i :| 0 <= i < k && xs[..k][i] == x;
          assert xs[i] == x;
        }
      }
    }
  }

  lemma SmallWith(xs: seq<nat>, left: set<nat>, k: nat)
    requires k < |xs| && left <= Elements(xs) && (left == {} || |xs| < NBUF)
    ensures |left + {xs[k]}| < NBUF
  {
    if left != {} {
      ElementsSize(xs);
      assert left + {xs[k]} <= Elements(xs);
      SubsetSize(left + {xs[k]}, Elements(xs));
    }
  }

  lemma SubsetSize(a: set<nat>, b: set<nat>)
    requires a <= b
    ensures |a| <= |b|
  {
    assert b == a + (b - a);
  }

  /** write_log has copied the first `tail` blocks of the list lh; it started on disk d with contents
  view and write history ws, and has reached the given disk, history and contents. */
  ghost predicate LoggedTo(g: Geometry, d: Disk, view: Disk, ws: seq<Write>, lh: seq<nat>, tail: nat,
                           disk: Disk, writes: seq<Write>, contents: Disk)
    requires Fits(g, view) && Loggable(g, view, lh) && |d| == |view| && tail <= |lh|
  {
    && disk == Apply(d, LogWrites(g, view, lh)[..tail]) && writes == ws + LogWrites(g, view, lh)[..tail]
    && |contents| == |view| && forall i :: 0 <= i < |lh| ==> contents[lh[i]] == view[lh[i]]
  }

  lemma SameLogged(g: Geometry, d: Disk, view: Disk, ws: seq<Write>, lh: seq<nat>, tail: nat,
                   disk: Disk, writes: seq<Write>, contents: Disk, disk': Disk, writes': seq<Write>, contents': Disk)
    requires Fits(g, view) && Loggable(g, view, lh) && |d| == |view| && tail <= |lh|
    requires LoggedTo(g, d, view, ws, lh, tail, disk', writes', contents') == true
    requires disk == disk' && writes == writes' && contents == contents'
    ensures LoggedTo(g, d, view, ws, lh, tail, disk, writes, contents) == true
  {}

  lemma LogFits(g: Geometry, view: Disk, lh: seq<nat>, tail: nat)
    requires Loggable(g, view, lh) && tail < |lh| < NBUF
    ensures |Elements(lh)| < NBUF && lh[tail] in Elements(lh) && g.start + tail + 1 !in Elements(lh)
  {
    ElementsSize(lh);
    assert lh[tail] in Elements(lh) && g.start + tail + 1 !in Elements(lh);
  }

  lemma LogNext(g: Geometry, d: Disk, view: Disk, ws: seq<Write>, lh: seq<nat>, tail: nat,
                disk: Disk, writes: seq<Write>, contents: Disk, at: nat, v: Block)
    requires Fits(g, view) && Loggable(g, view, lh) && |d| == |view| == |contents| && tail < |lh|
    requires LoggedTo(g, d, view, ws, lh, tail, disk, writes, contents) && at == g.start + tail + 1
    requires v == contents[lh[tail]]
    ensures at < |disk| == |d|
    ensures LoggedTo(g, d, view, ws, lh, tail + 1, disk[at := v], writes + [Write(at, v)], contents[at := v]) == true
  {
    var lws := LogWrites(g, view, lh);
    assert lws[tail] == Write(at, view[lh[tail]]);
    ApplyNext(d, lws, tail);
    TakeNext(ws, lws, tail);
  }

  /** install_trans has copied the first `tail` blocks of the list lh; it started on disk d with write history ws. */
  ghost predicate InstalledTo(g: Geometry, d: Disk, ws: seq<Write>, lh: seq<nat>, tail: nat,
                              disk: Disk, writes: seq<Write>)
    requires Fits(g, d) && Loggable(g, d, lh) && tail <= |lh|
  {
    && |disk| == |d| && disk == Apply(d, InstallWrites(g, d, lh)[..tail])
    && writes == ws + InstallWrites(g, d, lh)[..tail]
  }

  /** left are blocks of the list, if any, which then is shorter than the cache. */
  ghost predicate Pinnable(lh: seq<nat>, left: set<nat>) {
    left <= Elements(lh) && (left == {} || |lh| < NBUF)
  }

  lemma InstallFits(g: Geometry, d: Disk, lh: seq<nat>, left: set<nat>, tail: nat)
    requires Loggable(g, d, lh) && tail < |lh| && Pinnable(lh, left)
    ensures |left + {lh[tail]}| < NBUF && g.start + tail + 1 !in left
  {
    SmallWith(lh, left, tail);
    assert g.start + tail + 1 !in Elements(lh);
  }

  lemma InstallNext(g: Geometry, d: Disk, ws: seq<Write>, lh: seq<nat>, tail: nat, disk: Disk, writes: seq<Write>)
    requires Fits(g, d) && Loggable(g, d, lh) && tail < |lh| && InstalledTo(g, d, ws, lh, tail, disk, writes)
    ensures g.start + tail + 1 < |disk| && lh[tail] < |disk| && g.start + tail + 1 != lh[tail]
    ensures var v := disk[g.start + tail + 1];
            InstalledTo(g, d, ws, lh, tail + 1, disk[lh[tail] := v], writes + [Write(lh[tail], v)]) == true
  {
    var iws := InstallWrites(g, d, lh);
    InstallKeepsLog(g, d, lh, tail, tail + 1);
    assert iws[tail] == Write(lh[tail], disk[g.start + tail + 1]) && IsHome(g, lh[tail]);
    ApplyNext(d, iws, tail);
    TakeNext(ws, iws, tail);
  }

  class Log {
    const bc: Bcache
    const g: Geometry
    const block: array<nat>
    var n: nat
    var outstanding: nat
    var committing: bool

    ghost predicate Shape()
      reads this, bc
    {
      && block.Length == LOGSIZE && block != bc.prev && block != bc.next
      && n <= LOGSIZE && Fits(g, bc.disk)
    }

    /** The in-memory list of logged blocks. */
    ghost function Lh(): seq<nat>
      reads this, block
      requires n <= block.Length
    {
      block[..n]
    }

    /** initlog: bind the log to its area of the disk and recover. */
    constructor (cache: Bcache, area: Geometry)
      requires Holding(cache, {}, {}) && Recoverable(area, cache.disk)
      modifies cache, cache.bufs, cache.prev, cache.next
      ensures bc == cache && g == area && fresh(block)
      ensures Shape() && Holding(bc, {}, {}) && n == 0 && outstanding == 0 && !committing
      ensures bc.writes == old(cache.writes) + RecoverWrites(area, old(cache.disk))
      ensures bc.disk == Recover(area, old(cache.disk))
    {
      bc, g, n, outstanding, committing := cache, area, 0, 0, false;
      block := new nat[LOGSIZE](_ => 0);
      new;
      RecoverFromLog();
    }

    /** read_head: load the list from the header block. */
    method ReadHead()
      requires Shape() && Holding(bc, {}, {}) && Word(bc.disk[g.start], 0) <= LOGSIZE
      modifies this`n, block, bc, bc.bufs, bc.prev, bc.next
      ensures bc.disk == old(bc.disk) && bc.writes == old(bc.writes) && bc.Contents() == old(bc.Contents())
      ensures Shape() && Holding(bc, {}, {}) && Lh() == HeadBlocks(bc.disk[g.start])
    {
      var buf := ReadFirst(bc, g.start, {});
      LoadHeader(bc.bufs[buf].data);
      ReleaseHeld(bc, buf, g.start, {buf}, {});
    }

    /** The stores of read_head into the in-memory list. */
    method LoadHeader(v: Block)
      requires Word(v, 0) <= LOGSIZE == block.Length
      modifies this`n, block
      ensures n <= LOGSIZE && Lh() == HeadBlocks(v)
    {
      n := Word(v, 0);
      for i := 0 to n
        invariant n == Word(v, 0)
        invariant forall j :: 0 <= j < i ==> block[j] == Word(v, j + 1)
      {
        block[i] := Word(v, i + 1);
      }
    }

    /** write_head: store the list in the header block, over whatever the block held. */
    method WriteHead(ghost pinned: set<nat>)
      requires Shape() && Holding(bc, {}, pinned) && g.start !in pinned && |pinned| < NBUF
      requires forall i :: 0 <= i < n ==> block[i] < WORD_LIMIT
      modifies bc, bc.bufs, bc.prev, bc.next
      ensures Shape() && Holding(bc, {}, pinned)
      ensures var head := StoreHead(old(bc.disk)[g.start], Lh(), n);
              && bc.disk == old(bc.disk)[g.start := head]
              && bc.writes == old(bc.writes) + [Write(g.start, head)]
              && bc.Contents() == old(bc.Contents())[g.start := head]
    {
      var buf := ReadFirst(bc, g.start, pinned);
      var v := HeaderOf(bc.bufs[buf].data);
      PutHead(buf, v, pinned);
    }

    method PutHead(buf: nat, v: Block, ghost pinned: set<nat>)
      requires Shape() && Holding(bc, {buf}, pinned) && buf < NBUF && Held(bc.bufs[buf], g.start) && g.start !in pinned
      modifies bc, bc.bufs, bc.prev, bc.next
      ensures Shape() && Holding(bc, {}, pinned)
      ensures bc.disk == old(bc.disk)[g.start := v] && bc.writes == old(bc.writes) + [Write(g.start, v)]
      ensures bc.Contents() == old(bc.Contents())[g.start := v]
    {
      WriteHeld(bc, buf, g.start, v, {buf}, pinned);
      assert pinned - {g.start} == pinned && {buf} - {buf} == {};
      ReleaseHeld(bc, buf, g.start, {buf}, pinned);
    }

    /** The stores of write_head into the header buffer. */
    method HeaderOf(head: Block) returns (v: Block)
      requires n <= LOGSIZE == block.Length && forall i :: 0 <= i < n ==> block[i] < WORD_LIMIT
      ensures v == StoreHead(head, Lh(), n)
    {
      v := SetWord(head, 0, n);
      for i := 0 to n
        invariant v == StoreHead(head, Lh(), i)
      {
        v := SetWord(v, i + 1, block[i]);
      }
    }

    ghost predicate Logging(d: Disk, view: Disk, ws: seq<Write>, lh: seq<nat>, tail: nat)
      reads this, block, bc, bc.bufs, bc.prev, bc.next
      requires Fits(g, view) && Loggable(g, view, lh) && |d| == |view| && tail <= |lh|
    {
      && Shape() && Lh() == lh && Holding(bc, {}, Elements(lh)) && |bc.disk| == |view|
      && LoggedTo(g, d, view, ws, lh, tail, bc.disk, bc.writes, bc.Contents())
    }

    method LogCopy(tail: nat, ghost lh: seq<nat>, ghost disk: Disk, ghost writes: seq<Write>, ghost contents: Disk)
      requires Shape() && Lh() == lh && tail < |lh| && Holding(bc, {}, Elements(lh)) == true
      requires disk == bc.disk && writes == bc.writes && contents == bc.Contents()
      requires g.start + tail + 1 < |disk| && lh[tail] < |disk| && |Elements(lh)| < NBUF
      requires lh[tail] in Elements(lh) && g.start + tail + 1 !in Elements(lh)
      modifies bc, bc.bufs, bc.prev, bc.next
      ensures Shape() && Lh() == lh && Holding(bc, {}, Elements(lh)) == true
      ensures var at, v := g.start + tail + 1, contents[lh[tail]];
              && bc.disk == disk[at := v] && bc.writes == writes + [Write(at, v)]
              && bc.Contents() == contents[at := v]
    {
      CopyToLog(bc, g.start + tail + 1, block[tail], Elements(lh));
    }

    method LogOne(tail: nat, ghost d: Disk, ghost view: Disk, ghost ws: seq<Write>, ghost lh: seq<nat>)
      requires Fits(g, view) && Loggable(g, view, lh) && |d| == |view| && tail < |lh| < NBUF
      requires Logging(d, view, ws, lh, tail) == true
      modifies bc, bc.bufs, bc.prev, bc.next
      ensures Logging(d, view, ws, lh, tail + 1)
    {
      ghost var at, disk, writes, contents := g.start + tail + 1, bc.disk, bc.writes, bc.Contents();
      ghost var v := contents[lh[tail]];
      LogFits(g, view, lh, tail);
      LogNext(g, d, view, ws, lh, tail, disk, writes, contents, at, v);
      LogCopy(tail, lh, disk, writes, contents);
      SameLogged(g, d, view, ws, lh, tail + 1, bc.disk, bc.writes, bc.Contents(), disk[at := v],
                 writes + [Write(at, v)], contents[at := v]);
    }

    /** write_log: copy the current contents of every logged block into the log area. */
    method WriteLog()
      requires Shape() && Loggable(g, bc.disk, Lh()) && Holding(bc, {}, Elements(Lh())) && n < NBUF
      modifies bc, bc.bufs, bc.prev, bc.next
      ensures Shape() && Lh() == old(Lh()) && Holding(bc, {}, Elements(Lh())) && |bc.disk| == |old(bc.disk)|
      ensures var ws := LogWrites(g, old(bc.Contents()), Lh());
              bc.disk == Apply(old(bc.disk), ws) && bc.writes == old(bc.writes) + ws
    {
      ghost var d, view, ws, lh := bc.disk, bc.Contents(), bc.writes, Lh();
      TakeNone(ws, LogWrites(g, view, lh));
      for tail := 0 to n
        invariant |lh| == n && Logging(d, view, ws, lh, tail)
      {
        LogOne(tail, d, view, ws, lh);
      }
    }

    /** install_trans has installed the first `tail` blocks of the list lh; it started on disk d
    with write history ws, and `left` is still pinned. */
    ghost predicate Installing(d: Disk, ws: seq<Write>, lh: seq<nat>, left: set<nat>, tail: nat)
      reads this, block, bc, bc.bufs, bc.prev, bc.next
      requires Fits(g, d) && Loggable(g, d, lh) && tail <= |lh|
    {
      Shape() && Lh() == lh && Holding(bc, {}, left) && InstalledTo(g, d, ws, lh, tail, bc.disk, bc.writes)
    }

    method InstallOne(tail: nat, ghost d: Disk, ghost ws: seq<Write>, ghost lh: seq<nat>, ghost left: set<nat>)
      requires Fits(g, d) && Loggable(g, d, lh) && tail < |lh| && Installing(d, ws, lh, left, tail) == true
      requires Pinnable(lh, left) == true
      modifies bc, bc.bufs, bc.prev, bc.next
      ensures Installing(d, ws, lh, left - {lh[tail]}, tail + 1) == true
    {
      InstallFits(g, d, lh, left, tail);
      InstallNext(g, d, ws, lh, tail, bc.disk, bc.writes);
      CopyToHome(bc, g.start + tail + 1, block[tail], left);
    }

    /** install_trans: copy every log block to its home location. */
    method InstallTrans(ghost pinned: set<nat>)
      requires Shape() && Loggable(g, bc.disk, Lh()) && Holding(bc, {}, pinned)
      requires pinned <= Elements(Lh()) && (pinned == {} || n < NBUF)
      modifies bc, bc.bufs, bc.prev, bc.next
      ensures Shape() && Lh() == old(Lh()) && Holding(bc, {}, {}) && |bc.disk| == |old(bc.disk)|
      ensures var ws := InstallWrites(g, old(bc.disk), Lh());
              bc.disk == Apply(old(bc.disk), ws) && bc.writes == old(bc.writes) + ws
    {
      ghost var d, ws, lh, left := bc.disk, bc.writes, Lh(), pinned;
      TakeNone(ws, InstallWrites(g, d, lh));
      for tail := 0 to n
        invariant |lh| == n && left <= pinned && (forall i :: 0 <= i < tail ==> lh[i] !in left)
        invariant Installing(d, ws, lh, left, tail)
      {
        InstallOne(tail, d, ws, lh, left);
        left := left - {lh[tail]};
      }
      assert left == {};
    }

    /** recover_from_log: if a transaction was committed, install it, then clear the log. */
    method RecoverFromLog()
      requires Shape() && Holding(bc, {}, {}) && Recoverable(g, bc.disk)
      modifies this`n, block, bc, bc.bufs, bc.prev, bc.next
      ensures Shape() && Holding(bc, {}, {}) && n == 0
      ensures bc.writes == old(bc.writes) + RecoverWrites(g, old(bc.disk))
      ensures bc.disk == Recover(g, old(bc.disk))
    {
      ghost var d, ws := bc.disk, bc.writes;
      ReadHead();
      ghost var installs := InstallWrites(g, d, Lh());
      InstallKeepsLog(g, d, Lh(), n, 0);
      TakeNone(ws, installs);
      InstallTrans({});
      n := 0;
      WriteHead({});
      RecoverWritesParts(g, d);
      ApplyNext(d, RecoverWrites(g, d), |installs|);
      TakeNext(ws, RecoverWrites(g, d), |installs|);
      TakeNone(ws, RecoverWrites(g, d));
    }

    /** The first half of commit: the log area, then the header, which is the commit point. */
    method MakeDurable()
      requires Shape() && Holding(bc, {}, Elements(Lh())) && 0 < n < NBUF
      requires ReadyToCommit(g, bc.disk, bc.Contents(), Lh())
      modifies bc, bc.bufs, bc.prev, bc.next
      ensures Shape() && Lh() == old(Lh()) && Holding(bc, {}, Elements(Lh())) && |bc.disk| == |old(bc.disk)|
      ensures var logged := LogWrites(g, old(bc.Contents()), Lh());
              var head := CommitHead(old(bc.disk)[g.start], Lh());
              && bc.disk == Apply(old(bc.disk), logged)[g.start := head]
              && bc.writes == old(bc.writes) + logged + [Write(g.start, head)]
    {
      LoggedDisk(g, bc.disk, bc.Contents(), Lh());
      ElementsSize(Lh());
      WriteLog();
      WriteHead(Elements(Lh()));
    }

    /** The second half of commit: the home blocks, then the cleared header. */
    method InstallAndErase()
      requires Shape() && Holding(bc, {}, Elements(Lh())) && n < NBUF && Loggable(g, bc.disk, Lh())
      modifies this`n, bc, bc.bufs, bc.prev, bc.next
      ensures Shape() && Holding(bc, {}, {}) && n == 0
      ensures var installs := InstallWrites(g, old(bc.disk), old(Lh()));
              var erased := ClearedHead(old(bc.disk)[g.start]);
              && bc.disk == Apply(old(bc.disk), installs)[g.start := erased]
              && bc.writes == old(bc.writes) + installs + [Write(g.start, erased)]
    {
      InstallKeepsLog(g, bc.disk, Lh(), n, 0);
      TakeNone([], InstallWrites(g, bc.disk, Lh()));
      InstallTrans(Elements(Lh()));
      n := 0;
      WriteHead({});
    }

    /** commit: writes the transaction to the log, makes it durable with one header write,
    installs it and clears the log. */
    method Commit()
      requires Shape() && Holding(bc, {}, Elements(Lh())) && n < NBUF
      requires Loggable(g, bc.disk, Lh()) && Recoverable(g, bc.disk) && Pending(g, bc.disk) == []
      modifies this`n, bc, bc.bufs, bc.prev, bc.next
      ensures Shape() && Holding(bc, {}, {}) && n == 0
      ensures old(Lh()) == [] ==> bc.writes == old(bc.writes) && bc.disk == old(bc.disk)
      ensures old(Lh()) != [] ==>
                var ws := CommitWrites(g, old(bc.disk), old(bc.Contents()), old(Lh()));
                bc.writes == old(bc.writes) + ws && bc.disk == Apply(old(bc.disk), ws)
    {
      if n > 0 {
        CommitHistory(bc.writes, g, bc.disk, bc.Contents(), Lh());
        CommitApplied(g, bc.disk, bc.Contents(), Lh());
        MakeDurable();
        InstallAndErase();
      }
    }

    // ---- the operations as steps of the protocol ----

    /** The log is in state s of the protocol, up to the contents of block `but`. */
    ghost predicate ModelsBut(s: LP.State, but: set<nat>)
      reads this, block, bc, bc.bufs
    {
      && Shape() && s.disk == bc.disk && |s.view| == |bc.disk|
      && s.lh == Lh() && |s.ops| == outstanding
      && !s.phase.Recovering? && (committing <==> s.phase.Committing?)
      && forall b {:trigger IsHome(g, b)} :: 0 <= b < |bc.disk| && IsHome(g, b) && b !in but ==>
           s.view[b] == bc.Contents()[b]
    }

    /** begin_op, one pass of its loop: admit the operation, or sleep. */
    method BeginOp(ghost s: LP.State) returns (admitted: bool)
      requires ModelsBut(s, {})
      modifies this`outstanding
      ensures admitted <==> LP.Admits(s)
      ensures ModelsBut(if admitted then s.(ops := s.ops + [{}]) else s, {})
    {
      if committing {
        admitted := false;
      } else if n + (outstanding + 1) * MAXOPBLOCKS > LOGSIZE {
        admitted := false;
      } else {
        outstanding := outstanding + 1;
        admitted := true;
      }
    }

    /** log_write on the held buffer r, whose data the caller has changed: record the block and
    pin the buffer; false where the kernel panics. */
    method LogWrite(r: nat, b: nat, ghost s: LP.State, ghost op: nat) returns (ok: bool)
      requires bc.Valid() && r < NBUF && Caches(bc.bufs[r], b) && bc.bufs[r].valid && bc.bufs[r].locked
      requires ModelsBut(s, {b}) && op < |s.ops|
      modifies this`n, block, bc.bufs
      ensures bc.Valid() && (ok <==> !LP.TooBig(g, s))
      ensures ok ==> ModelsBut(LP.AfterLogWrite(s, op, b, bc.bufs[r].data), {})
      ensures ok ==> bc.bufs[..] == old(bc.bufs[..])[r := old(bc.bufs[r]).(dirty := true)]
      ensures ok ==> DirtyBlocks(bc.bufs[..]) == old(DirtyBlocks(bc.bufs[..])) + {b}
    {
      ok := !(n >= LOGSIZE || n >= g.size - 1);
      if ok {
        Record(b);
        ViewOfCached(bc.bufs[..], bc.disk, r);
        bc.Pin(r);
      }
    }

    /** The loop of log_write: absorb b if it is already listed, else append it. */
    method Record(b: nat)
      requires n < block.Length
      modifies this`n, block
      ensures n <= block.Length && Lh() == if b in old(Lh()) then old(Lh()) else old(Lh()) + [b]
    {
      var i := 0;
      while i < n && block[i] != b
        invariant 0 <= i <= n && b !in block[..i]
      {
        i := i + 1;
      }
      ghost var before := block[..n];
      block[i] := b;
      if i == n {
        assert before == block[..n];
        n := n + 1;
      } else {
        assert before[i] == b;
        assert before == block[..n];
      }
    }

    /** The commit end_op runs for the last operation. */
    method RunCommit(ghost s: LP.State)
      requires ModelsBut(s, {}) && LP.OnDisk(g, s) && s.phase == LP.Committing(s.disk, 0)
      requires Holding(bc, {}, Elements(Lh())) && n < NBUF
      modifies this`n, this`committing, bc, bc.bufs, bc.prev, bc.next
      ensures Holding(bc, {}, {}) && !committing && n == 0
      ensures s.lh != [] ==> ReadyToCommit(g, s.disk, s.view, s.lh)
      ensures bc.disk == LP.CommitEnd(g, s).disk
      ensures ModelsBut(LP.CommitEnd(g, s), {})
    {
      ghost var contents := bc.Contents();
      if n > 0 {
        CommitWritesLocal(g, s.disk, s.view, contents, s.lh);
      }
      Commit();
      committing := false;
      forall b: nat {:trigger IsHome(g, b)} | b < |bc.disk| && IsHome(g, b)
        ensures bc.Contents()[b] == s.view[b]
      {
        QuietContents(bc.bufs[..], bc.disk, b);
        if s.lh != [] {
          CommitResult(g, s.disk, s.view, s.lh, b);
        }
      }
    }

    /** end_op: leave the operation; the last one to leave commits.  False where the kernel
    panics because a commit is already running. */
    method EndOp(ghost s: LP.State, ghost op: nat) returns (ok: bool)
      requires ModelsBut(s, {}) && LP.OnDisk(g, s) && op < |s.ops|
      requires outstanding == 1 && !committing ==> Holding(bc, {}, Elements(Lh())) && n < NBUF
      modifies this, bc, bc.bufs, bc.prev, bc.next
      ensures ok <==> !s.phase.Committing?
      ensures ok && |s.ops| > 1 ==> ModelsBut(LP.AfterEnd(s, op), {}) && bc.disk == old(bc.disk)
      ensures ok && |s.ops| == 1 ==>
                var t := LP.AfterEnd(s, op);
                && (t.lh != [] ==> ReadyToCommit(g, t.disk, t.view, t.lh))
                && ModelsBut(LP.CommitEnd(g, t), {}) && Holding(bc, {}, {})
    {
      var wasCommitting := committing;
      outstanding := outstanding - 1;
      ok := !wasCommitting;
      if ok && outstanding == 0 {
        committing := true;
        RunCommit(LP.AfterEnd(s, op));
      }
    }
  }
}
