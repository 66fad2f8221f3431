/** The buffer cache: NBUF buffers on a doubly linked MRU ring, over a block device.

The abstract value of the cache is its view, the contents each block of the device has for
a reader: the cached copy if there is a valid one, the block on disk otherwise. */
module BufferCache {
  import opened Blocks

  const NBUF := MAXOPBLOCKS * 3
  const HEAD := NBUF        // the list head sits behind the buffers
  const ROOTDEV := 1

  datatype Buf = Buf(dev: nat, blockno: nat, valid: bool, dirty: bool, refcnt: nat, locked: bool, data: Block)

  predicate Caches(x: Buf, b: nat) {
    x.dev == ROOTDEV && x.blockno == b
  }

  /** bget may not recycle such a buffer. */
  predicate InUse(x: Buf) {
    x.refcnt != 0 || x.dirty
  }

  // ---- the ring ----

  /** Position i of the ring: the head before the first buffer and again after the last. */
  function At(order: seq<nat>, i: int): nat {
    if 0 <= i < |order| then order[i] else HEAD
  }

  /** The buffer at position i is linked to its neighbours. */
  ghost predicate LinkedAt(order: seq<nat>, prev: seq<nat>, next: seq<nat>, i: nat)
    requires i < |order|
  {
    order[i] < |prev| && order[i] < |next| && next[order[i]] == At(order, i + 1) && prev[order[i]] == At(order, i - 1)
  }

  /** prev and next link exactly the buffers of order, in that order, into one cycle. */
  ghost predicate Ring(order: seq<nat>, prev: seq<nat>, next: seq<nat>) {
    && |prev| == |next| == NBUF + 1
    && (forall i :: 0 <= i < |order| ==> order[i] < NBUF)
    && (forall i, j :: 0 <= i < j < |order| ==> order[i] != order[j])
    && (forall i: nat {:trigger LinkedAt(order, prev, next, i)} :: i < |order| ==> LinkedAt(order, prev, next, i))
    && next[HEAD] == At(order, 0) && prev[HEAD] == At(order, |order| - 1)
  }

  /** Linking b in right after the head. */
  lemma PushFront(order: seq<nat>, prev: seq<nat>, next: seq<nat>, b: nat)
    requires Ring(order, prev, next) && b < NBUF && b !in order
    ensures Ring([b] + order, prev[b := HEAD][next[HEAD] := b], next[b := next[HEAD]][HEAD := b])
  {
    var order' := [b] + order;
    var prev' := prev[b := HEAD][next[HEAD] := b];
    var next' := next[b := next[HEAD]][HEAD := b];
    forall i: nat | i < |order'|
      ensures LinkedAt(order', prev', next', i)
    {
      if i > 0 {
        assert order'[i] == order[i - 1] && LinkedAt(order, prev, next, i - 1);
        assert i - 1 > 0 ==> order[i - 1] != order[0];
      }
    }
  }

  ghost function Without(order: seq<nat>, p: nat): (rest: seq<nat>)
    requires p < |order|
    ensures |rest| == |order| - 1
    ensures forall i :: 0 <= i < |rest| ==> rest[i] == order[if i < p then i else i + 1]
  {
    order[..p] + order[p + 1..]
  }

  lemma UnlinkedAt(order: seq<nat>, prev: seq<nat>, next: seq<nat>, p: nat, i: nat)
    requires Ring(order, prev, next) && p < |order| && i < |order| - 1 && next[order[p]] <= NBUF
    requires prev[order[p]] <= NBUF
    ensures var b, rest := order[p], Without(order, p);
            LinkedAt(rest, prev[next[b] := prev[b]], next[prev[b] := next[b]], i)
  {
    var k := if i < p then i else i + 1;
    assert LinkedAt(order, prev, next, k) && LinkedAt(order, prev, next, p);
    assert p > 0 && k != p - 1 ==> order[k] != order[p - 1];
    assert p + 1 < |order| && k != p + 1 ==> order[k] != order[p + 1];
  }

  /** Unlinking the buffer at position p. */
  lemma Unlink(order: seq<nat>, prev: seq<nat>, next: seq<nat>, p: nat)
    requires Ring(order, prev, next) && p < |order|
    ensures next[order[p]] <= NBUF && prev[order[p]] <= NBUF
    ensures var b := order[p];
            Ring(Without(order, p), prev[next[b] := prev[b]], next[prev[b] := next[b]])
  {
    var b, rest := order[p], Without(order, p);
    assert LinkedAt(order, prev, next, p);
    var prev', next' := prev[next[b] := prev[b]], next[prev[b] := next[b]];
    forall i: nat | i < |rest|
      ensures LinkedAt(rest, prev', next', i)
    {
      UnlinkedAt(order, prev, next, p, i);
    }
    UnlinkedEnds(order, prev, next, p);
  }

  lemma UnlinkedEnds(order: seq<nat>, prev: seq<nat>, next: seq<nat>, p: nat)
    requires Ring(order, prev, next) && p < |order| && next[order[p]] <= NBUF && prev[order[p]] <= NBUF
    ensures var b, rest := order[p], Without(order, p);
            && next[prev[b] := next[b]][HEAD] == At(rest, 0) && prev[next[b] := prev[b]][HEAD] == At(rest, |rest| - 1)
  {
    assert LinkedAt(order, prev, next, p);
  }

  lemma MovedKeepsAll(order: seq<nat>, p: nat)
    requires p < |order|
    ensures forall b :: b in order ==> b in [order[p]] + Without(order, p)
  {
    var moved := [order[p]] + Without(order, p);
    forall b | b in order
      ensures b in moved
    {
      var q :| 0 <= q < |order| && order[q] == b;
      assert moved[if q < p then q + 1 else if q == p then 0 else q] == b;
    }
  }

  lemma Neighbours(order: seq<nat>, prev: seq<nat>, next: seq<nat>, p: nat)
    requires Ring(order, prev, next) && p < |order|
    ensures order[p] < NBUF < |prev| == |next| && next[order[p]] <= NBUF && prev[order[p]] <= NBUF
    ensures next[order[p]] != order[p]
  {
    assert LinkedAt(order, prev, next, p);
    assert p + 1 < |order| ==> order[p + 1] != order[p];
  }

  /** The pointer stores of brelse move the p-th buffer to the front. */
  lemma MovedRing(order: seq<nat>, prev: seq<nat>, next: seq<nat>, p: nat, prev': seq<nat>, next': seq<nat>)
    requires Ring(order, prev, next) && p < |order| && order[p] < |prev| == |next|
    requires next[order[p]] < |prev| && prev' == prev[next[order[p]] := prev[order[p]]]
    requires prev[order[p]] < |next| && next' == next[prev[order[p]] := next[order[p]]]
    ensures |prev'| == |next'| == NBUF + 1 && next'[HEAD] <= NBUF
    ensures var b := order[p];
            Ring([b] + Without(order, p), prev'[b := HEAD][next'[HEAD] := b],
                 next'[b := next'[HEAD]][HEAD := b]) == true
  {
    Unlink(order, prev, next, p);
    PushFront(Without(order, p), prev', next', order[p]);
  }

  // ---- the buffers ----

  ghost predicate CacheOk(bufs: seq<Buf>, disk: Disk) {
    && |bufs| == NBUF
    && (forall i, j :: 0 <= i < j < NBUF && bufs[i].dev == ROOTDEV && bufs[j].dev == ROOTDEV ==>
          bufs[i].blockno != bufs[j].blockno)
    && forall i :: 0 <= i < NBUF ==> BufOk(bufs[i], disk)
  }

  ghost predicate BufOk(x: Buf, disk: Disk) {
    && (x.dev == ROOTDEV ==> x.blockno < |disk|)
    && (x.dev != ROOTDEV ==> !x.valid && x.refcnt == 0)
    && (x.dirty ==> x.valid)
    && (x.locked ==> x.refcnt > 0)
    && (x.valid && !InUse(x) ==> x.data == disk[x.blockno])
  }

  ghost function Lookup(bufs: seq<Buf>, b: nat): (r: int)
    ensures -1 <= r < |bufs|
    ensures r >= 0 ==> Caches(bufs[r], b)
    ensures r < 0 ==> forall i :: 0 <= i < |bufs| ==> !Caches(bufs[i], b)
  {
    if bufs == [] then -1
    else if Caches(bufs[|bufs| - 1], b) then |bufs| - 1
    else Lookup(bufs[..|bufs| - 1], b)
  }

  ghost function ViewAt(bufs: seq<Buf>, disk: Disk, b: nat): Block
    requires b < |disk|
  {
    var i := Lookup(bufs, b);
    if i >= 0 && bufs[i].valid then bufs[i].data else disk[b]
  }

  /** What readers see, block by block. */
  ghost function View(bufs: seq<Buf>, disk: Disk): (v: Disk)
    ensures |v| == |disk|
  {
    seq(|disk|, b requires 0 <= b < |disk| => ViewAt(bufs, disk, b))
  }

  lemma ViewOfCached(bufs: seq<Buf>, disk: Disk, i: nat)
    requires CacheOk(bufs, disk) && i < NBUF && bufs[i].dev == ROOTDEV
    ensures Lookup(bufs, bufs[i].blockno) == i
    ensures View(bufs, disk)[bufs[i].blockno] == if bufs[i].valid then bufs[i].data else disk[bufs[i].blockno]
  {
    var r := Lookup(bufs, bufs[i].blockno);
    assert Caches(bufs[i], bufs[i].blockno);
    assert Caches(bufs[r], bufs[i].blockno);
  }

  lemma ViewOfUncached(bufs: seq<Buf>, disk: Disk, b: nat)
    requires b < |disk|
    requires forall i :: 0 <= i < |bufs| && Caches(bufs[i], b) ==> bufs[i].valid && bufs[i].data == disk[b]
    ensures View(bufs, disk)[b] == disk[b]
  {}

  /** Replacing buffer i by x, where x caches the same block or i was free and x caches a block
  that had no buffer: the cache stays consistent and only the view of x's block may change. */
  lemma Replace(bufs: seq<Buf>, disk: Disk, i: nat, x: Buf)
    requires CacheOk(bufs, disk) && i < NBUF && x.dev == ROOTDEV && BufOk(x, disk)
    requires Caches(bufs[i], x.blockno) || (!InUse(bufs[i]) && Lookup(bufs, x.blockno) < 0)
    ensures CacheOk(bufs[i := x], disk)
    ensures View(bufs[i := x], disk) ==
            View(bufs, disk)[x.blockno := if x.valid then x.data else disk[x.blockno]]
  {
    var bufs' := bufs[i := x];
    assert forall j :: 0 <= j < NBUF && j != i ==> !Caches(bufs[j], x.blockno) by {
      assert Caches(bufs[i], x.blockno) ==> bufs[i].dev == ROOTDEV;
    }
    assert CacheOk(bufs', disk);
    ViewOfCached(bufs', disk, i);
    forall b | 0 <= b < |disk| && b != x.blockno
      ensures ViewAt(bufs', disk, b) == ViewAt(bufs, disk, b)
    {
      var r, r' := Lookup(bufs, b), Lookup(bufs', b);
      if r' >= 0 {
        assert bufs'[r'] == bufs[r'];
        ViewOfCached(bufs, disk, r');
      } else if r >= 0 {
        assert forall k :: 0 <= k < NBUF && k != i ==> bufs'[k] == bufs[k];
      }
    }
  }

  /** Writing a held or clean buffer through to disk does not change the view. */
  lemma WriteThrough(bufs: seq<Buf>, disk: Disk, r: nat)
    requires CacheOk(bufs, disk) && r < NBUF && bufs[r].dev == ROOTDEV && bufs[r].valid
    ensures CacheOk(bufs, disk[bufs[r].blockno := bufs[r].data])
    ensures View(bufs, disk[bufs[r].blockno := bufs[r].data]) == View(bufs, disk)
  {
    var b := bufs[r].blockno;
    var disk' := disk[b := bufs[r].data];
    assert forall i :: 0 <= i < NBUF && i != r && bufs[i].dev == ROOTDEV ==> bufs[i].blockno != b;
    assert CacheOk(bufs, disk');
    ViewOfCached(bufs, disk, r);
  }

  /** The blocks whose buffer is dirty. */
  ghost function DirtyBlocks(bufs: seq<Buf>): set<nat> {
    set i | 0 <= i < |bufs| && bufs[i].dirty :: bufs[i].blockno
  }

  /** Changing a buffer that caches b changes the pinned blocks at b at most. */
  lemma DirtyAfterReplace(bufs: seq<Buf>, disk: Disk, i: nat, x: Buf)
    requires CacheOk(bufs, disk) && i < NBUF && x.dev == ROOTDEV
    requires Caches(bufs[i], x.blockno) || (!InUse(bufs[i]) && Lookup(bufs, x.blockno) < 0)
    ensures DirtyBlocks(bufs[i := x]) ==
            if x.dirty then DirtyBlocks(bufs) + {x.blockno} else DirtyBlocks(bufs) - {x.blockno}
  {
    var bufs' := bufs[i := x];
    forall j | 0 <= j < NBUF && j != i
      ensures bufs'[j] == bufs[j] && (bufs[j].dirty ==> bufs[j].blockno != x.blockno)
    {
      if bufs[j].dirty {
        assert bufs[j].dev == ROOTDEV;
        assert !Caches(bufs[j], x.blockno);
      }
    }
    forall c | c in DirtyBlocks(bufs)
      ensures c == x.blockno || c in DirtyBlocks(bufs')
    {
      var j :| 0 <= j < NBUF && bufs[j].dirty && bufs[j].blockno == c;
      if j != i {
        assert bufs'[j].dirty && bufs'[j].blockno == c;
      }
    }
    forall c | c in DirtyBlocks(bufs') && c != x.blockno
      ensures c in DirtyBlocks(bufs)
    {
      var j :| 0 <= j < NBUF && bufs'[j].dirty && bufs'[j].blockno == c;
      assert bufs[j].dirty;
    }
    if x.dirty {
      assert bufs'[i].dirty;
    } else {
      assert forall j :: 0 <= j < NBUF && bufs'[j].dirty ==> bufs'[j].blockno != x.blockno;
    }
  }

  /** NBUF buffers that each cache a block of S: S has at least NBUF blocks. */
  lemma {:induction false} BuffersOfSet(bufs: seq<Buf>, S: set<nat>)
    requires forall i, j :: 0 <= i < j < |bufs| ==> bufs[i].blockno != bufs[j].blockno
    requires forall i :: 0 <= i < |bufs| ==> bufs[i].blockno in S
    ensures |bufs| <= |S|
    decreases |bufs|
  {
    if bufs != [] {
      var k := |bufs| - 1;
      BuffersOfSet(bufs[..k], S - {bufs[k].blockno});
    }
  }

  class Bcache {
    const bufs: array<Buf>
    const prev: array<nat>
    const next: array<nat>
    var disk: Disk
    ghost var order: seq<nat>       // the MRU list, most recent first
    ghost var writes: seq<Write>    // every disk write so far

    ghost predicate Valid()
      reads this, bufs, prev, next
    {
      && bufs.Length == NBUF && prev.Length == next.Length == NBUF + 1 && prev != next
      && |order| == NBUF && (forall b :: 0 <= b < NBUF ==> b in order)
      && Ring(order, prev[..], next[..])
      && CacheOk(bufs[..], disk)
    }

    ghost function Contents(): (v: Disk)
      reads this, bufs
      ensures |v| == |disk|
    {
      View(bufs[..], disk)
    }

    /** No process holds a buffer. */
    ghost predicate Quiet()
      reads this, bufs
    {
      forall i :: 0 <= i < bufs.Length ==> bufs[i].refcnt == 0
    }

    /** binit: all buffers empty, linked in one after the other. */
    constructor (device: Disk)
      ensures Valid() && disk == device && writes == [] && Quiet()
      ensures fresh(bufs) && fresh(prev) && fresh(next)
      ensures Contents() == device
      ensures forall i :: 0 <= i < NBUF ==> bufs[i] == Buf(0, 0, false, false, 0, false, ZeroBlock())
    {
      bufs := new Buf[NBUF](_ => Buf(0, 0, false, false, 0, false, ZeroBlock()));
      prev := new nat[NBUF + 1](_ => HEAD);
      next := new nat[NBUF + 1](_ => HEAD);
      disk, writes, order := device, [], [];
      new;
      for b := 0 to NBUF
        invariant bufs.Length == NBUF && prev.Length == next.Length == NBUF + 1
        invariant |order| == b && Ring(order, prev[..], next[..])
        invariant forall c :: c in order <==> 0 <= c < b
        invariant disk == device && writes == []
        invariant forall i :: 0 <= i < NBUF ==> bufs[i] == Buf(0, 0, false, false, 0, false, ZeroBlock())
      {
        PushFront(order, prev[..], next[..], b);
        LinkFront(b);
        order := [b] + order;
      }
      assert forall b :: 0 <= b < |disk| ==> ViewAt(bufs[..], disk, b) == disk[b];
    }

    /** The four pointer stores that put b right behind the head. */
    method LinkFront(b: nat)
      requires b < NBUF && prev.Length == next.Length == NBUF + 1 && prev != next && next[HEAD] <= NBUF
      modifies prev, next
      ensures prev[..] == old(prev[..][b := HEAD][next[HEAD] := b])
      ensures next[..] == old(next[..][b := next[HEAD]][HEAD := b])
    {
      next[b] := next[HEAD];
      prev[b] := HEAD;
      prev[next[HEAD]] := b;
      next[HEAD] := b;
    }

    /** Walks the list from the most recently used buffer to find the one that caches b. */
    method Find(b: nat) returns (r: int)
      requires Valid()
      ensures r == Lookup(bufs[..], b)
    {
      var p := 0;
      r := next[HEAD];
      while r != HEAD
        invariant 0 <= p <= NBUF && r == At(order, p)
        invariant forall q :: 0 <= q < p ==> !Caches(bufs[order[q]], b)
        decreases NBUF - p
      {
        if Caches(bufs[r], b) {
          ViewOfCached(bufs[..], disk, r);
          return;
        }
        assert LinkedAt(order, prev[..], next[..], p);
        r, p := next[r], p + 1;
      }
      r := -1;
      forall i | 0 <= i < NBUF
        ensures !Caches(bufs[i], b)
      {
        assert i in order;
        var q :| 0 <= q < NBUF && order[q] == i;
      }
    }

    /** Walks the list from the least recently used buffer to find one that may be recycled. */
    method FindFree() returns (r: int, ghost p: int)
      requires Valid()
      ensures -1 <= p < NBUF && (r == if p < 0 then -1 else order[p])
      ensures p >= 0 ==> !InUse(bufs[order[p]])
      ensures forall q :: p < q < NBUF ==> InUse(bufs[order[q]])
      ensures p < 0 ==> forall i :: 0 <= i < NBUF ==> InUse(bufs[i])
    {
      p := NBUF - 1;
      r := prev[HEAD];
      while r != HEAD
        invariant -1 <= p < NBUF && r == At(order, p)
        invariant forall q :: p < q < NBUF ==> InUse(bufs[order[q]])
        decreases p
      {
        if !InUse(bufs[r]) {
          return;
        }
        assert LinkedAt(order, prev[..], next[..], p);
        r, p := prev[r], p - 1;
      }
      r := -1;
      forall i | 0 <= i < NBUF
        ensures InUse(bufs[i])
      {
        assert i in order;
        var q :| 0 <= q < NBUF && order[q] == i;
      }
    }

    /** bget: the locked buffer of block b, or -1 where the kernel panics because every buffer is
    in use.  A block without a buffer takes over the least recently used free one.  The lock
    of the buffer must be free: acquiresleep waits until it is. */
    method Bget(b: nat) returns (r: int)
      requires Valid() && b < |disk|
      requires forall i :: 0 <= i < NBUF && Caches(bufs[i], b) ==> !bufs[i].locked
      modifies bufs
      ensures Valid()
      ensures -1 <= r < NBUF
      ensures r == -1 <==> old(Lookup(bufs[..], b)) < 0 && forall i :: 0 <= i < NBUF ==> old(InUse(bufs[i]))
      ensures r == -1 ==> bufs[..] == old(bufs[..])
      ensures r >= 0 ==>
                var x := old(bufs[..])[r];
                && bufs[..] == old(bufs[..])[r := bufs[r]]
                && (if old(Lookup(bufs[..], b)) >= 0
                    then r == old(Lookup(bufs[..], b)) && bufs[r] == x.(refcnt := x.refcnt + 1, locked := true)
                    else && !InUse(x) && bufs[r] == Buf(ROOTDEV, b, false, false, 1, true, x.data)
                         && forall p, q :: 0 <= p < q < NBUF && order[p] == r ==> old(InUse(bufs[order[q]])))
      ensures Contents() == old(Contents())
    {
      ghost var before := bufs[..];
      r := Find(b);
      if r >= 0 {
        bufs[r] := bufs[r].(refcnt := bufs[r].refcnt + 1, locked := true);
        ViewOfCached(before, disk, r);
      } else {
        ghost var p;
        r, p := FindFree();
        if r < 0 {
          return;
        }
        bufs[r] := Buf(ROOTDEV, b, false, false, 1, true, bufs[r].data);
        ViewOfUncached(before, disk, b);
      }
      Replace(before, disk, r, bufs[r]);
      assert bufs[..] == before[r := bufs[r]];
    }

    /** iderw on the in-memory disk: a dirty buffer is written, a buffer that is not valid is
    read. */
    method Iderw(r: nat)
      requires Valid() && r < NBUF && bufs[r].dev == ROOTDEV && bufs[r].locked
      requires bufs[r].dirty || !bufs[r].valid
      modifies this`disk, this`writes, bufs
      ensures Valid()
      ensures var x := old(bufs[r]);
              && bufs[..] == old(bufs[..])[r := x.(valid := true, dirty := false,
                                                    data := if x.dirty then x.data else old(disk)[x.blockno])]
              && disk == (if x.dirty then old(disk)[x.blockno := x.data] else old(disk))
              && writes == old(writes) + if x.dirty then [Write(x.blockno, x.data)] else []
      ensures Contents() == old(Contents())
    {
      ghost var before, x := bufs[..], bufs[r];
      ViewOfCached(before, disk, r);
      if bufs[r].dirty {
        bufs[r] := bufs[r].(valid := true, dirty := false);
        assert bufs[..] == before[r := bufs[r]];
        Replace(before, disk, r, bufs[r]);
        WriteThrough(bufs[..], disk, r);
        disk := disk[bufs[r].blockno := bufs[r].data];
        writes := writes + [Write(bufs[r].blockno, bufs[r].data)];
      } else {
        bufs[r] := bufs[r].(valid := true, dirty := false, data := disk[bufs[r].blockno]);
        assert bufs[..] == before[r := bufs[r]];
        Replace(before, disk, r, bufs[r]);
      }
    }

    /** bread: the locked buffer of block b, holding what readers see of b. */
    method Bread(b: nat) returns (r: int)
      requires Valid() && b < |disk|
      requires forall i :: 0 <= i < NBUF && Caches(bufs[i], b) ==> !bufs[i].locked
      modifies this`disk, this`writes, bufs
      ensures Valid() && disk == old(disk) && writes == old(writes) && -1 <= r < NBUF
      ensures r == -1 <==> old(Lookup(bufs[..], b)) < 0 && forall i :: 0 <= i < NBUF ==> old(InUse(bufs[i]))
      ensures r == -1 ==> bufs[..] == old(bufs[..])
      ensures r >= 0 ==>
                var x, i := bufs[r], old(Lookup(bufs[..], b));
                && bufs[..] == old(bufs[..])[r := x]
                && Caches(x, b) && x.valid && x.locked && x.data == old(Contents())[b]
                && (if i >= 0 then r == i && x.dirty == old(bufs[..])[r].dirty
                    && x.refcnt == old(bufs[..])[r].refcnt + 1
                    else !InUse(old(bufs[..])[r]) && !x.dirty && x.refcnt == 1)
      ensures Contents() == old(Contents()) && DirtyBlocks(bufs[..]) == old(DirtyBlocks(bufs[..]))
    {
      ghost var before := bufs[..];
      r := Bget(b);
      if r >= 0 {
        if !bufs[r].valid {
          Iderw(r);
        }
        ViewOfCached(bufs[..], disk, r);
        DirtyAfterReplace(before, disk, r, bufs[r]);
      }
    }

    /** The holder of a buffer stores into its data. */
    method Fill(r: nat, v: Block)
      requires Valid() && r < NBUF && bufs[r].locked && bufs[r].valid
      modifies bufs
      ensures Valid() && bufs[..] == old(bufs[..])[r := old(bufs[r]).(data := v)]
      ensures Contents() == old(Contents())[bufs[r].blockno := v]
      ensures DirtyBlocks(bufs[..]) == old(DirtyBlocks(bufs[..]))
    {
      ghost var before := bufs[..];
      bufs[r] := bufs[r].(data := v);
      assert bufs[..] == before[r := bufs[r]];
      Replace(before, disk, r, bufs[r]);
      DirtyAfterReplace(before, disk, r, bufs[r]);
    }

    /** bwrite: the buffer's contents go to disk. */
    method Bwrite(r: nat)
      requires Valid() && r < NBUF && bufs[r].locked && bufs[r].valid
      modifies this`disk, this`writes, bufs
      ensures Valid()
      ensures var x := old(bufs[r]);
              && bufs[..] == old(bufs[..])[r := x.(dirty := false)]
              && disk == old(disk)[x.blockno := x.data]
              && writes == old(writes) + [Write(x.blockno, x.data)]
              && DirtyBlocks(bufs[..]) == old(DirtyBlocks(bufs[..])) - {x.blockno}
      ensures Contents() == old(Contents())
    {
      ghost var before := bufs[..];
      bufs[r] := bufs[r].(dirty := true);
      assert bufs[..] == before[r := bufs[r]];
      Replace(before, disk, r, bufs[r]);
      ViewOfCached(before, disk, r);
      Iderw(r);
      DirtyAfterReplace(before, disk, r, bufs[r]);
    }

    /** What log_write does to a buffer: pin it until the commit has written it. */
    method Pin(r: nat)
      requires Valid() && r < NBUF && bufs[r].locked && bufs[r].valid
      modifies bufs
      ensures Valid() && bufs[..] == old(bufs[..])[r := old(bufs[r]).(dirty := true)]
      ensures Contents() == old(Contents())
      ensures DirtyBlocks(bufs[..]) == old(DirtyBlocks(bufs[..])) + {bufs[r].blockno}
    {
      ghost var before := bufs[..];
      bufs[r] := bufs[r].(dirty := true);
      assert bufs[..] == before[r := bufs[r]];
      DirtyAfterReplace(before, disk, r, bufs[r]);
      Replace(before, disk, r, bufs[r]);
      ViewOfCached(before, disk, r);
    }

    /** Give up the reference to a buffer and its lock. */
    method Unref(r: nat)
      requires Valid() && r < NBUF && bufs[r].locked
      requires bufs[r].refcnt == 1 && bufs[r].valid && !bufs[r].dirty ==> bufs[r].data == disk[bufs[r].blockno]
      modifies bufs
      ensures Valid() == true
      ensures bufs[..] == old(bufs[..])[r := old(bufs[r]).(refcnt := old(bufs[r]).refcnt - 1, locked := false)]
      ensures Contents() == old(Contents()) && DirtyBlocks(bufs[..]) == old(DirtyBlocks(bufs[..]))
    {
      ghost var before := bufs[..];
      bufs[r] := bufs[r].(refcnt := bufs[r].refcnt - 1, locked := false);
      assert bufs[..] == before[r := bufs[r]];
      Replace(before, disk, r, bufs[r]);
      ViewOfCached(before, disk, r);
      DirtyAfterReplace(before, disk, r, bufs[r]);
    }

    /** brelse: unlock the buffer and, if no one else refers to it, move it to the front of the
    list.  A caller that has changed the data has written or pinned the buffer before. */
    method Brelse(r: nat)
      requires Valid() && r < NBUF && bufs[r].locked
      requires bufs[r].refcnt == 1 && bufs[r].valid && !bufs[r].dirty ==> bufs[r].data == disk[bufs[r].blockno]
      modifies this`order, bufs, prev, next
      ensures Valid()
      ensures var x := old(bufs[r]);
              && bufs[..] == old(bufs[..])[r := x.(refcnt := x.refcnt - 1, locked := false)]
              && (if x.refcnt == 1
                  then exists p :: 0 <= p < NBUF && old(order)[p] == r &&
                                   order == [r] + Without(old(order), p)
                  else order == old(order))
      ensures Contents() == old(Contents()) && DirtyBlocks(bufs[..]) == old(DirtyBlocks(bufs[..]))
    {
      Unref(r);
      if bufs[r].refcnt == 0 {
        MoveToFront(r);
      }
    }

    method MoveToFront(r: nat)
      requires Valid() && r < NBUF
      modifies this`order, prev, next
      ensures Valid() == true
      ensures exists p :: 0 <= p < NBUF && old(order)[p] == r &&
                          order == [r] + Without(old(order), p)
    {
      assert r in order;
      ghost var p :| 0 <= p < NBUF && order[p] == r;
      Neighbours(order, prev[..], next[..], p);
      MovedRing(order, prev[..], next[..], p, prev[..][next[r] := prev[r]], next[..][prev[r] := next[r]]);
      MovedKeepsAll(order, p);
      Unhook(r);
      LinkFront(r);
      order := [r] + Without(order, p);
    }

    /** The two pointer stores that take r out of the list. */
    method Unhook(r: nat)
      requires r < NBUF && prev.Length == next.Length == NBUF + 1 && prev != next
      requires next[r] <= NBUF && prev[r] <= NBUF && next[r] != r
      modifies prev, next
      ensures prev[..] == old(prev[..][next[r] := prev[r]])
      ensures next[..] == old(next[..][prev[r] := next[r]])
    {
      prev[next[r]] := prev[r];
      next[prev[r]] := next[r];
    }
  }
}
