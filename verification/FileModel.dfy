/** The file system as a set of files over shared disk blocks: which block every slot of every
inode refers to, which blocks are allocated, and what happens to the contents of files when
a block is linked in, overwritten or freed. */
module FileModel {
  import opened Blocks

  const NDIRECT := 12
  const NINDIRECT := 128                   // BSIZE / sizeof(uint)
  const MAXFILE := NDIRECT + NINDIRECT

  /** A place in inode `ino` that can refer to a block: 0..11 are the direct blocks, 12 is the
  indirect block, 13..140 are its entries. */
  datatype Slot = Slot(ino: nat, pos: nat)

  /** refs: the block each linked slot refers to; sizes: file sizes in bytes; used: the blocks
  the bitmap marks as allocated; blocks: current block contents. */
  datatype Files = Files(refs: map<Slot, nat>, sizes: seq<nat>, used: set<nat>, blocks: Disk)

  /** The slot of the bn-th data block of inode i. */
  function DataSlot(i: nat, bn: nat): Slot {
    Slot(i, if bn < NDIRECT then bn else bn + 1)
  }

  function IndirectSlot(i: nat): Slot {
    Slot(i, NDIRECT)
  }

  /** Every referenced block is allocated and lies behind the metadata, which is allocated as
  well; no block is referenced twice. */
  ghost predicate Owned(f: Files, datastart: nat) {
    && 0 < datastart <= |f.blocks|
    && (forall x {:trigger f.refs[x]} :: x in f.refs ==> datastart <= f.refs[x] < |f.blocks| && f.refs[x] in f.used)
    && (forall x, y {:trigger f.refs[x], f.refs[y]} :: x in f.refs && y in f.refs && f.refs[x] == f.refs[y] ==> x == y)
    && (forall b :: 0 <= b < datastart ==> b in f.used)
  }

  /** No file has a hole below its size. */
  ghost predicate Dense(f: Files) {
    && (forall i {:trigger f.sizes[i]} :: 0 <= i < |f.sizes| ==> f.sizes[i] <= MAXFILE * BSIZE)
    && (forall i, bn {:trigger DataSlot(i, bn)} :: 0 <= i < |f.sizes| && 0 <= bn && bn * BSIZE < f.sizes[i] ==>
          DataSlot(i, bn) in f.refs)
  }

  ghost predicate Inv(f: Files, datastart: nat) {
    Owned(f, datastart) && Dense(f)
  }

  /** Some slot refers to block b. */
  ghost predicate Referenced(refs: map<Slot, nat>, b: nat) {
    exists x {:trigger x in refs} :: x in refs && refs[x] == b
  }

  /** No data block is lost: every allocated one is part of a file. */
  ghost predicate NoneLost(f: Files, datastart: nat) {
    forall b {:trigger b in f.used} :: b in f.used && datastart <= b ==> Referenced(f.refs, b)
  }

  lemma LinkedNotLost(f: Files, g: Files, datastart: nat, x: Slot, b: nat)
    requires x !in f.refs && g.refs == f.refs[x := b]
    requires forall c {:trigger c in g.used} :: c in g.used ==> c in f.used || c == b
    ensures NoneLost(f, datastart) ==> NoneLost(g, datastart)
  {
    forall c {:trigger c in g.used} | NoneLost(f, datastart) && c in g.used && datastart <= c
      ensures Referenced(g.refs, c)
    {
      if c == b {
        assert x in g.refs;
      } else {
        var y :| y in f.refs && f.refs[y] == c;
        assert y in g.refs;
      }
    }
  }

  /** Truncation gives back all the blocks of the file, so that none is lost. */
  lemma TruncateLosesNone(f: Files, datastart: nat, i: nat)
    requires Inv(f, datastart) && NoneLost(f, datastart) && i < |f.sizes|
    ensures NoneLost(Truncated(f, i), datastart)
  {
    var h := Truncated(f, i);
    forall c {:trigger c in h.used} | c in h.used && datastart <= c
      ensures Referenced(h.refs, c)
    {
      var y :| y in f.refs && f.refs[y] == c;
      assert y.ino != i;
      assert y in h.refs;
    }
  }

  /** Byte k of file i is stored somewhere. */
  ghost predicate Stored(f: Files, i: nat, k: nat) {
    DataSlot(i, k / BSIZE) in f.refs && f.refs[DataSlot(i, k / BSIZE)] < |f.blocks|
  }

  ghost function Byte(f: Files, i: nat, k: nat): byte
    requires Stored(f, i, k)
  {
    f.blocks[f.refs[DataSlot(i, k / BSIZE)]][k % BSIZE]
  }

  lemma DenseStored(f: Files, datastart: nat, i: nat)
    requires Inv(f, datastart) && i < |f.sizes|
    ensures forall k :: 0 <= k < f.sizes[i] ==> Stored(f, i, k)
  {
    forall k | 0 <= k < f.sizes[i]
      ensures Stored(f, i, k)
    {
      assert k / BSIZE * BSIZE < f.sizes[i];
    }
  }

  /** A file is the flat sequence of its bytes. */
  ghost function Content(f: Files, datastart: nat, i: nat): (s: seq<byte>)
    requires Inv(f, datastart) && i < |f.sizes|
    ensures |s| == f.sizes[i]
    ensures forall k :: 0 <= k < |s| ==> Stored(f, i, k) && s[k] == Byte(f, i, k)
  {
    DenseStored(f, datastart, i);
    seq(f.sizes[i], k requires 0 <= k < f.sizes[i] => Byte(f, i, k))
  }

  /** The m bytes of file i from pos on, when they lie in one block, are bytes of that block. */
  lemma BlockOfFile(f: Files, datastart: nat, i: nat, pos: nat, m: nat)
    requires Inv(f, datastart) && i < |f.sizes| && 0 < m && pos + m <= f.sizes[i] && pos % BSIZE + m <= BSIZE
    ensures DataSlot(i, pos / BSIZE) in f.refs && f.refs[DataSlot(i, pos / BSIZE)] < |f.blocks|
    ensures Content(f, datastart, i)[pos..pos + m] ==
            f.blocks[f.refs[DataSlot(i, pos / BSIZE)]][pos % BSIZE..pos % BSIZE + m]
  {
    var s := Content(f, datastart, i);
    DenseStored(f, datastart, i);
    assert Stored(f, i, pos);
    forall k | pos <= k < pos + m
      ensures s[k] == f.blocks[f.refs[DataSlot(i, pos / BSIZE)]][k - pos + pos % BSIZE]
    {
      assert k / BSIZE == pos / BSIZE && k % BSIZE == k - pos + pos % BSIZE;
    }
  }

  // ---- files that stay as they are ----

  /** g stores at least what f stores for inode i, in the same blocks. */
  ghost predicate Kept(f: Files, g: Files, i: nat) {
    forall bn {:trigger DataSlot(i, bn)} :: 0 <= bn && DataSlot(i, bn) in f.refs ==>
      && DataSlot(i, bn) in g.refs && g.refs[DataSlot(i, bn)] == f.refs[DataSlot(i, bn)]
      && f.refs[DataSlot(i, bn)] < |f.blocks| == |g.blocks|
      && g.blocks[f.refs[DataSlot(i, bn)]] == f.blocks[f.refs[DataSlot(i, bn)]]
  }

  lemma KeptTrans(f: Files, g: Files, h: Files, i: nat)
    requires Kept(f, g, i) && Kept(g, h, i)
    ensures Kept(f, h, i)
  {}

  lemma KeptContent(f: Files, g: Files, datastart: nat, i: nat)
    requires Inv(f, datastart) && Inv(g, datastart) && i < |f.sizes| == |g.sizes|
    requires Kept(f, g, i) && f.sizes[i] == g.sizes[i]
    ensures Content(f, datastart, i) == Content(g, datastart, i)
  {}

  /** g still has all links and all bytes of f. */
  ghost predicate Grows(f: Files, g: Files) {
    && g.sizes == f.sizes && |g.blocks| == |f.blocks|
    && (forall x {:trigger x in g.refs} :: x in f.refs ==> x in g.refs && g.refs[x] == f.refs[x])
    && forall i {:trigger Kept(f, g, i)} :: 0 <= i ==> Kept(f, g, i)
  }

  /** g keeps all links and allocated blocks of f; what it links anew it links in inode i, to blocks that were free. */
  ghost predicate Allocates(f: Files, g: Files, i: nat) {
    && (forall b {:trigger b in g.used} {:trigger b in f.used} :: b in f.used ==> b in g.used)
    && (forall x {:trigger x in g.refs} {:trigger x in f.refs} :: x in f.refs ==> x in g.refs && g.refs[x] == f.refs[x])
    && forall x {:trigger x in g.refs} :: x in g.refs && x !in f.refs ==> g.refs[x] !in f.used && x.ino == i
  }

  lemma LinkAllocates(f: Files, g: Files, x: Slot, b: nat)
    requires x !in f.refs && b !in f.used && g.refs == f.refs[x := b] && g.used == f.used + {b}
    ensures Allocates(f, g, x.ino) == true && |g.used| == |f.used| + 1
  {}

  lemma AllocatesTrans(f: Files, g: Files, h: Files, i: nat)
    requires Allocates(f, g, i) && Allocates(g, h, i)
    ensures Allocates(f, h, i) == true
  {}

  lemma GrowsTrans(f: Files, g: Files, h: Files)
    requires Grows(f, g) && Grows(g, h)
    ensures Grows(f, h)
  {
    forall i | 0 <= i
      ensures Kept(f, h, i)
    {
      assert Kept(f, g, i) && Kept(g, h, i);
      KeptTrans(f, g, h, i);
    }
  }

  // ---- linking a fresh block ----

  /** Marking a block allocated, which changes metadata blocks only. */
  lemma MarkKeeps(f: Files, datastart: nat, blocks: Disk, b: nat)
    requires Owned(f, datastart) && |blocks| == |f.blocks|
    requires forall c :: datastart <= c < |blocks| ==> blocks[c] == f.blocks[c]
    ensures var g := Files(f.refs, f.sizes, f.used + {b}, blocks);
            Owned(g, datastart) && (Dense(f) ==> Dense(g)) && Grows(f, g)
  {}

  /** Storing the number of an allocated block that nothing refers to in an empty slot. */
  lemma LinkRef(f: Files, datastart: nat, x: Slot, b: nat)
    requires Owned(f, datastart) && x !in f.refs && datastart <= b < |f.blocks| && b in f.used
    requires forall y :: y in f.refs ==> f.refs[y] != b
    ensures var g := Files(f.refs[x := b], f.sizes, f.used, f.blocks);
            Owned(g, datastart) && (Dense(f) ==> Dense(g)) && Grows(f, g)
  {}

  /** Overwriting a block that nothing refers to. */
  lemma ZeroKeeps(f: Files, datastart: nat, b: nat, v: Block)
    requires Owned(f, datastart) && b < |f.blocks| && forall x :: x in f.refs ==> f.refs[x] != b
    ensures var g := Files(f.refs, f.sizes, f.used, f.blocks[b := v]);
            Owned(g, datastart) && (Dense(f) ==> Dense(g)) && Grows(f, g)
  {}

  // ---- overwriting a block ----

  ghost function Store(f: Files, b: nat, v: Block): Files
    requires b < |f.blocks|
  {
    Files(f.refs, f.sizes, f.used, f.blocks[b := v])
  }

  /** Overwriting the block of slot x leaves every file alone but the one that has x as a data
  slot. */
  lemma StoreKeeps(f: Files, datastart: nat, x: Slot, v: Block)
    requires Owned(f, datastart) && x in f.refs
    ensures Owned(Store(f, f.refs[x], v), datastart)
    ensures Dense(f) ==> Dense(Store(f, f.refs[x], v))
    ensures forall i :: i != x.ino ==> Kept(f, Store(f, f.refs[x], v), i)
    ensures x == IndirectSlot(x.ino) ==> Grows(f, Store(f, f.refs[x], v))
  {}

  // ---- writing into a file ----

  /** Block v with the bytes w stored from position p. */
  function Patch(v: Block, p: nat, w: seq<byte>): (r: Block)
    requires p + |w| <= BSIZE
    ensures forall k :: 0 <= k < BSIZE ==> r[k] == if p <= k < p + |w| then w[k - p] else v[k]
  {
    v[..p] + w + v[p + |w|..]
  }

  /** g is f with `done` bytes of w written into file i from offset off, sizes not yet updated. */
  ghost predicate Written(f: Files, g: Files, i: nat, off: nat, w: seq<byte>, done: nat) {
    && g.sizes == f.sizes && |g.blocks| == |f.blocks| && done <= |w|
    && (forall k {:trigger Stored(g, i, k)} :: off <= k < off + done ==> Stored(g, i, k) && Byte(g, i, k) == w[k - off])
    && (forall k {:trigger Stored(f, i, k)} :: 0 <= k && Stored(f, i, k) && !(off <= k < off + done) ==>
          Stored(g, i, k) && Byte(g, i, k) == Byte(f, i, k))
    && (forall j {:trigger Kept(f, g, j)} :: 0 <= j && j != i ==> Kept(f, g, j))
  }

  /** Writing the next m bytes, all within one block. */
  lemma WriteMore(f: Files, g: Files, datastart: nat, i: nat, off: nat, w: seq<byte>, done: nat, m: nat)
    requires Owned(g, datastart) && Written(f, g, i, off, w, done) && done + m <= |w|
    requires 0 < m && (off + done) % BSIZE + m <= BSIZE
    requires DataSlot(i, (off + done) / BSIZE) in g.refs
    ensures var x, p := DataSlot(i, (off + done) / BSIZE), (off + done) % BSIZE;
            var h := Store(g, g.refs[x], Patch(g.blocks[g.refs[x]], p, w[done..done + m]));
            Written(f, h, i, off, w, done + m)
  {
    var x, p := DataSlot(i, (off + done) / BSIZE), (off + done) % BSIZE;
    var h := Store(g, g.refs[x], Patch(g.blocks[g.refs[x]], p, w[done..done + m]));
    forall k: nat | Stored(g, i, k)
      ensures Stored(h, i, k)
      ensures Byte(h, i, k) == if off + done <= k < off + done + m then w[k - off] else Byte(g, i, k)
    {
      if k / BSIZE == (off + done) / BSIZE {
      } else {
        assert DataSlot(i, k / BSIZE) != x;
      }
    }
    forall k | off <= k < off + done + m
      ensures Stored(h, i, k) && Byte(h, i, k) == w[k - off]
    {
      if k >= off + done {
        assert k / BSIZE == (off + done) / BSIZE;
        assert Stored(g, i, k);
      }
    }
    StoreKeeps(g, datastart, x, Patch(g.blocks[g.refs[x]], p, w[done..done + m]));
    forall j: nat | j != i
      ensures Kept(f, h, j)
    {
      assert Kept(f, g, j);
      KeptTrans(f, g, h, j);
    }
  }

  /** Steps that leave all files as they are do not disturb a write in progress. */
  lemma KeepWriting(f: Files, g: Files, h: Files, i: nat, off: nat, w: seq<byte>, done: nat)
    requires Written(f, g, i, off, w, done) && Grows(g, h)
    ensures Written(f, h, i, off, w, done)
  {
    assert Kept(g, h, i);
    forall k: nat | Stored(g, i, k)
      ensures Stored(h, i, k) && Byte(h, i, k) == Byte(g, i, k)
    {}
    forall j: nat | j != i
      ensures Kept(f, h, j)
    {
      assert Kept(f, g, j) && Kept(g, h, j);
      KeptTrans(f, g, h, j);
    }
  }

  /** Sequence s overwritten with w from position off, growing if w reaches beyond its end. */
  function Splice<T>(s: seq<T>, off: nat, w: seq<T>): (r: seq<T>)
    requires off <= |s|
    ensures |r| == if off + |w| <= |s| then |s| else off + |w|
    ensures forall k :: 0 <= k < |r| ==> r[k] == if off <= k < off + |w| then w[k - off] else s[k]
  {
    s[..off] + w + if off + |w| <= |s| then s[off + |w|..] else []
  }

  /** The size update that ends a write. */
  ghost function Resized(f: Files, i: nat, end: nat): Files
    requires i < |f.sizes|
  {
    Files(f.refs, f.sizes[i := if end > f.sizes[i] then end else f.sizes[i]], f.used, f.blocks)
  }

  /** After a write, all bytes of the file and of the write are stored. */
  lemma WrittenStored(f: Files, g: Files, datastart: nat, i: nat, off: nat, w: seq<byte>, k: nat)
    requires Inv(f, datastart) && i < |f.sizes| && Written(f, g, i, off, w, |w|) && off <= f.sizes[i]
    requires k < f.sizes[i] || k < off + |w|
    ensures Stored(g, i, k)
    ensures !(off <= k < off + |w|) ==> Stored(f, i, k)
  {
    if !(off <= k < off + |w|) {
      DenseStored(f, datastart, i);
      assert Stored(f, i, k);
    }
  }

  lemma WrittenDense(f: Files, g: Files, datastart: nat, i: nat, off: nat, w: seq<byte>)
    requires Inv(f, datastart) && Owned(g, datastart) && i < |f.sizes|
    requires Written(f, g, i, off, w, |w|) && off <= f.sizes[i] && off + |w| <= MAXFILE * BSIZE
    ensures Inv(Resized(g, i, off + |w|), datastart)
  {
    var h := Resized(g, i, off + |w|);
    forall j, bn {:trigger DataSlot(j, bn)} | 0 <= j < |h.sizes| && 0 <= bn && bn * BSIZE < h.sizes[j]
      ensures DataSlot(j, bn) in h.refs
    {
      if j != i {
        assert Kept(f, g, j);
        assert DataSlot(j, bn) in f.refs;
      } else {
        assert bn * BSIZE / BSIZE == bn;
        WrittenStored(f, g, datastart, i, off, w, bn * BSIZE);
      }
    }
  }

  /** A completed write is a splice of file i, keeps the invariant and touches no other file. */
  lemma FinishWrite(f: Files, g: Files, datastart: nat, i: nat, off: nat, w: seq<byte>)
    requires Inv(f, datastart) && Owned(g, datastart) && i < |f.sizes|
    requires Written(f, g, i, off, w, |w|) && off <= f.sizes[i] && off + |w| <= MAXFILE * BSIZE
    ensures var h := Resized(g, i, off + |w|);
            && Inv(h, datastart)
            && Content(h, datastart, i) == Splice(Content(f, datastart, i), off, w)
            && forall j :: 0 <= j < |f.sizes| && j != i ==> Content(h, datastart, j) == Content(f, datastart, j)
  {
    var h := Resized(g, i, off + |w|);
    WrittenDense(f, g, datastart, i, off, w);
    forall j | 0 <= j < |f.sizes| && j != i
      ensures Content(h, datastart, j) == Content(f, datastart, j)
    {
      assert Kept(f, g, j);
      KeptContent(f, h, datastart, j);
    }
    WrittenContent(f, g, h, datastart, i, off, w);
  }

  lemma WrittenContent(f: Files, g: Files, h: Files, datastart: nat, i: nat, off: nat, w: seq<byte>)
    requires Inv(f, datastart) && Inv(h, datastart) && i < |f.sizes| == |g.sizes| && off <= f.sizes[i]
    requires Written(f, g, i, off, w, |w|) && h == Resized(g, i, off + |w|)
    ensures Content(h, datastart, i) == Splice(Content(f, datastart, i), off, w)
  {
    var before, after := Content(f, datastart, i), Content(h, datastart, i);
    forall k | 0 <= k < |after|
      ensures after[k] == Splice(before, off, w)[k]
    {
      WrittenStored(f, g, datastart, i, off, w, k);
      assert Stored(h, i, k) && after[k] == Byte(h, i, k) == Byte(g, i, k);
      if off <= k < off + |w| {
        assert Byte(g, i, k) == w[k - off];
      } else {
        assert before[k] == Byte(f, i, k);
      }
    }
  }

  // ---- truncating a file ----

  /** The blocks inode i refers to. */
  ghost function BlocksOf(f: Files, i: nat): set<nat> {
    set x | x in f.refs && x.ino == i :: f.refs[x]
  }

  ghost function Truncated(f: Files, i: nat): Files
    requires i < |f.sizes|
  {
    Files(map x | x in f.refs && x.ino != i :: f.refs[x], f.sizes[i := 0], f.used - BlocksOf(f, i), f.blocks)
  }

  /** Truncation frees exactly the blocks of inode i and leaves all other files alone. */
  lemma TruncateKeeps(f: Files, datastart: nat, i: nat)
    requires Inv(f, datastart) && i < |f.sizes|
    ensures Inv(Truncated(f, i), datastart)
    ensures Content(Truncated(f, i), datastart, i) == []
    ensures forall j :: 0 <= j < |f.sizes| && j != i ==>
              Content(Truncated(f, i), datastart, j) == Content(f, datastart, j)
    ensures BlocksOf(f, i) <= f.used
  {
    var h := Truncated(f, i);
    forall x | x in h.refs
      ensures h.refs[x] in h.used
    {
      assert forall y :: y in f.refs && y.ino == i ==> f.refs[y] != f.refs[x];
    }
    forall b | 0 <= b < datastart
      ensures b in h.used
    {
      assert forall y :: y in f.refs && y.ino == i ==> f.refs[y] != b;
    }
    forall j | 0 <= j < |f.sizes| && j != i
      ensures Inv(h, datastart) && Content(h, datastart, j) == Content(f, datastart, j)
    {
      assert Kept(f, h, j);
      KeptContent(f, h, datastart, j);
    }
  }

  /** The order in which truncation visits the slots of an inode: direct blocks, entries of the
  indirect block, and the indirect block last. */
  function Rank(pos: nat): nat {
    if pos < NDIRECT then pos else if pos == NDIRECT then MAXFILE else pos - 1
  }

  function SlotAt(i: nat, k: nat): (x: Slot)
    requires k <= MAXFILE
    ensures Rank(x.pos) == k && x.ino == i
  {
    if k < NDIRECT then Slot(i, k) else if k == MAXFILE then IndirectSlot(i) else Slot(i, k + 1)
  }

  /** The blocks of inode i that truncation has freed after k slots. */
  ghost function FreedUpTo(f: Files, i: nat, k: nat): set<nat> {
    set x | x in f.refs && x.ino == i && Rank(x.pos) < k :: f.refs[x]
  }

  ghost predicate PositionsOk(f: Files) {
    forall x {:trigger x in f.refs} :: x in f.refs ==> x.pos <= MAXFILE
  }

  /** The next block to be freed is still allocated, so freeing it cannot panic. */
  lemma FreeNext(f: Files, datastart: nat, i: nat, k: nat)
    requires Owned(f, datastart) && k <= MAXFILE && PositionsOk(f)
    ensures var x := SlotAt(i, k);
            && (x in f.refs ==> f.refs[x] in f.used - FreedUpTo(f, i, k))
            && FreedUpTo(f, i, k + 1) == FreedUpTo(f, i, k) + if x in f.refs then {f.refs[x]} else {}
  {
    var x := SlotAt(i, k);
    assert x in f.refs ==> forall y :: y in f.refs && y.ino == i && Rank(y.pos) < k ==> f.refs[y] != f.refs[x];
    forall b | b in FreedUpTo(f, i, k + 1)
      ensures b in FreedUpTo(f, i, k) || (x in f.refs && b == f.refs[x])
    {
      var y :| y in f.refs && y.ino == i && Rank(y.pos) < k + 1 && f.refs[y] == b;
      if Rank(y.pos) == k {
        assert y == x;
      }
    }
  }

  lemma FreedAll(f: Files, i: nat)
    requires PositionsOk(f)
    ensures FreedUpTo(f, i, MAXFILE + 1) == BlocksOf(f, i) && FreedUpTo(f, i, 0) == {}
    ensures (forall x {:trigger x in f.refs} :: x in f.refs && x.ino == i ==> x.pos < NDIRECT) ==>
              FreedUpTo(f, i, NDIRECT) == BlocksOf(f, i)
  {}

  /** A truncated file system whose metadata blocks have changed on the way. */
  lemma TruncateResult(f: Files, datastart: nat, i: nat, blocks: Disk)
    requires Inv(f, datastart) && i < |f.sizes| && |blocks| == |f.blocks|
    requires forall c :: datastart <= c < |blocks| ==> blocks[c] == f.blocks[c]
    ensures var h := Truncated(f, i);
            var g := Files(h.refs, h.sizes, h.used, blocks);
            && Inv(g, datastart) && Content(g, datastart, i) == []
            && forall j :: 0 <= j < |f.sizes| && j != i ==> Content(g, datastart, j) == Content(f, datastart, j)
  {
    var h := Truncated(f, i);
    var g := Files(h.refs, h.sizes, h.used, blocks);
    TruncateKeeps(f, datastart, i);
    forall j | 0 <= j < |f.sizes|
      ensures Inv(g, datastart) && Content(g, datastart, j) == Content(h, datastart, j)
    {
      assert Kept(h, g, j);
      KeptContent(h, g, datastart, j);
    }
  }
}