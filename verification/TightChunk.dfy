/** The log budget of a transaction is used up: a file system, and one chunk of a filewrite to it that logs exactly
MAXOPBLOCKS blocks. */
module TightChunk {
  import opened Blocks
  import opened Bitmap
  import opened FileModel
  import opened FileSystem
  import opened FileIo

  const SIZE := 5 * BPB
  const SUPER := Super(32, 58, 100)
  const START := NDIRECT * BSIZE - 256       // in the last direct block

  /** The four free blocks of the disk, each with its bit in a bitmap block of its own. */
  predicate IsFree(b: nat) {
    b == BPB || b == 2 * BPB || b == 3 * BPB || b == 4 * BPB
  }

  function Addrs(): seq<nat> {
    seq(NDIRECT + 1, (s: nat) => if s < NDIRECT then SUPER.datastart + s else 0)
  }

  /** The direct blocks of the one file. */
  ghost function Links(): map<Slot, nat> {
    map x: Slot | x in (set s: nat | s < NDIRECT :: Slot(0, s)) :: SUPER.datastart + x.pos
  }

  /** A file of a little less than all its direct blocks, on a disk where all but four blocks are taken. */
  ghost predicate NearlyFull(f: Files) {
    && |f.blocks| == SIZE && f.sizes == [START] && f.refs == Links()
    && (forall b {:trigger b in f.used} :: b in f.used <==> 0 <= b < SIZE && !IsFree(b))
    && forall b {:trigger f.blocks[b]} :: SUPER.datastart <= b < SIZE ==> f.blocks[b] == ZeroBlock()
  }

  lemma LinksDecode(inodes: seq<Inode>, blocks: Disk)
    requires inodes == [Inode(START, Addrs())]
    ensures Decodes(inodes, blocks, Links())
  {
    forall x
      ensures x in Links() <==> AddrOf(inodes, blocks, x) != 0
      ensures x in Links() ==> Links()[x] == AddrOf(inodes, blocks, x)
    {}
  }

  lemma NearlyFullInv(f: Files)
    requires NearlyFull(f)
    ensures Inv(f, SUPER.datastart)
  {}

  method MakeNearlyFull() returns (fs: Fs)
    ensures fresh(fs) && fs.Valid() && fs.sb == SUPER && NearlyFull(fs.Abs()) && |fs.inodes| == 1
  {
    var blocks;
    ghost var used;
    blocks, used := FormatBits(SUPER, SIZE, (b: nat) => !IsFree(b));
    var inodes := [Inode(START, Addrs())];
    fs := new Fs(SUPER, blocks, inodes, Links(), used);
    LinksDecode(inodes, blocks);
    assert Sizes(inodes) == [START];
    NearlyFullInv(fs.Abs());
  }

  lemma {:induction false} BoundedSize(s: set<nat>, n: nat)
    requires forall b :: b in s ==> b < n
    ensures |s| <= n
  {
    if n == 0 {
      assert s == {};
    } else {
      BoundedSize(s - {n - 1}, n - 1);
    }
  }

  lemma FourFree(f: Files)
    requires NearlyFull(f)
    ensures |f.used| + 4 <= |f.blocks|
  {
    var free := {BPB, 2 * BPB, 3 * BPB, 4 * BPB};
    assert |free| == 4 && f.used !! free;
    BoundedSize(f.used + free, SIZE);
  }

  /** What a write of a chunk of ones to the end of the file makes of f. */
  ghost predicate Extended(f: Files, g: Files, logged: set<nat>) {
    && Allocates(f, g, 0) && Inv(g, SUPER.datastart) && g.sizes == [START + MAXCHUNK]
    && BitsOk(SUPER, f.blocks, f.used) && BitsOk(SUPER, g.blocks, g.used)
    && Covered(f.blocks, {}, g.blocks, logged)
    && forall k {:trigger Stored(g, 0, k)} :: START <= k < START + MAXCHUNK ==> Stored(g, 0, k) && Byte(g, 0, k) == 1
  }

  /** A block that has been allocated has its bitmap block logged. */
  lemma MarkLogged(f: Files, g: Files, logged: set<nat>, b: nat)
    requires NearlyFull(f) == true && Extended(f, g, logged) == true && b in g.used && b !in f.used
    ensures IsFree(b) && BBlock(SUPER.bmapstart, b) in logged
  {
    assert Marked(g.blocks, SUPER.bmapstart, b) && !Marked(f.blocks, SUPER.bmapstart, b);
  }

  /** So has a block that is written to. */
  lemma DataLogged(f: Files, g: Files, logged: set<nat>, k: nat)
    requires NearlyFull(f) == true && Extended(f, g, logged) == true && START <= k < START + MAXCHUNK
    ensures DataSlot(0, k / BSIZE) in g.refs && g.refs[DataSlot(0, k / BSIZE)] in logged
  {
    assert Stored(g, 0, k);
    var b := g.refs[DataSlot(0, k / BSIZE)];
    assert g.blocks[b][k % BSIZE] == 1 && f.blocks[b] == ZeroBlock();
  }

  lemma IndirectLogged(f: Files, g: Files, logged: set<nat>, inodes: seq<Inode>)
    requires NearlyFull(f) == true && Extended(f, g, logged) == true && Decodes(inodes, g.blocks, g.refs) == true
    ensures IndirectSlot(0) in g.refs && g.refs[IndirectSlot(0)] in logged
  {
    var x := DataSlot(0, NDIRECT);
    assert Stored(g, 0, NDIRECT * BSIZE);
    assert AddrOf(inodes, g.blocks, x) != 0;
    var b := inodes[0].addrs[NDIRECT];
    assert AddrOf(inodes, g.blocks, IndirectSlot(0)) == b;
    assert Word(g.blocks[b], 0) != 0;
    WordOfZero(0);
    assert f.blocks[b] == ZeroBlock();
  }

  /** Block b was free, and both the block and its bitmap block are logged. */
  ghost predicate Taken(logged: set<nat>, b: nat) {
    IsFree(b) && b in logged && BBlock(SUPER.bmapstart, b) in logged
  }

  /** The slots linked by the write refer to free blocks. */
  lemma NewTaken(f: Files, g: Files, logged: set<nat>, x: Slot)
    requires NearlyFull(f) == true && Extended(f, g, logged) == true && x in g.refs && x.pos >= NDIRECT
    requires g.refs[x] in logged
    ensures Taken(logged, g.refs[x])
  {
    assert x !in f.refs;
    MarkLogged(f, g, logged, g.refs[x]);
  }

  lemma DataTaken(f: Files, g: Files, logged: set<nat>, bn: nat)
    requires NearlyFull(f) == true && Extended(f, g, logged) == true && 12 <= bn <= 14
    ensures DataSlot(0, bn) in g.refs && Taken(logged, g.refs[DataSlot(0, bn)]) == true
  {
    DataLogged(f, g, logged, bn * BSIZE);
    NewTaken(f, g, logged, DataSlot(0, bn));
  }

  lemma IndirectTaken(f: Files, g: Files, logged: set<nat>, inodes: seq<Inode>)
    requires NearlyFull(f) == true && Extended(f, g, logged) == true && Decodes(inodes, g.blocks, g.refs) == true
    ensures IndirectSlot(0) in g.refs && Taken(logged, g.refs[IndirectSlot(0)]) == true
  {
    IndirectLogged(f, g, logged, inodes);
    NewTaken(f, g, logged, IndirectSlot(0));
  }

  /** Four different free blocks are all of them. */
  lemma AllFour(a: nat, b: nat, c: nat, d: nat, x: nat)
    requires IsFree(a) && IsFree(b) && IsFree(c) && IsFree(d) && IsFree(x)
    requires a != b && a != c && a != d && b != c && b != d && c != d
    ensures x == a || x == b || x == c || x == d
  {}

  lemma Apart(g: Files, a: Slot, b: Slot, c: Slot, d: Slot)
    requires Owned(g, SUPER.datastart) && a in g.refs && b in g.refs && c in g.refs && d in g.refs
    requires a != b && a != c && a != d && b != c && b != d && c != d
    ensures var r := g.refs;
            r[a] != r[b] && r[a] != r[c] && r[a] != r[d] && r[b] != r[c] && r[b] != r[d] && r[c] != r[d]
  {}

  lemma FreeLogged(f: Files, g: Files, logged: set<nat>, inodes: seq<Inode>, x: nat)
    requires NearlyFull(f) == true && Extended(f, g, logged) == true && Decodes(inodes, g.blocks, g.refs) == true
    requires IsFree(x)
    ensures Taken(logged, x) == true
  {
    var a, b, c, d := DataSlot(0, 12), DataSlot(0, 13), DataSlot(0, 14), IndirectSlot(0);
    DataTaken(f, g, logged, 12);
    DataTaken(f, g, logged, 13);
    DataTaken(f, g, logged, 14);
    IndirectTaken(f, g, logged, inodes);
    Apart(g, a, b, c, d);
    AllFour(g.refs[a], g.refs[b], g.refs[c], g.refs[d], x);
  }

  lemma TenLogged(f: Files, g: Files, logged: set<nat>, inodes: seq<Inode>)
    requires NearlyFull(f) == true && Extended(f, g, logged) == true && Decodes(inodes, g.blocks, g.refs) == true
    requires IBlock(SUPER, 0) in logged
    ensures |logged| >= 10
  {
    FreeLogged(f, g, logged, inodes, BPB);
    FreeLogged(f, g, logged, inodes, 2 * BPB);
    FreeLogged(f, g, logged, inodes, 3 * BPB);
    FreeLogged(f, g, logged, inodes, 4 * BPB);
    DataLogged(f, g, logged, START);
    assert DataSlot(0, 11) in f.refs;
    assert BBlock(SUPER.bmapstart, BPB) == 59 && BBlock(SUPER.bmapstart, 2 * BPB) == 60;
    assert BBlock(SUPER.bmapstart, 3 * BPB) == 61 && BBlock(SUPER.bmapstart, 4 * BPB) == 62;
    TenDistinct(logged, g.refs[DataSlot(0, 11)]);
  }

  lemma TenDistinct(logged: set<nat>, z: nat)
    requires {32, z} <= logged && {59, 60, 61, 62} <= logged && SUPER.datastart <= z < BPB
    requires {BPB, 2 * BPB, 3 * BPB, 4 * BPB} <= logged
    ensures |logged| >= 10
  {
    var s, t, u := {32, z}, {BPB, 2 * BPB, 3 * BPB, 4 * BPB}, {59, 60, 61, 62};
    assert |s| == 2 && |t| == 4 && |u| == 4 && s !! t && s !! u && t !! u;
    Within(s + t + u, logged);
  }

  lemma {:induction false} Within(s: set<nat>, t: set<nat>)
    requires s <= t
    ensures |s| <= |t|
    decreases |s|
  {
    if s != {} {
      var x :| x in s;
      Within(s - {x}, t - {x});
    }
  }

  lemma OnesWritten(f: Files, g: Files, chunk: seq<byte>)
    requires NearlyFull(f) == true && Inv(f, SUPER.datastart) && Inv(g, SUPER.datastart) && |g.sizes| == 1
    requires |chunk| == MAXCHUNK && forall k :: 0 <= k < |chunk| ==> chunk[k] == 1
    requires Content(g, SUPER.datastart, 0) == Splice(Content(f, SUPER.datastart, 0), START, chunk)
    ensures g.sizes == [START + MAXCHUNK]
    ensures forall k {:trigger Stored(g, 0, k)} :: START <= k < START + MAXCHUNK ==>
              Stored(g, 0, k) && Byte(g, 0, k) == 1
  {
    var s := Content(g, SUPER.datastart, 0);
    forall k | START <= k < START + MAXCHUNK
      ensures Stored(g, 0, k) && Byte(g, 0, k) == 1
    {
      assert s[k] == chunk[k - START];
    }
  }

  /** On such a file system, a transaction of filewrite that writes a chunk of ones to the end of the file succeeds, and
  logs as many blocks as it may. */
  method LogsTen(fs: Fs, file: File) returns (r: Outcome)
    requires fs.Valid() && fs.sb == SUPER && |fs.inodes| == 1 && NearlyFull(fs.Abs())
    requires file.ino == 0 && file.off == START
    modifies fs, file`off
    ensures r == Done(MAXCHUNK) && file.off == START + MAXCHUNK && fs.Valid() && |fs.inodes| == 1
    ensures fs.File(0) == old(fs.File(0)) + seq(MAXCHUNK, _ => 1)
    ensures |fs.logged| == MAXOPBLOCKS && Covered(old(fs.blocks), {}, fs.blocks, fs.logged)
  {
    var chunk := seq(MAXCHUNK, _ => 1);
    ghost var file0 := fs.File(0);
    assert Splice(file0, |file0|, chunk) == file0 + chunk;
    ghost var f := fs.Abs();
    FourFree(f);
    r := file.WriteChunk(fs, chunk);
    assert Fresh(START, MAXCHUNK) == 3;
    ghost var g := fs.Abs();
    OnesWritten(f, g, chunk);
    TenLogged(f, g, fs.logged, fs.inodes);
  }
}
