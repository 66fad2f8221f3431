/** The file system as it lies on disk: the blocks from the bitmap on are those of FileSystem, and the blocks in front
of it hold the inodes, eight to a block, each with its size and its block addresses. */
module InodeTable {
  import opened Blocks
  import opened FileModel
  import opened FileSystem

  const DINODE := 16                          // words of a dinode
  const SIZE := 2                             // behind type, major, minor and nlink
  const ADDRS := 3

  /** The k-th dinode of block v is x. */
  ghost predicate HoldsInode(v: Block, k: nat, x: Inode)
    requires k < IPB
  {
    && |x.addrs| == NDIRECT + 1 && Word(v, k * DINODE + SIZE) == x.size
    && forall s {:trigger x.addrs[s]} :: 0 <= s <= NDIRECT ==> Word(v, k * DINODE + ADDRS + s) == x.addrs[s]
  }

  /** memmove of the first n addresses. */
  function PutAddrs(v: Block, k: nat, addrs: seq<nat>, n: nat): Block
    requires k < IPB && n <= |addrs| == NDIRECT + 1 && forall s :: 0 <= s < |addrs| ==> addrs[s] < WORD_LIMIT
  {
    if n == 0 then v else SetWord(PutAddrs(v, k, addrs, n - 1), k * DINODE + ADDRS + n - 1, addrs[n - 1])
  }

  ghost predicate Writable(x: Inode) {
    x.size < WORD_LIMIT && |x.addrs| == NDIRECT + 1 && forall s :: 0 <= s < |x.addrs| ==> x.addrs[s] < WORD_LIMIT
  }

  /** iupdate: size and addresses; the other fields do not change. */
  ghost function PutInode(v: Block, k: nat, x: Inode): Block
    requires k < IPB && Writable(x)
  {
    PutAddrs(SetWord(v, k * DINODE + SIZE, x.size), k, x.addrs, NDIRECT + 1)
  }

  lemma {:induction false} AddrWord(v: Block, k: nat, addrs: seq<nat>, n: nat, j: nat)
    requires k < IPB && n <= |addrs| == NDIRECT + 1 && (forall s :: 0 <= s < |addrs| ==> addrs[s] < WORD_LIMIT)
    requires j < WORDS
    ensures var s := j - k * DINODE - ADDRS;
            Word(PutAddrs(v, k, addrs, n), j) == if 0 <= s < n then addrs[s] else Word(v, j)
  {
    if n > 0 {
      AddrWord(v, k, addrs, n - 1, j);
      WordOfSetWord(PutAddrs(v, k, addrs, n - 1), k * DINODE + ADDRS + n - 1, addrs[n - 1], j);
    }
  }

  lemma InodeWord(v: Block, k: nat, x: Inode, j: nat)
    requires k < IPB && Writable(x) && j < WORDS
    ensures var s := j - k * DINODE;
            Word(PutInode(v, k, x), j) ==
            if s == SIZE then x.size else if ADDRS <= s < DINODE then x.addrs[s - ADDRS] else Word(v, j)
  {
    AddrWord(SetWord(v, k * DINODE + SIZE, x.size), k, x.addrs, NDIRECT + 1, j);
    WordOfSetWord(v, k * DINODE + SIZE, x.size, j);
  }

  /** What iupdate writes reads back, and the other inodes of the block stay. */
  lemma PutInodeHolds(v: Block, k: nat, x: Inode)
    requires k < IPB && Writable(x)
    ensures HoldsInode(PutInode(v, k, x), k, x)
  {
    InodeWord(v, k, x, k * DINODE + SIZE);
    forall s | 0 <= s <= NDIRECT
      ensures Word(PutInode(v, k, x), k * DINODE + ADDRS + s) == x.addrs[s]
    {
      InodeWord(v, k, x, k * DINODE + ADDRS + s);
    }
  }

  lemma PutInodeKeeps(v: Block, k: nat, x: Inode, l: nat, y: Inode)
    requires k < IPB && l < IPB && k != l && Writable(x) && HoldsInode(v, l, y)
    ensures HoldsInode(PutInode(v, k, x), l, y)
  {
    InodeWord(v, k, x, l * DINODE + SIZE);
    forall s | 0 <= s <= NDIRECT
      ensures Word(PutInode(v, k, x), l * DINODE + ADDRS + s) == y.addrs[s]
    {
      InodeWord(v, k, x, l * DINODE + ADDRS + s);
    }
  }

  // ---- a file system on disk ----

  /** The state of an Fs, as a value. */
  datatype FsVal = FsVal(blocks: Disk, inodes: seq<Inode>, refs: map<Slot, nat>, used: set<nat>)

  ghost function FilesOf(v: FsVal): Files {
    Files(v.refs, Sizes(v.inodes), v.used, v.blocks)
  }

  ghost predicate ValidFs(sb: Super, v: FsVal) {
    && Layout(sb, |v.inodes|, |v.blocks|) && BitsOk(sb, v.blocks, v.used)
    && Decodes(v.inodes, v.blocks, v.refs) && Inv(FilesOf(v), sb.datastart)
  }

  ghost function FileOf(sb: Super, v: FsVal, i: nat): seq<byte>
    requires ValidFs(sb, v) && i < |v.inodes|
  {
    Content(FilesOf(v), sb.datastart, i)
  }

  /** Disk d holds v. */
  ghost predicate Holds(sb: Super, d: Disk, v: FsVal) {
    && Layout(sb, |v.inodes|, |v.blocks|) && |d| == |v.blocks|
    && (forall b {:trigger d[b]} :: sb.bmapstart <= b < |d| ==> d[b] == v.blocks[b])
    && forall i {:trigger v.inodes[i]} :: 0 <= i < |v.inodes| ==> HoldsAt(sb, d, i, v.inodes[i])
  }

  ghost predicate HoldsAt(sb: Super, d: Disk, i: nat, x: Inode) {
    IBlock(sb, i) < |d| && HoldsInode(d[IBlock(sb, i)], i % IPB, x)
  }

  /** The disk says what is in the files: two file systems on the same disk have the same files. */
  lemma HoldsOne(sb: Super, d: Disk, v: FsVal, w: FsVal, i: nat)
    requires ValidFs(sb, v) && ValidFs(sb, w) && Holds(sb, d, v) && Holds(sb, d, w) && |v.inodes| == |w.inodes|
    requires i < |v.inodes|
    ensures v.inodes == w.inodes && FileOf(sb, v, i) == FileOf(sb, w, i)
  {
    forall j | 0 <= j < |v.inodes|
      ensures v.inodes[j] == w.inodes[j]
    {
      SameInode(d[IBlock(sb, j)], j % IPB, v.inodes[j], w.inodes[j]);
    }
    SameFiles(sb, d, v, w, i);
  }

  lemma RefIsData(sb: Super, v: FsVal, x: Slot)
    requires ValidFs(sb, v) == true && x in v.refs
    ensures sb.bmapstart <= v.refs[x] < |v.blocks|
  {
    assert FilesOf(v).refs[x] == v.refs[x];
  }

  lemma RefIsAddr(sb: Super, v: FsVal, x: Slot)
    requires ValidFs(sb, v) == true && x in v.refs
    ensures v.refs[x] == AddrOf(v.inodes, v.blocks, x)
  {}

  /** Referenced blocks are data blocks, and those the disk holds. */
  lemma HeldRef(sb: Super, d: Disk, v: FsVal, x: Slot)
    requires ValidFs(sb, v) == true && Holds(sb, d, v) == true && x in v.refs
    ensures v.refs[x] == AddrOf(v.inodes, v.blocks, x) && v.refs[x] < |d| == |v.blocks|
    ensures v.blocks[v.refs[x]] == d[v.refs[x]]
  {
    RefIsData(sb, v, x);
    RefIsAddr(sb, v, x);
  }

  lemma HeldIndirect(sb: Super, d: Disk, v: FsVal, i: nat)
    requires ValidFs(sb, v) == true && Holds(sb, d, v) == true && i < |v.inodes|
    ensures |d| == |v.blocks| && |v.inodes[i].addrs| == NDIRECT + 1
    ensures var b := v.inodes[i].addrs[NDIRECT]; 0 < b < |d| ==> v.blocks[b] == d[b]
  {
    var x := IndirectSlot(i);
    assert AddrOf(v.inodes, v.blocks, x) == v.inodes[i].addrs[NDIRECT];
    if x in v.refs {
      HeldRef(sb, d, v, x);
    }
  }

  lemma SameAddr(sb: Super, d: Disk, v: FsVal, w: FsVal, x: Slot)
    requires ValidFs(sb, v) == true && ValidFs(sb, w) == true && Holds(sb, d, v) == true && Holds(sb, d, w) == true
    requires v.inodes == w.inodes
    ensures AddrOf(v.inodes, v.blocks, x) == AddrOf(w.inodes, w.blocks, x)
  {
    if x.ino < |v.inodes| {
      HeldIndirect(sb, d, v, x.ino);
      HeldIndirect(sb, d, w, x.ino);
    }
  }

  lemma SameByte(sb: Super, d: Disk, v: FsVal, w: FsVal, i: nat, k: nat)
    requires ValidFs(sb, v) == true && ValidFs(sb, w) == true && Holds(sb, d, v) == true && Holds(sb, d, w) == true
    requires v.inodes == w.inodes && Stored(FilesOf(v), i, k) && Stored(FilesOf(w), i, k)
    ensures Byte(FilesOf(v), i, k) == Byte(FilesOf(w), i, k)
  {
    var x := DataSlot(i, k / BSIZE);
    SameAddr(sb, d, v, w, x);
    HeldRef(sb, d, v, x);
    HeldRef(sb, d, w, x);
  }

  lemma SameFiles(sb: Super, d: Disk, v: FsVal, w: FsVal, i: nat)
    requires ValidFs(sb, v) == true && ValidFs(sb, w) == true && Holds(sb, d, v) == true && Holds(sb, d, w) == true
    requires v.inodes == w.inodes && i < |v.inodes|
    ensures FileOf(sb, v, i) == FileOf(sb, w, i)
  {
    var a, b := FileOf(sb, v, i), FileOf(sb, w, i);
    forall k | 0 <= k < |a|
      ensures a[k] == b[k]
    {
      SameByte(sb, d, v, w, i, k);
    }
  }

  lemma SameInode(v: Block, k: nat, x: Inode, y: Inode)
    requires k < IPB && HoldsInode(v, k, x) && HoldsInode(v, k, y)
    ensures x == y
  {
    assert x.addrs == y.addrs;
  }

  // ---- transactions ----

  /** v becomes w by a transaction on inode i, which logs the given blocks, among them all that change. */
  ghost predicate Trans(sb: Super, v: FsVal, w: FsVal, i: nat, logged: set<nat>) {
    && ValidFs(sb, v) && ValidFs(sb, w) && i < |v.inodes| == |w.inodes|
    && Covered(v.blocks, {}, w.blocks, logged) && |logged| <= MAXOPBLOCKS
    && (forall j {:trigger w.inodes[j]} :: 0 <= j < |v.inodes| && j != i ==> w.inodes[j] == v.inodes[j])
    && (w.inodes[i] != v.inodes[i] ==> IBlock(sb, i) in logged)
  }

  lemma ValidWritable(sb: Super, v: FsVal, i: nat)
    requires ValidFs(sb, v) && i < |v.inodes|
    ensures Writable(v.inodes[i])
  {
    assert FilesOf(v).sizes[i] == v.inodes[i].size;
    forall s | 0 <= s <= NDIRECT
      ensures v.inodes[i].addrs[s] < WORD_LIMIT
    {
      assert AddrOf(v.inodes, v.blocks, Slot(i, s)) == v.inodes[i].addrs[s];
    }
  }

  /** What the transaction makes of disk d: the blocks it logs, with their new contents. */
  ghost function Target(sb: Super, d: Disk, w: FsVal, i: nat, logged: set<nat>): (t: Disk)
    requires |d| == |w.blocks| && i < |w.inodes| && Writable(w.inodes[i])
    ensures |t| == |d|
  {
    seq(|d|, b requires 0 <= b < |d| =>
      if b !in logged then d[b]
      else if b >= sb.bmapstart then w.blocks[b]
      else if b == IBlock(sb, i) then PutInode(d[b], i % IPB, w.inodes[i])
      else d[b])
  }

  lemma InodeBlock(sb: Super, n: nat, nblocks: nat, j: nat)
    requires Layout(sb, n, nblocks) && j < n
    ensures IBlock(sb, j) < sb.bmapstart < nblocks
  {
    assert j / IPB <= (n - 1) / IPB;
  }

  lemma InodePosition(i: nat, j: nat)
    requires i / IPB == j / IPB && i != j
    ensures i % IPB != j % IPB
  {}

  /** The block of inode i after iupdate holds every inode of it as it should. */
  lemma InodeBlockLands(sb: Super, v: Block, i: nat, x: Inode, j: nat, y: Inode)
    requires Writable(x) && IBlock(sb, j) == IBlock(sb, i) && (if j == i then y == x else HoldsInode(v, j % IPB, y))
    ensures HoldsInode(PutInode(v, i % IPB, x), j % IPB, y)
  {
    if j == i {
      PutInodeHolds(v, i % IPB, x);
    } else {
      InodePosition(i, j);
      PutInodeKeeps(v, i % IPB, x, j % IPB, y);
    }
  }

  lemma InodeLands(sb: Super, d: Disk, v: FsVal, w: FsVal, i: nat, logged: set<nat>, j: nat)
    requires Trans(sb, v, w, i, logged) && Holds(sb, d, v) && Writable(w.inodes[i]) && j < |w.inodes|
    ensures HoldsAt(sb, Target(sb, d, w, i, logged), j, w.inodes[j])
  {
    InodeBlock(sb, |w.inodes|, |d|, j);
    assert HoldsAt(sb, d, j, v.inodes[j]);
    if IBlock(sb, j) == IBlock(sb, i) && IBlock(sb, i) in logged {
      InodeBlockLands(sb, d[IBlock(sb, i)], i, w.inodes[i], j, w.inodes[j]);
    }
  }

  /** Writing the blocks that are logged, and no others, takes the disk from one file system to the other. */
  lemma Lands(sb: Super, d: Disk, v: FsVal, w: FsVal, i: nat, logged: set<nat>)
    requires Trans(sb, v, w, i, logged) && Holds(sb, d, v)
    ensures Writable(w.inodes[i]) && |d| == |w.blocks| && Holds(sb, Target(sb, d, w, i, logged), w)
  {
    ValidWritable(sb, w, i);
    forall j {:trigger w.inodes[j]} | 0 <= j < |w.inodes|
      ensures HoldsAt(sb, Target(sb, d, w, i, logged), j, w.inodes[j])
    {
      InodeLands(sb, d, v, w, i, logged, j);
    }
  }

  // ---- every file system fits on a disk ----

  /** The blocks with the first n inodes written to their places. */
  ghost function LaidOut(sb: Super, v: FsVal, n: nat): (d: Disk)
    requires ValidFs(sb, v) == true && n <= |v.inodes|
    ensures |d| == |v.blocks|
  {
    if n == 0 then v.blocks
    else
      var d, b := LaidOut(sb, v, n - 1), IBlock(sb, n - 1);
      InodeBlock(sb, |v.inodes|, |v.blocks|, n - 1);
      ValidWritable(sb, v, n - 1);
      d[b := PutInode(d[b], (n - 1) % IPB, v.inodes[n - 1])]
  }

  lemma {:induction false} LaidOutside(sb: Super, v: FsVal, n: nat, b: nat)
    requires ValidFs(sb, v) == true && n <= |v.inodes| && b < |v.blocks| && (b < sb.inodestart || sb.bmapstart <= b)
    ensures LaidOut(sb, v, n)[b] == v.blocks[b]
  {
    if n > 0 {
      LaidOutside(sb, v, n - 1, b);
      InodeBlock(sb, |v.inodes|, |v.blocks|, n - 1);
      assert b != IBlock(sb, n - 1);
    }
  }

  lemma {:induction false} LaidInode(sb: Super, v: FsVal, n: nat, j: nat)
    requires ValidFs(sb, v) == true && j < n <= |v.inodes|
    ensures HoldsAt(sb, LaidOut(sb, v, n), j, v.inodes[j])
  {
    var d, i := LaidOut(sb, v, n - 1), n - 1;
    InodeBlock(sb, |v.inodes|, |v.blocks|, j);
    ValidWritable(sb, v, i);
    if j < i {
      LaidInode(sb, v, i, j);
    }
    if IBlock(sb, j) == IBlock(sb, i) {
      InodeBlockLands(sb, d[IBlock(sb, i)], i, v.inodes[i], j, v.inodes[j]);
    }
  }

  /** Every valid file system has a disk that holds it. */
  lemma LaidHolds(sb: Super, v: FsVal)
    requires ValidFs(sb, v)
    ensures Holds(sb, LaidOut(sb, v, |v.inodes|), v)
  {
    var d := LaidOut(sb, v, |v.inodes|);
    forall b {:trigger d[b]} | sb.bmapstart <= b < |d|
      ensures d[b] == v.blocks[b]
    {
      LaidOutside(sb, v, |v.inodes|, b);
    }
    forall i {:trigger v.inodes[i]} | 0 <= i < |v.inodes|
      ensures HoldsAt(sb, d, i, v.inodes[i])
    {
      LaidInode(sb, v, |v.inodes|, i);
    }
  }
}
