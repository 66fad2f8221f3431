/** The file system on the log: FileSystem as a client of Transactions.

A chunk of a filewrite and a truncation are transactions, and so, however the machine crashes, recovery leaves a valid
file system with the files as they were at the end of one of them. */
module CrashFs {
  import opened Blocks
  import opened RedoLog
  import opened LogProtocol
  import opened Transactions
  import opened FileModel
  import opened FileSystem
  import opened FileIo
  import opened InodeTable

  datatype Op = WriteAt(i: nat, off: nat, src: seq<byte>) | Empty(i: nat)

  ghost function FilesIn(sb: Super, v: FsVal): (c: seq<seq<byte>>)
    requires ValidFs(sb, v)
    ensures |c| == |v.inodes| && forall i :: 0 <= i < |c| ==> c[i] == FileOf(sb, v, i)
  {
    seq(|v.inodes|, i requires 0 <= i < |v.inodes| => FileOf(sb, v, i))
  }

  /** The files after op; an operation that does not fit does nothing. */
  function PlayOp(c: seq<seq<byte>>, op: Op): seq<seq<byte>> {
    if op.i >= |c| then c
    else match op
      case WriteAt(i, off, src) => if off <= |c[i]| then c[i := Splice(c[i], off, src)] else c
      case Empty(i) => c[i := []]
  }

  ghost function FsClient(sb: Super): Client<FsVal, Op, seq<seq<byte>>> {
    Client((d: Disk, v: FsVal) => ValidFs(sb, v) && Holds(sb, d, v),
           (v: FsVal) => if ValidFs(sb, v) then FilesIn(sb, v) else [],
           PlayOp)
  }

  /** The log lies in front of the inodes. */
  ghost predicate LogInFront(g: Geometry, sb: Super) {
    g.start + g.size <= sb.inodestart <= sb.bmapstart
  }

  lemma HoldsHome(g: Geometry, sb: Super, d: Disk, e: Disk, v: FsVal)
    requires LogInFront(g, sb) && SameHome(g, d, e) && Holds(sb, d, v)
    ensures Holds(sb, e, v)
  {
    forall b {:trigger e[b]} | sb.bmapstart <= b < |e|
      ensures e[b] == v.blocks[b]
    {
      assert IsHome(g, b);
    }
    forall i {:trigger v.inodes[i]} | 0 <= i < |v.inodes|
      ensures HoldsAt(sb, e, i, v.inodes[i])
    {
      assert HoldsAt(sb, d, i, v.inodes[i]) && IsHome(g, IBlock(sb, i));
    }
  }

  lemma FsAtHome(g: Geometry, sb: Super)
    requires LogInFront(g, sb)
    ensures AtHome(g, FsClient(sb))
  {
    var c := FsClient(sb);
    forall d, e, v {:trigger SameHome(g, d, e), c.holds(d, v)} | SameHome(g, d, e) && c.holds(d, v)
      ensures c.holds(e, v)
    {
      HoldsHome(g, sb, d, e, v);
    }
  }

  /** However it crashes: recovery leaves a disk that holds a valid file system.  Its files are what the writes and
  truncations that have ended make of the initial files, all of them or all but the last one; and once the commit is
  over, all of them. */
  lemma CrashConsistent(g: Geometry, sb: Super, states: seq<TxState<FsVal, Op>>, moves: seq<Move<FsVal, Op>>, n: nat)
    requires LogInFront(g, sb) && IsTxRun(g, FsClient(sb), states, moves) && n < |states|
    ensures var j := states[n];
            && Recoverable(g, j.s.disk) && ValidFs(sb, j.kept) && Holds(sb, Recover(g, j.s.disk), j.kept)
            && ValidFs(sb, states[0].v)
            && FilesIn(sb, j.kept) == Play(PlayOp, FilesIn(sb, states[0].v), j.safe)
            && (j.safe == j.done || (j.s.phase.Committing? && |j.done| == |j.safe| + 1 && j.safe <= j.done))
  {
    FsAtHome(g, sb);
    CrashAtomic(g, FsClient(sb), states, moves, 0);
    CrashAtomic(g, FsClient(sb), states, moves, n);
  }

  /** A boot from any valid file system with an empty log starts a run. */
  lemma Boots(g: Geometry, sb: Super, v: FsVal)
    requires ValidFs(sb, v) && LogInFront(g, sb) && g.size > 0 && v.blocks[g.start] == ZeroBlock()
    ensures var d := LaidOut(sb, v, |v.inodes|);
            TxInit(g, FsClient(sb), TxState(State(d, d, [], [], Recovering(d, 0)), v, [], v, [], Idle)) == true
  {
    FsAtHome(g, sb);
    LaidHolds(sb, v);
    LaidOutside(sb, v, |v.inodes|, g.start);
    BootStarts(g, FsClient(sb), LaidOut(sb, v, |v.inodes|), v);
  }

  // ---- the transactions of file.c and fs.c ----

  /** v becomes w by a transaction that does op. */
  ghost predicate Does(sb: Super, v: FsVal, w: FsVal, op: Op, logged: set<nat>) {
    Trans(sb, v, w, op.i, logged) && FilesIn(sb, w) == PlayOp(FilesIn(sb, v), op)
  }

  /** A transaction can start whenever the log is idle. */
  lemma CanStart(g: Geometry, sb: Super, j: TxState<FsVal, Op>, w: FsVal, op: Op, logged: set<nat>)
    requires LogInFront(g, sb) && TxInv(g, FsClient(sb), j) == true && j.goal.Idle? && j.s.phase.Running?
    requires Does(sb, j.v, w, op, logged) == true
    ensures Writable(w.inodes[op.i]) && |j.s.view| == |w.blocks|
    ensures var target := Target(sb, j.s.view, w, op.i, logged);
            TxNext(g, FsClient(sb), j, BeginOp(op, w, target, logged),
                   j.(s := j.s.(ops := [{}]), goal := Writing(op, w, target, logged))) == true
  {
    FsAtHome(g, sb);
    RunningHolds(g, FsClient(sb), j);
    DoesLands(g, sb, j.s.view, j.v, w, op, logged);
    CanBegin(g, FsClient(sb), j, op, w, Target(sb, j.s.view, w, op.i, logged), logged);
  }

  /** The blocks that the transaction writes turn a disk with the old files into one with the new files. */
  lemma DoesLands(g: Geometry, sb: Super, d: Disk, v: FsVal, w: FsVal, op: Op, logged: set<nat>)
    requires Does(sb, v, w, op, logged) && Holds(sb, d, v)
    ensures Writable(w.inodes[op.i]) && |d| == |w.blocks| && |logged| <= MAXOPBLOCKS
    ensures var target := Target(sb, d, w, op.i, logged);
            && TargetOutside(g, d, target, logged) && FsClient(sb).holds(target, w)
            && Turns(FsClient(sb), v, op, w)
  {
    Lands(sb, d, v, w, op.i, logged);
  }

  ghost function Val(fs: Fs): FsVal
    reads fs
  {
    FsVal(fs.blocks, fs.inodes, fs.refs, fs.used)
  }

  /** Links in inode i leave the other inodes alone. */
  lemma OthersKept(sb: Super, v: FsVal, w: FsVal, i: nat, j: nat)
    requires ValidFs(sb, v) && ValidFs(sb, w) && |v.inodes| == |w.inodes| && j < |v.inodes| && j != i
    requires Allocates(FilesOf(v), FilesOf(w), i) && v.inodes[j].size == w.inodes[j].size
    ensures v.inodes[j] == w.inodes[j]
  {
    forall s | 0 <= s <= NDIRECT
      ensures v.inodes[j].addrs[s] == w.inodes[j].addrs[s]
    {
      var x := Slot(j, s);
      assert AddrOf(v.inodes, v.blocks, x) == v.inodes[j].addrs[s];
      assert AddrOf(w.inodes, w.blocks, x) == w.inodes[j].addrs[s];
      assert x in v.refs <==> x in w.refs;
    }
  }

  /** What WriteChunk promises. */
  ghost predicate Writes(sb: Super, v: FsVal, w: FsVal, i: nat, off: nat, chunk: seq<byte>, logged: set<nat>) {
    && ValidFs(sb, v) && ValidFs(sb, w) && i < |v.inodes| == |w.inodes| && off <= |FileOf(sb, v, i)|
    && FileOf(sb, w, i) == Splice(FileOf(sb, v, i), off, chunk)
    && (forall j {:trigger FileOf(sb, w, j)} :: 0 <= j < |w.inodes| && j != i ==> FileOf(sb, w, j) == FileOf(sb, v, j))
    && Covered(v.blocks, {}, w.blocks, logged) && |logged| <= MAXOPBLOCKS
    && Allocates(FilesOf(v), FilesOf(w), i) && (w.inodes != v.inodes ==> IBlock(sb, i) in logged)
  }

  lemma WritesTrans(sb: Super, v: FsVal, w: FsVal, i: nat, off: nat, chunk: seq<byte>, logged: set<nat>)
    requires Writes(sb, v, w, i, off, chunk, logged) == true
    ensures Trans(sb, v, w, i, logged) == true
  {
    forall j {:trigger w.inodes[j]} | 0 <= j < |v.inodes| && j != i
      ensures w.inodes[j] == v.inodes[j]
    {
      assert |FileOf(sb, w, j)| == |FileOf(sb, v, j)|;
      OthersKept(sb, v, w, i, j);
    }
  }

  lemma WritesPlay(sb: Super, v: FsVal, w: FsVal, i: nat, off: nat, chunk: seq<byte>, logged: set<nat>)
    requires Writes(sb, v, w, i, off, chunk, logged) == true
    ensures FilesIn(sb, w) == PlayOp(FilesIn(sb, v), WriteAt(i, off, chunk))
  {
    var c := PlayOp(FilesIn(sb, v), WriteAt(i, off, chunk));
    forall j | 0 <= j < |w.inodes|
      ensures FilesIn(sb, w)[j] == c[j]
    {
      assert FilesIn(sb, w)[j] == FileOf(sb, w, j);
    }
  }

  lemma WritesDoes(sb: Super, v: FsVal, w: FsVal, i: nat, off: nat, chunk: seq<byte>, logged: set<nat>)
    requires Writes(sb, v, w, i, off, chunk, logged) == true
    ensures Does(sb, v, w, WriteAt(i, off, chunk), logged) == true
  {
    WritesTrans(sb, v, w, i, off, chunk, logged);
    WritesPlay(sb, v, w, i, off, chunk, logged);
  }

  /** A chunk of a filewrite is a transaction. */
  method WriteTransaction(fs: Fs, file: File, chunk: seq<byte>) returns (r: Outcome)
    requires fs.Valid() && file.ino < |fs.inodes| && file.off < WORD_LIMIT && 0 < |chunk| <= MAXCHUNK
    modifies file`off, fs
    ensures r.Done? ==> Does(fs.sb, old(Val(fs)), Val(fs), WriteAt(file.ino, old(file.off), chunk), fs.logged) == true
  {
    ghost var v, off := Val(fs), file.off;
    r := file.WriteChunk(fs, chunk);
    if r.Done? {
      ghost var w := Val(fs);
      forall j {:trigger FileOf(fs.sb, w, j)} | 0 <= j < |w.inodes| && j != file.ino
        ensures FileOf(fs.sb, w, j) == FileOf(fs.sb, v, j)
      {
        assert fs.File(j) == old(fs.File(j));
      }
      WritesDoes(fs.sb, v, Val(fs), file.ino, off, chunk, fs.logged);
    }
  }

  /** What Itrunc promises. */
  ghost predicate Truncates(sb: Super, v: FsVal, w: FsVal, i: nat, logged: set<nat>) {
    && ValidFs(sb, v) && ValidFs(sb, w) && i < |v.inodes| == |w.inodes| && FileOf(sb, w, i) == []
    && (forall j {:trigger FileOf(sb, w, j)} {:trigger w.inodes[j]} :: 0 <= j < |w.inodes| && j != i ==>
          FileOf(sb, w, j) == FileOf(sb, v, j) && w.inodes[j] == v.inodes[j])
    && Covered(v.blocks, {}, w.blocks, logged)
    && logged == BitmapBlocks(sb.bmapstart, BlocksOf(FilesOf(v), i)) + {IBlock(sb, i)}
  }

  lemma TruncatesPlay(sb: Super, v: FsVal, w: FsVal, i: nat, logged: set<nat>)
    requires Truncates(sb, v, w, i, logged) == true
    ensures FilesIn(sb, w) == PlayOp(FilesIn(sb, v), Empty(i))
  {
    var c := PlayOp(FilesIn(sb, v), Empty(i));
    forall j | 0 <= j < |w.inodes|
      ensures FilesIn(sb, w)[j] == c[j]
    {
      assert FilesIn(sb, w)[j] == FileOf(sb, w, j);
    }
  }

  lemma BitmapBehind(start: nat, bs: set<nat>, b: nat)
    requires b < start
    ensures |BitmapBlocks(start, bs) + {b}| == |BitmapBlocks(start, bs)| + 1
  {
    assert b !in BitmapBlocks(start, bs);
  }

  lemma TruncatesLogs(sb: Super, v: FsVal, w: FsVal, i: nat, logged: set<nat>)
    requires Truncates(sb, v, w, i, logged) == true
    ensures |logged| == |BitmapBlocks(sb.bmapstart, BlocksOf(FilesOf(v), i))| + 1
  {
    InodeBlock(sb, |v.inodes|, |v.blocks|, i);
    BitmapBehind(sb.bmapstart, BlocksOf(FilesOf(v), i), IBlock(sb, i));
  }

  lemma TruncatesDoes(sb: Super, v: FsVal, w: FsVal, i: nat, logged: set<nat>)
    requires Truncates(sb, v, w, i, logged) == true
    ensures Does(sb, v, w, Empty(i), logged) <==> |BitmapBlocks(sb.bmapstart, BlocksOf(FilesOf(v), i))| < MAXOPBLOCKS
  {
    TruncatesPlay(sb, v, w, i, logged);
    TruncatesLogs(sb, v, w, i, logged);
  }

  /** itrunc in a transaction of its own. */
  method Truncate(fs: Fs, i: nat)
    requires fs.Valid() && i < |fs.inodes|
    modifies fs
    ensures Truncates(fs.sb, old(Val(fs)), Val(fs), i, fs.logged) == true
  {
    ghost var v := Val(fs);
    fs.logged := {};
    var ok := fs.Itrunc(i);
    ghost var w := Val(fs);
    forall j {:trigger FileOf(fs.sb, w, j)} {:trigger w.inodes[j]} | 0 <= j < |w.inodes| && j != i
      ensures FileOf(fs.sb, w, j) == FileOf(fs.sb, v, j) && w.inodes[j] == v.inodes[j]
    {
      assert fs.File(j) == old(fs.File(j));
    }
  }

  /** Truncation is one exactly if the bits of its blocks fit in the log. */
  method TruncTransaction(fs: Fs, i: nat)
    requires fs.Valid() && i < |fs.inodes|
    modifies fs
    ensures Does(fs.sb, old(Val(fs)), Val(fs), Empty(i), fs.logged) <==>
            |BitmapBlocks(fs.sb.bmapstart, BlocksOf(old(fs.Abs()), i))| < MAXOPBLOCKS
  {
    Truncate(fs, i);
    TruncatesDoes(fs.sb, old(Val(fs)), Val(fs), i, fs.logged);
  }
}
